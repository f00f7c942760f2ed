/** What `conf_read` of src/utils/config_read.c finds in a file, as a function of the file's text. */
module Lookup {
  import opened CStrings

  /** KEYVALLEN of src/utils/config_read.h: the buffer size given to `fgets`. */
  const KEYVALLEN: nat := 256

  /** The characters excluded by the key scanset of `conf_read`. */
  const KEY_STOP: set<char> := {'=', '|', '^', ' ', '\t'}

  const EQUALS: set<char> := {'='}

  const NEWLINE: set<char> := {'\n'}

  // Pieces of the file.

  /** How much one `fgets` takes: through the first newline, but at most 255 characters. */
  function PieceLength(s: string): (n: nat)
    requires s != ""
    ensures 0 < n <= |s| && n < KEYVALLEN
  {
    var line := Span(s, NEWLINE);
    var n := if line < |s| then line + 1 else line;
    if n < KEYVALLEN then n else KEYVALLEN - 1
  }

  /** A line of `w` and a newline, or a last line without one, is cut off after 255 characters. */
  lemma PieceOfLine(w: string, t: string)
    requires forall i | 0 <= i < |w| :: w[i] != '\n'
    ensures PieceLength(w + "\n" + t) == if |w| + 1 < 255 then |w| + 1 else 255
    ensures w != "" ==> PieceLength(w) == if |w| < 255 then |w| else 255
  {
    SpanUnique(w + "\n" + t, NEWLINE, |w|);
    SpanUnique(w, NEWLINE, |w|);
  }

  /** What the scan looks at: the C string of each piece without its leading white space. */
  function Lines(file: string): seq<string> {
    if file == "" then [] else
    var n := PieceLength(file);
    [TrimLeft(CString(file[..n]))] + Lines(file[n..])
  }

  // The scan.

  datatype Outcome = Missing | Hit(text: string)

  function Header(app: string): string {
    "[" + app + "]"
  }

  predicate IsHeader(l: string) {
    l != "" && l[0] == '['
  }

  /** A line that is compared with the key. */
  predicate IsEntry(l: string) {
    l != "" && l[0] != '#' && l[0] != '[' && '=' in l
  }

  function KeyToken(l: string): string {
    l[..Span(l, KEY_STOP)]
  }

  function AfterEquals(l: string): string
    requires '=' in l
  {
    assert Span(l, EQUALS) < |l|;
    l[Span(l, EQUALS) + 1..]
  }

  /** A key ends before the first of the five characters, or with the line. */
  lemma KeyEnds(w: string, d: char, t: string)
    requires forall i | 0 <= i < |w| :: w[i] != '=' && w[i] != '|' && w[i] != '^' && w[i] != ' ' && w[i] != '\t'
    ensures KeyToken(w + [d] + t) == w <==> d == '=' || d == '|' || d == '^' || d == ' ' || d == '\t'
    ensures KeyToken(w) == w
  {
    var l := w + [d] + t;
    assert l[..|w|] == w && l[|w|] == d && w[..|w|] == w;
    SpanUnique(w, KEY_STOP, |w|);
    if d in KEY_STOP {
      SpanUnique(l, KEY_STOP, |w|);
    }
  }

  /** The text begins after the first equals sign. */
  lemma TextStarts(w: string, t: string)
    requires forall i | 0 <= i < |w| :: w[i] != '='
    ensures AfterEquals(w + "=" + t) == t
  {
    var l := w + "=" + t;
    assert l[|w|] == '=' && l[|w| + 1..] == t;
    SpanUnique(l, EQUALS, |w|);
  }

  /** The state machine: outside and inside the section. */
  function Scan(lines: seq<string>, app: string, key: string, inside: bool): Outcome {
    if lines == [] then Missing else
    var l, rest := lines[0], lines[1..];
    if !inside then Scan(rest, app, key, Header(app) <= l)
    else if IsHeader(l) then Missing
    else if IsEntry(l) && KeyToken(l) == key then Hit(AfterEquals(l))
    else Scan(rest, app, key, true)
  }

  function Find(file: string, app: string, key: string): Outcome {
    Scan(Lines(file), app, key, false)
  }

  /** Whether every key token that the scan stores fits the 32-byte buffer. */
  predicate KeysFit(lines: seq<string>, app: string, key: string, inside: bool) {
    lines == [] ||
    var l, rest := lines[0], lines[1..];
    if !inside then KeysFit(rest, app, key, Header(app) <= l)
    else if IsHeader(l) then true
    else if IsEntry(l) then |KeyToken(l)| < 32 && (KeyToken(l) == key || KeysFit(rest, app, key, true))
    else KeysFit(rest, app, key, true)
  }

  /** The value stored for the text after `=`. An empty text leaves the old contents to be trimmed,
      and a value that trims to nothing is stored untrimmed. */
  function Stored(text: string, before: string): string {
    var raw := text[..Span(text, NEWLINE)];
    var value := if raw == "" then before else raw;
    if Trim(value) == "" then value else Trim(value)
  }

  // The declarative reading.

  /** Line `h` opens the section. */
  ghost predicate Opens(lines: seq<string>, app: string, h: nat) {
    h < |lines| && Header(app) <= lines[h] && forall i | 0 <= i < h :: !(Header(app) <= lines[i])
  }

  /** Line `k` is in the section that line `h` opens. */
  ghost predicate InSection(lines: seq<string>, h: nat, k: nat) {
    h < k < |lines| && forall i | h < i <= k :: !IsHeader(lines[i])
  }

  ghost predicate Matches(l: string, key: string) {
    IsEntry(l) && KeyToken(l) == key
  }

  /** Line `k` is the first entry for `key` in the first section named `app`. */
  ghost predicate Selects(lines: seq<string>, app: string, key: string, h: nat, k: nat) {
    Opens(lines, app, h) && InSection(lines, h, k) && Matches(lines[k], key)
    && forall i | h < i < k :: !Matches(lines[i], key)
  }

  /** One step of the scan, on a line and the lines after it. */
  lemma ScanStep(l: string, rest: seq<string>, app: string, key: string)
    ensures Scan([l] + rest, app, key, false) == Scan(rest, app, key, Header(app) <= l)
    ensures KeysFit([l] + rest, app, key, false) == KeysFit(rest, app, key, Header(app) <= l)
    ensures IsHeader(l) ==> Scan([l] + rest, app, key, true) == Missing
    ensures !IsHeader(l) && Matches(l, key) ==> Scan([l] + rest, app, key, true) == Hit(AfterEquals(l))
    ensures !IsHeader(l) && !Matches(l, key) ==> Scan([l] + rest, app, key, true) == Scan(rest, app, key, true)
    ensures KeysFit([l] + rest, app, key, true) && IsEntry(l) ==> |KeyToken(l)| < 32
    ensures KeysFit([l] + rest, app, key, true) && !IsHeader(l) && !Matches(l, key) ==> KeysFit(rest, app, key, true)
    ensures KeysFit(rest, app, key, true) && (IsEntry(l) ==> |KeyToken(l)| < 32) ==> KeysFit([l] + rest, app, key, true)
  {
    hide Header, KeyToken, AfterEquals;
    assert ([l] + rest)[0] == l && ([l] + rest)[1..] == rest;
  }

  /** From inside the section, the scan stops at the first matching entry before any header. */
  lemma {:induction false} ScanInside(lines: seq<string>, app: string, key: string, k: nat)
    requires k < |lines| && Matches(lines[k], key)
    requires forall i | 0 <= i < k :: !IsHeader(lines[i]) && !Matches(lines[i], key)
    ensures Scan(lines, app, key, true) == Hit(AfterEquals(lines[k]))
  {
    if k > 0 {
      ScanInside(lines[1..], app, key, k - 1);
    }
  }

  lemma {:induction false} ScanToHeader(lines: seq<string>, app: string, key: string, h: nat)
    requires Opens(lines, app, h)
    ensures Scan(lines, app, key, false) == Scan(lines[h + 1..], app, key, true)
  {
    if h > 0 {
      ScanToHeader(lines[1..], app, key, h - 1);
      assert lines[1..][h..] == lines[h + 1..];
    }
  }

  lemma {:induction false} ScanWithoutHeader(lines: seq<string>, app: string, key: string)
    requires forall i | 0 <= i < |lines| :: !(Header(app) <= lines[i])
    ensures Scan(lines, app, key, false) == Missing
  {
    if lines != [] {
      ScanWithoutHeader(lines[1..], app, key);
    }
  }

  /** The scan succeeds exactly when some line is selected, and then it yields that line's text. */
  lemma ScanSelects(lines: seq<string>, app: string, key: string)
    ensures forall h: nat, k: nat | Selects(lines, app, key, h, k) ::
              Scan(lines, app, key, false) == Hit(AfterEquals(lines[k]))
    ensures Scan(lines, app, key, false).Hit? <==> exists h: nat, k: nat :: Selects(lines, app, key, h, k)
  {
    forall h: nat, k: nat | Selects(lines, app, key, h, k)
      ensures Scan(lines, app, key, false) == Hit(AfterEquals(lines[k]))
    {
      ScanToHeader(lines, app, key, h);
      ScanInside(lines[h + 1..], app, key, k - h - 1);
    }
    if Scan(lines, app, key, false).Hit? {
      var h, k := SelectedLine(lines, app, key);
    }
  }

  lemma {:induction false} FirstMatch(lines: seq<string>, app: string, key: string) returns (k: nat)
    requires Scan(lines, app, key, true).Hit?
    ensures k < |lines| && Matches(lines[k], key) && !IsHeader(lines[k])
    ensures forall i | 0 <= i < k :: !IsHeader(lines[i]) && !Matches(lines[i], key)
  {
    if Matches(lines[0], key) {
      k := 0;
    } else {
      k := FirstMatch(lines[1..], app, key);
      k := k + 1;
    }
  }

  lemma {:induction false} FirstHeader(lines: seq<string>, app: string, key: string) returns (h: nat)
    requires Scan(lines, app, key, false).Hit?
    ensures Opens(lines, app, h)
  {
    if Header(app) <= lines[0] {
      h := 0;
    } else {
      h := FirstHeader(lines[1..], app, key);
      h := h + 1;
    }
  }

  lemma SelectedLine(lines: seq<string>, app: string, key: string) returns (h: nat, k: nat)
    requires Scan(lines, app, key, false).Hit?
    ensures Selects(lines, app, key, h, k)
  {
    h := FirstHeader(lines, app, key);
    ScanToHeader(lines, app, key, h);
    k := FirstMatch(lines[h + 1..], app, key);
    forall i | h < i <= h + 1 + k
      ensures lines[i] == lines[h + 1..][i - h - 1]
    {
    }
    k := h + 1 + k;
  }

  // The key buffer.

  /** From inside the section, the scan compares line `k`: nothing before it has ended the search. */
  ghost predicate Reached(lines: seq<string>, key: string, k: nat)
    ensures Reached(lines, key, k) ==> k < |lines|
  {
    k < |lines| && (forall i | 0 <= i <= k :: !IsHeader(lines[i])) && forall i | 0 <= i < k :: !Matches(lines[i], key)
  }

  lemma ReachedNext(lines: seq<string>, key: string, k: nat)
    requires lines != []
    ensures Reached(lines, key, k + 1)
       <==> !IsHeader(lines[0]) && !Matches(lines[0], key) && Reached(lines[1..], key, k)
  {
    hide IsHeader, Matches;
    assert forall i | 0 <= i < |lines| - 1 :: lines[1..][i] == lines[i + 1];
    if Reached(lines, key, k + 1) {
      forall i | 0 <= i <= k
        ensures !IsHeader(lines[1..][i]) && (i < k ==> !Matches(lines[1..][i], key))
      {
        assert lines[1..][i] == lines[i + 1];
      }
    }
    if !IsHeader(lines[0]) && !Matches(lines[0], key) && Reached(lines[1..], key, k) {
      forall i | 0 <= i <= k + 1
        ensures !IsHeader(lines[i]) && (i <= k ==> !Matches(lines[i], key))
      {
        assert i > 0 ==> lines[i] == lines[1..][i - 1];
      }
    }
  }

  lemma {:induction false} KeysFitInside(lines: seq<string>, app: string, key: string)
    ensures KeysFit(lines, app, key, true)
       <==> forall k: nat | Reached(lines, key, k) && IsEntry(lines[k]) :: |KeyToken(lines[k])| < 32
  {
    if lines != [] {
      hide KeyToken;
      var rest := lines[1..];
      KeysFitInside(rest, app, key);
      assert Reached(lines, key, 0) <==> !IsHeader(lines[0]);
      forall k: nat
        ensures Reached(lines, key, k + 1)
           <==> !IsHeader(lines[0]) && !Matches(lines[0], key) && Reached(rest, key, k)
      {
        ReachedNext(lines, key, k);
      }
      if KeysFit(lines, app, key, true) {
        forall k: nat | Reached(lines, key, k) && IsEntry(lines[k])
          ensures |KeyToken(lines[k])| < 32
        {
          if k > 0 {
            ReachedNext(lines, key, k - 1);
            assert lines[k] == rest[k - 1];
          }
        }
      } else if !IsHeader(lines[0]) && !Matches(lines[0], key) && !KeysFit(rest, app, key, true) {
        var k: nat :| Reached(rest, key, k) && IsEntry(rest[k]) && |KeyToken(rest[k])| >= 32;
        assert Reached(lines, key, k + 1) && lines[k + 1] == rest[k];
      }
    }
  }

  lemma {:induction false} KeysFitOutside(lines: seq<string>, app: string, key: string, h: nat)
    requires Opens(lines, app, h)
    ensures KeysFit(lines, app, key, false) == KeysFit(lines[h + 1..], app, key, true)
  {
    if h > 0 {
      KeysFitOutside(lines[1..], app, key, h - 1);
      assert lines[1..][h..] == lines[h + 1..];
    }
  }

  lemma {:induction false} KeysFitWithoutHeader(lines: seq<string>, app: string, key: string)
    requires forall i | 0 <= i < |lines| :: !(Header(app) <= lines[i])
    ensures KeysFit(lines, app, key, false)
  {
    if lines != [] {
      KeysFitWithoutHeader(lines[1..], app, key);
    }
  }

  /** Line `k` is an entry of the section that line `h` opens, and the scan compares its key. */
  ghost predicate Compared(lines: seq<string>, app: string, key: string, h: nat, k: nat) {
    Opens(lines, app, h) && h < k < |lines| && Reached(lines[h + 1..], key, k - h - 1) && IsEntry(lines[k])
  }

  /** The key buffer is never overrun exactly when each entry that is compared has a token of at most 31. */
  lemma KeysFitExact(lines: seq<string>, app: string, key: string)
    ensures KeysFit(lines, app, key, false)
       <==> forall h: nat, k: nat | Compared(lines, app, key, h, k) :: |KeyToken(lines[k])| < 32
  {
    hide KeysFit, KeyToken, IsEntry, Reached;
    if h: nat :| Opens(lines, app, h) {
      var rest := lines[h + 1..];
      KeysFitOutside(lines, app, key, h);
      KeysFitInside(rest, app, key);
      assert forall g: nat | Opens(lines, app, g) :: g == h;
      if !KeysFit(rest, app, key, true) {
        var k: nat :| Reached(rest, key, k) && IsEntry(rest[k]) && |KeyToken(rest[k])| >= 32;
        assert k < |rest| && rest[k] == lines[h + 1 + k];
        assert Compared(lines, app, key, h, h + 1 + k);
      } else {
        forall k: nat | Compared(lines, app, key, h, k)
          ensures |KeyToken(lines[k])| < 32
        {
          assert rest[k - h - 1] == lines[k];
        }
      }
    } else {
      HeaderOrNone(lines, app);
      KeysFitWithoutHeader(lines, app, key);
    }
  }

  lemma {:induction false} HeaderOrNone(lines: seq<string>, app: string)
    ensures (exists h: nat :: Opens(lines, app, h)) || forall i | 0 <= i < |lines| :: !(Header(app) <= lines[i])
  {
    if lines != [] {
      HeaderOrNone(lines[1..], app);
      if Header(app) <= lines[0] {
        assert Opens(lines, app, 0);
      } else if h: nat :| Opens(lines[1..], app, h) {
        assert Opens(lines, app, h + 1);
      }
    }
  }
}
