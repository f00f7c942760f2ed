/** Laws of the lookup: what a change to the file can and cannot alter. */
module ConfigLaws {
  import opened CStrings
  import opened Lookup

  /** Text that consists of complete lines. */
  predicate WholeLines(s: string) {
    s == "" || s[|s| - 1] == '\n'
  }

  lemma PieceOfAppend(a: string, b: string)
    requires WholeLines(a) && a != ""
    ensures PieceLength(a + b) == PieceLength(a) && WholeLines(a[PieceLength(a)..])
  {
    var n := Span(a, NEWLINE);
    assert n < |a|;
    SpanUnique(a + b, NEWLINE, n);
  }

  lemma LinesStep(s: string)
    requires s != ""
    ensures var k := PieceLength(s); Lines(s) == [TrimLeft(CString(s[..k]))] + Lines(s[k..])
  {
  }

  lemma LinesOfNothing()
    ensures Lines("") == []
  {
  }

  /** Whole lines are scanned separately from the text that follows them. */
  lemma {:induction false} LinesAppend(a: string, b: string)
    requires WholeLines(a)
    ensures Lines(a + b) == Lines(a) + Lines(b)
    decreases |a|
  {
    hide PieceLength, CString, TrimLeft, Lines;
    if a == "" {
      LinesOfNothing();
      assert a + b == b;
    } else {
      var k := PieceLength(a);
      PieceOfAppend(a, b);
      assert (a + b)[..k] == a[..k] && (a + b)[k..] == a[k..] + b;
      LinesStep(a);
      LinesStep(a + b);
      LinesAppend(a[k..], b);
    }
  }

  lemma LinesOfThree(a: string, b: string, c: string)
    requires WholeLines(a) && WholeLines(b)
    ensures Lines(a + b + c) == Lines(a) + (Lines(b) + Lines(c))
  {
    hide Lines;
    LinesAppend(a, b + c);
    LinesAppend(b, c);
    assert a + b + c == a + (b + c);
  }

  /** A complete line that fits one piece. */
  predicate IsLine(s: string) {
    0 < |s| < KEYVALLEN && s[|s| - 1] == '\n' && forall i | 0 <= i < |s| - 1 :: s[i] != '\n'
  }

  lemma OneLine(s: string)
    requires IsLine(s)
    ensures Lines(s) == [TrimLeft(CString(s))]
  {
    SpanUnique(s, NEWLINE, |s| - 1);
    assert PieceLength(s) == |s|;
    hide Lines, CString, TrimLeft, PieceLength, Span;
    LinesStep(s);
    LinesOfNothing();
    assert s[..|s|] == s && s[|s|..] == "";
  }

  /** A line without NUL that does not start with white space is scanned as it stands. */
  lemma PlainLine(s: string)
    requires IsLine(s) && !IsSpace(s[0]) && forall i | 0 <= i < |s| :: s[i] != NUL
    ensures Lines(s) == [s]
  {
    OneLine(s);
    SpanUnique(s, {NUL}, |s|);
    assert s[..|s|] == s;
  }

  // Inserting text.

  /** A line that the scan passes over in every state. */
  predicate Inert(l: string) {
    !IsHeader(l) && !IsEntry(l)
  }

  lemma HeaderOpens(app: string, l: string)
    ensures Header(app) <= l ==> IsHeader(l)
  {
    assert Header(app)[0] == '[';
  }

  lemma {:induction false} ScanSkipsInert(xs: seq<string>, ys: seq<string>, app: string, key: string, inside: bool)
    requires forall l | l in xs :: Inert(l)
    ensures Scan(xs + ys, app, key, inside) == Scan(ys, app, key, inside)
  {
    if xs == [] {
      assert xs + ys == ys;
    } else {
      assert xs[0] in xs && (xs + ys)[0] == xs[0] && (xs + ys)[1..] == xs[1..] + ys;
      HeaderOpens(app, xs[0]);
      ScanSkipsInert(xs[1..], ys, app, key, inside);
    }
  }

  lemma {:induction false} ScanCongruence(xs: seq<string>, ys: seq<string>, zs: seq<string>,
                                          app: string, key: string, inside: bool)
    requires forall s: bool :: Scan(ys, app, key, s) == Scan(zs, app, key, s)
    ensures Scan(xs + ys, app, key, inside) == Scan(xs + zs, app, key, inside)
  {
    if xs == [] {
      assert xs + ys == ys && xs + zs == zs;
    } else {
      assert (xs + ys)[1..] == xs[1..] + ys && (xs + zs)[1..] == xs[1..] + zs;
      ScanCongruence(xs[1..], ys, zs, app, key, inside || Header(app) <= xs[0]);
      ScanCongruence(xs[1..], ys, zs, app, key, inside);
    }
  }

  /** Inserting `x` between whole lines changes no lookup. */
  ghost predicate Unobservable(x: string) {
    forall before: string, after: string, app: string, key: string | WholeLines(before) ::
      Find(before + x + after, app, key) == Find(before + after, app, key)
  }

  lemma InertIsUnobservable(x: string, before: string, after: string, app: string, key: string)
    requires WholeLines(x) && WholeLines(before) && forall l | l in Lines(x) :: Inert(l)
    ensures Find(before + x + after, app, key) == Find(before + after, app, key)
  {
    hide Lines, Scan;
    LinesAppend(before, after);
    LinesOfThree(before, x, after);
    ScanSkipsInert(Lines(x), Lines(after), app, key, false);
    ScanSkipsInert(Lines(x), Lines(after), app, key, true);
    ScanCongruence(Lines(before), Lines(x) + Lines(after), Lines(after), app, key, false);
  }

  /** Inserted lines go unnoticed by every lookup in every file exactly when each piece of them is inert. */
  lemma InsertionLaw(x: string)
    requires WholeLines(x)
    ensures Unobservable(x) <==> forall l | l in Lines(x) :: Inert(l)
  {
    if forall l | l in Lines(x) :: Inert(l) {
      forall before: string, after: string, app: string, key: string | WholeLines(before)
        ensures Find(before + x + after, app, key) == Find(before + after, app, key)
      {
        InertIsUnobservable(x, before, after, app, key);
      }
    } else {
      NotInertIsObservable(x);
    }
  }

  lemma {:induction false} FirstNotInert(ls: seq<string>) returns (i: nat)
    requires exists l :: l in ls && !Inert(l)
    ensures i < |ls| && !Inert(ls[i]) && forall l | l in ls[..i] :: Inert(l)
  {
    if !Inert(ls[0]) {
      i := 0;
    } else {
      assert exists l :: l in ls[1..] && !Inert(l);
      i := FirstNotInert(ls[1..]);
      assert ls[..i + 1] == [ls[0]] + ls[1..][..i];
      i := i + 1;
    }
  }

  // A file in which an inserted line can be noticed.

  predicate Letter(c: char) {
    'a' <= c <= 'z'
  }

  function OpenLine(c: char): string { Header([c]) + "\n" }

  function EntryLine(c: char): string { [c, '=', '\n'] }

  lemma OpenLineScanned(c: char, rest: seq<string>, key: string)
    requires Letter(c)
    ensures Lines(OpenLine(c)) == [OpenLine(c)] && WholeLines(OpenLine(c)) && IsHeader(OpenLine(c))
    ensures Scan([OpenLine(c)] + rest, [c], key, false) == Scan(rest, [c], key, true)
  {
    var l := OpenLine(c);
    assert l[..3] == Header([c]) && Header([c]) <= l;
    PlainLine(l);
    hide Lines;
    assert ([l] + rest)[0] == l && ([l] + rest)[1..] == rest;
  }

  lemma EntryLineScanned(c: char)
    requires Letter(c)
    ensures Lines(EntryLine(c)) == [EntryLine(c)]
    ensures IsEntry(EntryLine(c)) && KeyToken(EntryLine(c)) == [c]
  {
    PlainLine(EntryLine(c));
    hide Lines;
    LetterKey(c);
  }

  lemma LetterKey(c: char)
    requires Letter(c)
    ensures IsEntry(EntryLine(c)) && KeyToken(EntryLine(c)) == [c]
  {
    var l := EntryLine(c);
    assert l[1] == '=' && l[..1] == [c];
    assert c !in KEY_STOP && l[1] in KEY_STOP;
    hide KEY_STOP;
    SpanUnique(l, KEY_STOP, 1);
  }

  lemma {:induction false} FirstOnly(l: string, rest: seq<string>, app: string, key: string)
    requires !Inert(l)
    ensures IsHeader(l) ==> Scan([l] + rest, app, key, true) == Missing
    ensures IsEntry(l) && KeyToken(l) == key ==> Scan([l] + rest, app, key, true).Hit?
  {
    hide KeyToken, AfterEquals;
    assert ([l] + rest)[0] == l;
  }

  /** Right after its header, the scan of a section reaches the first line of `x` that is not inert. */
  lemma ScanReaches(x: string, after: string, c: char, key: string, i: nat)
    requires Letter(c) && WholeLines(x) && i < |Lines(x)| && forall l | l in Lines(x)[..i] :: Inert(l)
    ensures Find(OpenLine(c) + x + after, [c], key) == Scan(Lines(x)[i..] + Lines(after), [c], key, true)
    ensures Find(OpenLine(c) + after, [c], key) == Scan(Lines(after), [c], key, true)
  {
    hide Lines, Scan, Inert, OpenLine;
    var ls, rest := Lines(x), Lines(after);
    OpenLineScanned(c, ls + rest, key);
    OpenLineScanned(c, rest, key);
    LinesOfThree(OpenLine(c), x, after);
    LinesAppend(OpenLine(c), after);
    assert ls + rest == ls[..i] + (ls[i..] + rest);
    ScanSkipsInert(ls[..i], ls[i..] + rest, [c], key, true);
  }

  lemma HeaderIsNoticed(x: string, i: nat, c: char)
    requires Letter(c) && WholeLines(x) && i < |Lines(x)| && forall l | l in Lines(x)[..i] :: Inert(l)
    requires IsHeader(Lines(x)[i])
    ensures Find(OpenLine(c) + x + EntryLine(c), [c], [c]) != Find(OpenLine(c) + EntryLine(c), [c], [c])
  {
    hide Lines, Scan, OpenLine, EntryLine, KeyToken, Find;
    var l, after := Lines(x)[i], EntryLine(c);
    ScanReaches(x, after, c, [c], i);
    EntryLineScanned(c);
    FirstOnly(l, Lines(x)[i + 1..] + Lines(after), [c], [c]);
    FirstOnly(after, [], [c], [c]);
    assert Lines(x)[i..] + Lines(after) == [l] + (Lines(x)[i + 1..] + Lines(after));
    assert [after] + [] == [after];
  }

  lemma EntryIsNoticed(x: string, i: nat, c: char)
    requires Letter(c) && WholeLines(x) && i < |Lines(x)| && forall l | l in Lines(x)[..i] :: Inert(l)
    requires IsEntry(Lines(x)[i])
    ensures var key := KeyToken(Lines(x)[i]);
            Find(OpenLine(c) + x + "", [c], key) != Find(OpenLine(c) + "", [c], key)
  {
    hide Scan, OpenLine, KeyToken, Find, Lines;
    var l := Lines(x)[i];
    ScanReaches(x, "", c, KeyToken(l), i);
    LinesOfNothing();
    FirstOnly(l, Lines(x)[i + 1..], [c], KeyToken(l));
    assert Lines(x)[i..] + [] == [l] + Lines(x)[i + 1..];
    NoLines([c], KeyToken(l));
  }

  lemma NoLines(app: string, key: string)
    ensures Scan([], app, key, true) == Missing
  {
  }

  lemma NotInertIsObservable(x: string)
    requires WholeLines(x) && exists l :: l in Lines(x) && !Inert(l)
    ensures !Unobservable(x)
  {
    hide Lines, Scan, KeyToken, Find, OpenLine, EntryLine;
    var i := FirstNotInert(Lines(x));
    OpenLineScanned('s', [], "");
    if IsHeader(Lines(x)[i]) {
      HeaderIsNoticed(x, i, 's');
    } else {
      EntryIsNoticed(x, i, 's');
    }
  }

  /** Blank lines and comment lines that fit one piece change nothing. */
  lemma CommentInsertion(line: string)
    requires IsLine(line)
    requires TrimLeft(CString(line)) == "" || TrimLeft(CString(line))[0] == '#'
    ensures Unobservable(line)
  {
    OneLine(line);
    InsertionLaw(line);
  }

  /** A line that starts as a comment and is longer than one piece. */
  function LongComment(c: char): string {
    "#" + seq(254, _ => 'x') + OpenLine(c)
  }

  /** Such a line can be noticed: its second piece is a header. */
  lemma LongCommentIsObservable(c: char)
    requires Letter(c)
    ensures WholeLines(LongComment(c)) && !Unobservable(LongComment(c))
  {
    var line := LongComment(c);
    SpanUnique(line, NEWLINE, |line| - 1);
    assert PieceLength(line) == 255 && line[255..] == OpenLine(c);
    OpenLineScanned(c, [], "");
    hide LongComment, CString, TrimLeft, PieceLength, OpenLine;
    assert Lines(line)[1] == OpenLine(c);
    assert Lines(line)[1] in Lines(line) && !Inert(OpenLine(c));
    hide Lines;
    InsertionLaw(line);
  }

  // Text after the section.

  lemma {:induction false} ScanStopsAtHeader(xs: seq<string>, c: string, ys: seq<string>, zs: seq<string>,
                                             app: string, key: string)
    requires IsHeader(c)
    ensures Scan(xs + [c] + ys, app, key, true) == Scan(xs + [c] + zs, app, key, true)
  {
    if xs == [] {
      assert (xs + [c] + ys)[0] == c && (xs + [c] + zs)[0] == c;
    } else {
      assert (xs + [c] + ys)[1..] == xs[1..] + [c] + ys && (xs + [c] + zs)[1..] == xs[1..] + [c] + zs;
      ScanStopsAtHeader(xs[1..], c, ys, zs, app, key);
    }
  }

  /** Once the section has been opened and a later header has closed it, the rest of the file does not matter. */
  lemma AfterTheSection(a: string, c: string, b: string, b': string, app: string, key: string, h: nat)
    requires WholeLines(a) && WholeLines(c) && Opens(Lines(a), app, h)
    requires Lines(c) != [] && IsHeader(Lines(c)[0])
    ensures Find(a + c + b, app, key) == Find(a + c + b', app, key)
  {
    FromTheSection(a, c, b, app, key, h);
    FromTheSection(a, c, b', app, key, h);
    ScanStopsAtHeader(Lines(a)[h + 1..], Lines(c)[0], Lines(c)[1..] + Lines(b), Lines(c)[1..] + Lines(b'), app, key);
  }

  lemma FromTheSection(a: string, c: string, b: string, app: string, key: string, h: nat)
    requires WholeLines(a) && WholeLines(c) && Opens(Lines(a), app, h) && Lines(c) != []
    ensures Find(a + c + b, app, key)
         == Scan(Lines(a)[h + 1..] + [Lines(c)[0]] + (Lines(c)[1..] + Lines(b)), app, key, true)
  {
    hide Lines, Scan;
    LinesOfThree(a, c, b);
    var all := Lines(a) + (Lines(c) + Lines(b));
    assert Opens(all, app, h);
    ScanToHeader(all, app, key, h);
    assert all[h + 1..] == Lines(a)[h + 1..] + [Lines(c)[0]] + (Lines(c)[1..] + Lines(b));
  }

  // The stored value.

  /** The text up to the newline is stored trimmed, or as it stands if it is all white space. */
  lemma StoredText(text: string, before: string)
    requires Span(text, NEWLINE) > 0
    ensures var raw := text[..Span(text, NEWLINE)];
            (AllSpace(raw) ==> Stored(text, before) == raw)
            && (!AllSpace(raw) ==> IsTrimmed(raw, Stored(text, before)) && Stored(text, before) != "")
  {
    var raw := text[..Span(text, NEWLINE)];
    TrimEmptyIffSpace(raw);
    TrimIsTrimmed(raw);
  }

  /** With no text, the old contents are treated in the same way. */
  lemma StoredWithoutText(text: string, before: string)
    requires text == "" || text[0] == '\n'
    ensures AllSpace(before) ==> Stored(text, before) == before
    ensures !AllSpace(before) ==> IsTrimmed(before, Stored(text, before)) && Stored(text, before) != ""
  {
    TrimEmptyIffSpace(before);
    TrimIsTrimmed(before);
    hide Trim;
  }

  lemma StoredCharacter(text: string, c: char)
    requires (text == "" || text[0] == '\n') && !IsSpace(c)
    ensures Stored(text, [c]) == [c]
  {
    var b := [c];
    StoredWithoutText(text, b);
    assert TrimmedAt(b, b, 0, 1);
    hide Stored;
    TrimmedUnique(b, b, Stored(text, b));
  }

  /** The result depends on the file alone exactly when some text follows the `=`. */
  lemma StoredIgnoresBefore(text: string)
    ensures (forall b: string, b': string :: Stored(text, b) == Stored(text, b')) <==> Span(text, NEWLINE) > 0
  {
    hide Trim, Span;
    if Span(text, NEWLINE) == 0 {
      StoredCharacter(text, 'x');
      StoredCharacter(text, 'y');
      assert Stored(text, ['x'])[0] != Stored(text, ['y'])[0];
    }
  }
}
