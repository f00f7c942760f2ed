/** NUL-terminated strings in character arrays, the C library functions that src/utils/config_read.c
    calls on them, and its three trimming functions. */
module CStrings {

  const NUL: char := '\0'

  /** The number of leading characters of `s` that are outside `stop`. */
  function Span(s: string, stop: set<char>): (n: nat)
    ensures n <= |s|
    ensures forall i | 0 <= i < n :: s[i] !in stop
    ensures n < |s| ==> s[n] in stop
  {
    if s == [] || s[0] in stop then 0 else 1 + Span(s[1..], stop)
  }

  lemma SpanUnique(s: string, stop: set<char>, n: nat)
    requires n <= |s| && (forall i | 0 <= i < n :: s[i] !in stop) && (n < |s| ==> s[n] in stop)
    ensures Span(s, stop) == n
  {
  }

  predicate Terminated(a: seq<char>) {
    NUL in a
  }

  /** The C string that starts at the first element. */
  function CString(a: seq<char>): (s: string)
    ensures NUL !in s && |s| <= |a|
    ensures Terminated(a) <==> |s| < |a|
  {
    a[..Span(a, {NUL})]
  }

  lemma CStringIs(a: seq<char>, n: nat)
    requires n < |a| && a[n] == NUL && NUL !in a[..n]
    ensures CString(a) == a[..n]
  {
    assert forall i | 0 <= i < n :: a[i] == a[..n][i];
    SpanUnique(a, {NUL}, n);
  }

  /** A string ends before the first character of code 0, or with the array. */
  lemma StringEnds(w: string, t: seq<char>)
    requires forall i | 0 <= i < |w| :: w[i] as int != 0
    ensures CString(w + ['\0'] + t) == w && CString(w) == w
  {
    var a := w + ['\0'] + t;
    assert a[..|w|] == w && w[..|w|] == w;
    SpanUnique(a, {NUL}, |w|);
    SpanUnique(w, {NUL}, |w|);
  }

  /** `isspace` in the C locale. */
  predicate IsSpace(c: char) {
    c == ' ' || 9 <= c as int <= 13
  }

  predicate AllSpace(s: string) {
    forall i | 0 <= i < |s| :: IsSpace(s[i])
  }

  function TrimLeft(s: string): (t: string)
    ensures |t| <= |s|
  {
    if s != "" && IsSpace(s[0]) then TrimLeft(s[1..]) else s
  }

  function TrimRight(s: string): (t: string)
    ensures |t| <= |s|
  {
    if s != "" && IsSpace(s[|s| - 1]) then TrimRight(s[..|s| - 1]) else s
  }

  /** The characters that are trimmed, by their codes: horizontal tab to carriage return, and the space. */
  lemma TrimmedCodes(c: char, s: string)
    ensures var space := c as int in {9, 10, 11, 12, 13, 32};
            && (TrimLeft([c]) == "" <==> space) && (TrimRight([c]) == "" <==> space)
            && TrimLeft([c] + s) == (if space then TrimLeft(s) else [c] + s)
            && TrimRight(s + [c]) == (if space then TrimRight(s) else s + [c])
  {
    assert ([c] + s)[1..] == s && (s + [c])[..|s|] == s;
  }

  lemma {:induction false} TrimLeftShape(s: string)
    ensures var t := TrimLeft(s);
            t == s[|s| - |t|..] && AllSpace(s[..|s| - |t|]) && (t != "" ==> !IsSpace(t[0]))
  {
    if s != "" && IsSpace(s[0]) {
      TrimLeftShape(s[1..]);
      var n := |s| - |TrimLeft(s)|;
      assert forall i | 1 <= i < n :: s[..n][i] == s[1..][..n - 1][i - 1];
    }
  }

  lemma {:induction false} TrimRightShape(s: string)
    ensures var t := TrimRight(s);
            t == s[..|t|] && AllSpace(s[|t|..]) && (t != "" ==> !IsSpace(t[|t| - 1]))
  {
    if s != "" && IsSpace(s[|s| - 1]) {
      var r := s[..|s| - 1];
      TrimRightShape(r);
      var n := |TrimRight(s)|;
      assert forall i | 0 <= i < |r| - n :: s[n..][i] == r[n..][i];
    }
  }

  function Trim(s: string): string {
    TrimRight(TrimLeft(s))
  }

  // What trimming means.

  /** `t` is `s` without a prefix and a suffix of white space, and has no white space at its ends. */
  ghost predicate IsTrimmed(s: string, t: string) {
    exists i: nat, j: nat :: TrimmedAt(s, t, i, j)
  }

  predicate TrimmedAt(s: string, t: string, i: nat, j: nat) {
    i <= j <= |s| && t == s[i..j] && AllSpace(s[..i]) && AllSpace(s[j..])
    && (i < j ==> !IsSpace(s[i]) && !IsSpace(s[j - 1]))
  }

  lemma TrimIsTrimmed(s: string)
    ensures IsTrimmed(s, Trim(s))
  {
    TrimLeftShape(s);
    TrimRightShape(TrimLeft(s));
    hide TrimLeft, TrimRight;
    var l, t := TrimLeft(s), Trim(s);
    var i := |s| - |l|;
    var j := i + |t|;
    assert t == s[i..j] && s[j..] == l[|t|..];
    assert t != "" ==> t[0] == l[0];
    assert TrimmedAt(s, t, i, j);
  }

  /** No other substring qualifies. */
  lemma TrimmedUnique(s: string, t: string, u: string)
    requires IsTrimmed(s, t) && IsTrimmed(s, u)
    ensures t == u
  {
    var i: nat, j: nat :| TrimmedAt(s, t, i, j);
    var k: nat, l: nat :| TrimmedAt(s, u, k, l);
    EndsAgree(s, i, j, k, l);
    EndsAgree(s, k, l, i, j);
  }

  /** The non-space ends of one substring lie inside the other. */
  lemma EndsAgree(s: string, i: nat, j: nat, k: nat, l: nat)
    requires i <= j <= |s| && k <= l <= |s|
    requires i < j ==> !IsSpace(s[i]) && !IsSpace(s[j - 1])
    requires AllSpace(s[..k]) && AllSpace(s[l..])
    ensures i < j ==> k <= i && j <= l
  {
    forall m | 0 <= m < k
      ensures IsSpace(s[m])
    {
      assert s[..k][m] == s[m];
    }
    forall m | l <= m < |s|
      ensures IsSpace(s[m])
    {
      assert s[l..][m - l] == s[m];
    }
  }

  lemma TrimIs(s: string, t: string)
    requires IsTrimmed(s, t)
    ensures Trim(s) == t
  {
    TrimIsTrimmed(s);
    TrimmedUnique(s, t, Trim(s));
  }

  /** Both orders of trimming agree. */
  lemma TrimCommutes(s: string)
    ensures TrimLeft(TrimRight(s)) == Trim(s)
  {
    TrimRightShape(s);
    TrimLeftShape(TrimRight(s));
    hide Trim, TrimLeft, TrimRight;
    var r := TrimRight(s);
    var t := TrimLeft(r);
    var i := |r| - |t|;
    assert t == s[i..|r|] && s[..i] == r[..i];
    assert t != "" ==> t[|t| - 1] == r[|r| - 1];
    assert TrimmedAt(s, t, i, |r|);
    TrimIs(s, t);
  }

  lemma TrimIdempotent(s: string)
    ensures Trim(Trim(s)) == Trim(s)
  {
    var t := Trim(s);
    TrimIsTrimmed(s);
    var i: nat, j: nat :| TrimmedAt(s, t, i, j);
    assert TrimmedAt(t, t, 0, |t|);
    TrimIs(t, t);
  }

  lemma TrimEmptyIffSpace(s: string)
    ensures Trim(s) == "" <==> AllSpace(s)
  {
    TrimIsTrimmed(s);
    if AllSpace(s) {
      assert s[0..] == s;
      assert TrimmedAt(s, "", 0, 0);
      TrimIs(s, "");
    }
    if Trim(s) == "" {
      var i: nat, j: nat :| TrimmedAt(s, "", i, j);
      assert s == s[..i] + s[j..];
    }
  }

  // The library functions.

  method StrLen(a: array<char>) returns (n: nat)
    requires Terminated(a[..])
    ensures n == |CString(a[..])| < a.Length && CString(a[..]) == a[..n] && a[n] == NUL
  {
    n := 0;
    while a[n] != NUL
      invariant n < a.Length && NUL !in a[..n]
      decreases a.Length - n
    {
      n := n + 1;
      assert a[..n] == a[..n - 1] + [a[n - 1]];
      assert NUL !in a[..n];
      assert a[..a.Length] == a[..];
    }
    CStringIs(a[..], n);
  }

  /** `strcpy(output, input + at)`. */
  method StrCpy(output: array<char>, input: array<char>, at: nat)
    requires output != input && at < input.Length && Terminated(input[at..])
    requires |CString(input[at..])| < output.Length
    modifies output
    ensures Terminated(output[..]) && CString(output[..]) == CString(input[at..])
  {
    ghost var s := CString(input[at..]);
    var i := 0;
    while input[at + i] != NUL
      invariant i <= |s| && output[..i] == s[..i]
      invariant forall k | 0 <= k < |s| :: input[at + k] == s[k]
      decreases |s| - i
    {
      output[i] := input[at + i];
      i := i + 1;
    }
    output[i] := NUL;
    assert s[..i] == s;
    CStringIs(output[..], i);
  }

  /** `strchr`: the position of the first `c`, or none. */
  method StrChr(a: array<char>, c: char) returns (p: int)
    requires Terminated(a[..]) && c != NUL
    ensures p == -1 <==> c !in CString(a[..])
    ensures p != -1 ==> 0 <= p == Span(CString(a[..]), {c}) < |CString(a[..])|
  {
    var n := StrLen(a);
    ghost var s := CString(a[..]);
    p := 0;
    while p < n
      invariant 0 <= p <= n && c !in s[..p]
    {
      if a[p] == c {
        SpanUnique(s, {c}, p);
        return;
      }
      p := p + 1;
      assert s[..p] == s[..p - 1] + [s[p - 1]];
    }
    assert s[..n] == s;
    return -1;
  }

  /** `strcmp` with a string, for equality. */
  method StrEq(a: array<char>, t: string) returns (same: bool)
    requires Terminated(a[..]) && NUL !in t
    ensures same <==> CString(a[..]) == t
  {
    var n := StrLen(a);
    ghost var s := CString(a[..]);
    var i := 0;
    while i < n && i < |t| && a[i] == t[i]
      invariant i <= n && i <= |t| && s[..i] == t[..i]
    {
      i := i + 1;
    }
    same := i == n && i == |t|;
    assert i == n ==> s[..i] == s;
    assert i == |t| ==> t[..i] == t;
  }

  /** `strncmp` with the whole of a string: whether the array starts with it. */
  method StartsWith(a: array<char>, t: string) returns (yes: bool)
    requires Terminated(a[..]) && NUL !in t
    ensures yes <==> t <= CString(a[..])
  {
    var n := StrLen(a);
    ghost var s := CString(a[..]);
    var i := 0;
    while i < |t| && i < n && a[i] == t[i]
      invariant i <= n && i <= |t| && s[..i] == t[..i]
    {
      i := i + 1;
    }
    yes := i == |t|;
    assert yes ==> t[..i] == t;
  }

  /** `sscanf(input + at, "%[...]", output)`: the characters outside `stop`; with none, nothing is stored. */
  method ScanSet(output: array<char>, input: array<char>, at: nat, stop: set<char>)
    requires output != input && at < input.Length && Terminated(input[at..])
    requires Span(CString(input[at..]), stop) < output.Length
    modifies output
    ensures var s := CString(input[at..]);
            var n := Span(s, stop);
            if n == 0 then output[..] == old(output[..]) else Terminated(output[..]) && CString(output[..]) == s[..n]
  {
    ghost var s := CString(input[at..]);
    var i := 0;
    while input[at + i] != NUL && input[at + i] !in stop
      invariant i <= |s| && i <= Span(s, stop) && output[..i] == s[..i]
      invariant forall k | 0 <= k < |s| :: input[at + k] == s[k]
      invariant i == 0 ==> output[..] == old(output[..])
      decreases |s| - i
    {
      output[i] := input[at + i];
      i := i + 1;
    }
    assert i == Span(s, stop);
    if i > 0 {
      output[i] := NUL;
      CStringIs(output[..], i);
    }
  }

  // The trimming functions.

  lemma DropFirstSpace(s: string, n: nat)
    requires n <= |s|
    ensures TrimLeft(s[n..]) == if n < |s| && IsSpace(s[n]) then TrimLeft(s[n + 1..]) else s[n..]
  {
    assert n < |s| ==> s[n..][1..] == s[n + 1..];
  }

  method LeftSpaceRemove(output: array<char>, input: array<char>)
    requires output != input && Terminated(input[..])
    requires |TrimLeft(CString(input[..]))| < output.Length
    modifies output
    ensures Terminated(output[..]) && CString(output[..]) == TrimLeft(CString(input[..]))
  {
    ghost var s := CString(input[..]);
    assert input[|s|] == NUL && s == input[..|s|] && s[0..] == s;
    hide CString, TrimLeft;
    var p := 0;
    while input[p] != NUL && IsSpace(input[p])
      invariant p <= |s| && TrimLeft(s) == TrimLeft(s[p..])
      invariant forall k | 0 <= k < |s| :: s[k] == input[k]
      decreases |s| - p
    {
      DropFirstSpace(s, p);
      p := p + 1;
    }
    DropFirstSpace(s, p);
    SuffixString(input[..], p);
    StrCpy(output, input, p);
  }

  lemma SuffixString(a: seq<char>, p: nat)
    requires Terminated(a) && p <= |CString(a)|
    ensures Terminated(a[p..]) && CString(a[p..]) == CString(a)[p..]
  {
    var n := |CString(a)|;
    assert a[n] == NUL && a[p..][n - p] == NUL;
    assert a[p..][..n - p] == a[..n][p..];
    CStringIs(a[p..], n - p);
  }

  lemma DropLastSpace(s: string, n: nat)
    requires n <= |s|
    ensures TrimRight(s[..n]) == if n > 0 && IsSpace(s[n - 1]) then TrimRight(s[..n - 1]) else s[..n]
  {
    assert n > 0 ==> s[..n][..n - 1] == s[..n - 1];
  }

  /** Cuts the string off after its last non-space character: the loop of the two functions below. */
  method CutSpace(output: array<char>)
    requires Terminated(output[..])
    modifies output
    ensures Terminated(output[..]) && CString(output[..]) == TrimRight(old(CString(output[..])))
  {
    var n := StrLen(output);
    ghost var s := CString(output[..]);
    hide CString, TrimRight;
    var p := n as int - 1;
    assert s[..p + 1] == s;
    while p >= 0 && IsSpace(output[p])
      invariant -1 <= p < n && TrimRight(s) == TrimRight(s[..p + 1])
      invariant forall k | 0 <= k < n :: s[k] == output[k]
    {
      DropLastSpace(s, p + 1);
      assert s[..p + 1 - 1] == s[..p - 1 + 1];
      p := p - 1;
    }
    DropLastSpace(s, p + 1);
    p := p + 1;
    assert output[..p] == s[..p];
    output[p] := NUL;
    CStringIs(output[..], p);
  }

  method RightSpaceRemove(output: array<char>, input: array<char>)
    requires output != input && Terminated(input[..]) && |CString(input[..])| < output.Length
    modifies output
    ensures Terminated(output[..]) && CString(output[..]) == TrimRight(CString(input[..]))
  {
    assert input[0..] == input[..];
    StrCpy(output, input, 0);
    CutSpace(output);
  }

  method AllSidesSpaceRemove(output: array<char>, input: array<char>)
    requires output != input && Terminated(input[..])
    requires |TrimLeft(CString(input[..]))| < output.Length
    modifies output
    ensures Terminated(output[..]) && CString(output[..]) == Trim(CString(input[..]))
  {
    LeftSpaceRemove(output, input);
    CutSpace(output);
  }
}
