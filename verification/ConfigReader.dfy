/** `conf_read`: the scan of the file, piece by piece, in character buffers. */
module ConfigReader {
  import opened Options
  import opened CStrings
  import opened Lookup

  /** `fgets(buffer, KEYVALLEN, file)` at offset `pos`; false at the end of the file. */
  method Fgets(file: string, pos: nat, buffer: array<char>) returns (got: bool, next: nat)
    requires pos <= |file| && buffer.Length == KEYVALLEN
    modifies buffer
    ensures got <==> pos < |file|
    ensures got ==> next == pos + PieceLength(file[pos..]) <= |file| && Terminated(buffer[..])
                    && CString(buffer[..]) == CString(file[pos..next])
    ensures got ==> 0 < next - pos <= 255 && (forall i | pos <= i < next - 1 :: file[i] != '\n')
                    && (next - pos == 255 || next == |file| || file[next - 1] == '\n')
    ensures !got ==> next == pos
  {
    if pos == |file| {
      return false, pos;
    }
    ghost var rest := file[pos..];
    var i := 0;
    while i < KEYVALLEN - 1 && pos + i < |file| && (i == 0 || file[pos + i - 1] != '\n')
      invariant i <= KEYVALLEN - 1 && pos + i <= |file|
      invariant buffer[..i] == rest[..i]
      invariant forall k | pos <= k < pos + i - 1 :: file[k] != '\n'
    {
      buffer[i] := file[pos + i];
      i := i + 1;
    }
    buffer[i] := NUL;
    assert forall k | 0 <= k < i - 1 :: rest[k] == file[pos + k];
    PieceLengthIs(rest, i);
    assert rest[..i] == file[pos..pos + i];
    TerminatorAdded(buffer[..], rest[..i]);
    return true, pos + i;
  }

  lemma PieceLengthIs(s: string, n: nat)
    requires 0 < n <= |s| && n < KEYVALLEN
    requires forall k | 0 <= k < n - 1 :: s[k] != '\n'
    requires s[n - 1] == '\n' || n == |s| || n == KEYVALLEN - 1
    ensures PieceLength(s) == n
  {
    if s[n - 1] == '\n' {
      SpanUnique(s, NEWLINE, n - 1);
    } else if n == |s| {
      SpanUnique(s, NEWLINE, n);
    }
  }

  /** A NUL in the data ends the string early; the one that `fgets` adds ends it otherwise. */
  lemma TerminatorAdded(a: seq<char>, s: string)
    requires |s| < |a| && a[..|s|] == s && a[|s|] == NUL
    ensures Terminated(a) && CString(a) == CString(s)
  {
    var n := Span(s, {NUL});
    assert forall i | 0 <= i < |s| :: a[i] == s[i];
    CStringIs(a, n);
  }

  /** Stores the text after `=`, then its trimmed form if there is one. */
  method StoreValue(keyVal: array<char>, line: array<char>, at: nat)
    requires keyVal != line && keyVal.Length >= KEYVALLEN && line.Length == KEYVALLEN
    requires Terminated(keyVal[..]) && at < line.Length && Terminated(line[at..])
    modifies keyVal
    ensures Terminated(keyVal[..])
    ensures CString(keyVal[..]) == Stored(CString(line[at..]), old(CString(keyVal[..])))
  {
    hide Trim, TrimLeft, CString, Span;
    ghost var before, text := CString(keyVal[..]), CString(line[at..]);
    ScanSet(keyVal, line, at, NEWLINE);
    ghost var raw := text[..Span(text, NEWLINE)];
    ghost var value := if raw == "" then before else raw;
    assert CString(keyVal[..]) == value;
    TrimShortens(value);
    var n := StrLen(keyVal);
    var trimmed := new char[n + 1];
    AllSidesSpaceRemove(trimmed, keyVal);
    var t := StrLen(trimmed);
    if t > 0 {
      assert trimmed[0..] == trimmed[..];
      StrCpy(keyVal, trimmed, 0);
    }
  }

  lemma TrimShortens(s: string)
    ensures |TrimLeft(s)| <= |s| && |Trim(s)| <= |s|
  {
  }

  lemma NextLine(file: string, pos: nat)
    requires pos < |file|
    ensures var next := pos + PieceLength(file[pos..]);
            Lines(file[pos..]) == [TrimLeft(CString(file[pos..next]))] + Lines(file[next..])
  {
    var n := PieceLength(file[pos..]);
    assert file[pos..][..n] == file[pos..pos + n] && file[pos..][n..] == file[pos + n..];
  }

  /** Lines 107 to 112: where the text after `=` starts if the line is an entry for the key, or -1. */
  method EntryFor(line: array<char>, key: string) returns (at: int)
    requires Terminated(line[..]) && NUL !in key && line.Length == KEYVALLEN
    requires var l := CString(line[..]); l != "" && !IsHeader(l) && l[0] != '#' && (IsEntry(l) ==> |KeyToken(l)| < 32)
    ensures at == -1 <==> !Matches(CString(line[..]), key)
    ensures at != -1 ==> 0 < at < line.Length && Terminated(line[at..])
                         && CString(line[at..]) == AfterEquals(CString(line[..]))
  {
    hide CString, Span;
    ghost var l := CString(line[..]);
    var c := StrChr(line, '=');
    if c == -1 {
      return -1;
    }
    var keyname := new char[32](_ => NUL);
    assert line[0..] == line[..];
    assert keyname[0] == NUL && Terminated(keyname[..]);
    ScanSet(keyname, line, 0, KEY_STOP);
    KeyScanned(keyname[..], l);
    var same := StrEq(keyname, key);
    if !same {
      return -1;
    }
    SuffixString(line[..], c + 1);
    assert line[..][c + 1..] == line[c + 1..];
    return c + 1;
  }

  lemma KeyScanned(a: seq<char>, l: string)
    requires Terminated(a)
    requires if Span(l, KEY_STOP) == 0 then a[0] == NUL else CString(a) == l[..Span(l, KEY_STOP)]
    ensures CString(a) == KeyToken(l)
  {
    if Span(l, KEY_STOP) == 0 {
      CStringIs(a, 0);
    }
  }

  lemma ScanEnd(app: string, key: string, inside: bool)
    ensures Scan(Lines(""), app, key, inside) == Missing
  {
  }

  /** The body of the loop, on a line without its leading space; `found` is 0 outside the section, 1 inside
      and 2 when the value has been stored. */
  method ScanLine(line: array<char>, appname: string, key: string, keyVal: array<char>, found: int)
    returns (next: int, stop: bool)
    requires keyVal != line && keyVal.Length >= KEYVALLEN && line.Length == KEYVALLEN
    requires Terminated(line[..]) && Terminated(keyVal[..]) && NUL !in appname && NUL !in key
    requires IsHeader(appname) && (found == 0 || found == 1)
    requires var l := CString(line[..]); found == 1 && IsEntry(l) ==> |KeyToken(l)| < 32
    modifies keyVal
    ensures var l := CString(line[..]);
            if found == 0 then next == (if appname <= l then 1 else 0) && !stop
            else if IsHeader(l) then next == 1 && stop
            else if Matches(l, key) then
              next == 2 && stop && Terminated(keyVal[..])
              && CString(keyVal[..]) == Stored(AfterEquals(l), old(CString(keyVal[..])))
            else next == 1 && !stop
    ensures next != 2 ==> keyVal[..] == old(keyVal[..])
  {
    hide CString, Span, Stored, KeyToken, AfterEquals;
    ghost var l := CString(line[..]);
    var len := StrLen(line);
    assert len > 0 ==> l[0] == line[0];
    next, stop := found, false;
    if len <= 0 {
      return;
    }
    if found == 0 {
      if line[0] != '[' {
        return;
      }
      var opens := StartsWith(line, appname);
      if opens {
        next := 1;
      }
    } else if line[0] == '#' {
    } else if line[0] == '[' {
      stop := true;
    } else {
      var at := EntryFor(line, key);
      if at != -1 {
        StoreValue(keyVal, line, at);
        next, stop := 2, true;
      }
    }
  }

  /** `conf_read`; `file` is the text of the file, or none if it cannot be opened. */
  method ConfRead(file: Option<string>, app: string, key: string, keyVal: array<char>) returns (code: int)
    requires NUL !in app && |app| <= 29 && NUL !in key
    requires keyVal.Length >= KEYVALLEN && Terminated(keyVal[..])
    requires file.Some? ==> KeysFit(Lines(file.value), app, key, false)
    modifies keyVal
    ensures code == 0 || code == -1
    ensures code == 0 <==> file.Some? && Find(file.value, app, key).Hit?
    ensures code == 0 ==> Terminated(keyVal[..])
                          && CString(keyVal[..]) == Stored(Find(file.value, app, key).text, old(CString(keyVal[..])))
    ensures code != 0 ==> keyVal[..] == old(keyVal[..])
  {
    hide Scan, KeysFit, Lines, CString, Span, TrimLeft, Stored, KeyToken, AfterEquals, PieceLength, Terminated, Matches;
    if file.None? {
      return -1;
    }
    var text := file.value;
    var bufI, bufO := new char[KEYVALLEN], new char[KEYVALLEN];
    var found, pos := 0, 0;
    assert text[0..] == text;
    while true
      invariant pos <= |text| && (found == 0 || found == 1)
      invariant keyVal[..] == old(keyVal[..])
      invariant Find(text, app, key) == Scan(Lines(text[pos..]), app, key, found == 1)
      invariant KeysFit(Lines(text[pos..]), app, key, found == 1)
      decreases |text| - pos
    {
      ghost var here := pos;
      var got, stop;
      got, pos := Fgets(text, pos, bufI);
      if !got {
        ScanEnd(app, key, found == 1);
        assert text[pos..] == "";
        break;
      }
      NextLine(text, here);
      LeftSpaceRemove(bufO, bufI);
      ScanStep(CString(bufO[..]), Lines(text[pos..]), app, key);
      found, stop := ScanLine(bufO, Header(app), key, keyVal, found);
      if stop {
        break;
      }
    }
    return if found == 2 then 0 else -1;
  }
}
