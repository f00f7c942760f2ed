/** Whole runs of the engine: `MD5Init`, any list of chunks for `MD5Update`, `MD5Final`. */
module Runs {
  import opened Options
  import opened Codec
  import opened Rounds
  import opened Digest
  import opened Context

  /** Whether each chunk in turn is short enough for `MD5Update`, after `n` bytes. */
  predicate AllFit(n: nat, chunks: seq<seq<byte>>)
    decreases |chunks|
  {
    chunks == [] || (ChunkFits(n % 64, |chunks[0]|) && AllFit(n + |chunks[0]|, chunks[1..]))
  }

  /** The number of bytes absorbed so far is where the next chunk starts in the buffer. */
  lemma AfterBytes(m: seq<byte>, chunk: seq<byte>)
    ensures |Absorb(START, m).pending| == |m| % 64
    ensures Absorb(Absorb(START, m), chunk) == Absorb(START, m + chunk)
  {
    hide Fold;
    AbsorbSplit(START, m, chunk);
  }

  lemma DigestOfBytes(m: seq<byte>)
    ensures Output(Finish(Absorb(START, m)).regs) == MD5(m)
  {
    hide Fold, Absorb, Output, Finish;
    StreamedDigest([m]);
    assert [m][1..] == [] && Concat([m]) == m + [] == m;
    assert AbsorbAll(Absorb(START, m), []) == Absorb(START, m);
  }

  lemma {:induction false} ConcatLast(chunks: seq<seq<byte>>, last: seq<byte>)
    ensures Concat(chunks + [last]) == Concat(chunks) + last
  {
    if chunks == [] {
      assert ([] + [last])[1..] == [];
    } else {
      assert (chunks + [last])[1..] == chunks[1..] + [last];
      ConcatLast(chunks[1..], last);
    }
  }

  lemma NextChunk(chunks: seq<seq<byte>>, i: nat)
    requires i < |chunks|
    ensures Concat(chunks[..i + 1]) == Concat(chunks[..i]) + chunks[i]
    ensures var n := |Concat(chunks[..i])|;
            AllFit(n, chunks[i..]) <==> ChunkFits(n % 64, |chunks[i]|) && AllFit(n + |chunks[i]|, chunks[i + 1..])
  {
    hide Concat, ChunkFits;
    assert chunks[..i + 1] == chunks[..i] + [chunks[i]] && chunks[i..][1..] == chunks[i + 1..];
    ConcatLast(chunks[..i], chunks[i]);
  }

  /** One call of `MD5Update` on the bytes of a chunk. */
  method Feed(context: Md5Context, chunk: seq<byte>) returns (ok: bool)
    requires context.Valid() && |chunk| < WRAP
    modifies context.Repr()
    ensures ok <==> ChunkFits(|old(context.Contents()).pending|, |chunk|)
    ensures ok ==> context.Contents() == Absorb(old(context.Contents()), chunk)
  {
    var input := new byte[|chunk|](i requires 0 <= i < |chunk| => chunk[i]);
    assert input[..|chunk|] == chunk;
    ok := context.Update(input, |chunk|);
  }

  /** `MD5Init`, `MD5Update` on each chunk, `MD5Final`. It fails just when some chunk does not fit. */
  method DigestOfChunks(chunks: seq<seq<byte>>) returns (result: Option<seq<byte>>)
    requires forall c | c in chunks :: |c| < WRAP
    ensures result == if AllFit(0, chunks) then Some(MD5(Concat(chunks))) else None
  {
    hide Fold, Absorb, Finish, Output, Concat, MD5, AllFit, ChunkFits;
    var context := new Md5Context();
    context.Init();
    var i := 0;
    assert chunks[0..] == chunks;
    StartOfRun(chunks);
    while i < |chunks|
      invariant i <= |chunks| && context.Valid() && fresh(context.Repr())
      invariant context.Contents() == Absorb(START, Concat(chunks[..i]))
      invariant AllFit(0, chunks) == AllFit(|Concat(chunks[..i])|, chunks[i..])
    {
      NextChunk(chunks, i);
      AfterBytes(Concat(chunks[..i]), chunks[i]);
      var ok := Feed(context, chunks[i]);
      if !ok {
        return None;
      }
      i := i + 1;
    }
    assert chunks[..i] == chunks && chunks[i..] == [];
    var digest := new byte[16];
    context.Final(digest);
    DigestOfBytes(Concat(chunks));
    return Some(digest[..]);
  }

  lemma StartOfRun(chunks: seq<seq<byte>>)
    ensures Concat(chunks[..0]) == [] && Absorb(START, []) == START
    ensures forall n: nat :: AllFit(n, [])
  {
    hide Fold, Absorb;
    AbsorbNothing(START);
  }
}
