/** The incremental engine: `MD5_CTX`, `MD5Init`, `MD5Update` and `MD5Final`. */
module Context {
  import opened Codec
  import opened Rounds
  import opened Transformation
  import opened Digest

  const WRAP: nat := 0x1_0000_0000

  /** An `unsigned int` used as a number; arithmetic on it is reduced modulo `WRAP` where C does so. */
  type uint32 = n: nat | n < WRAP

  /** Where the bit count says the next byte goes: (count >> 3) & 0x3F. */
  function Index(lo: uint32): (i: nat)
    ensures i < 64
  {
    lo / 8 % 64
  }

  /** Whether `i + 64 <= n` in 32-bit arithmetic, as the block loop of `MD5Update` tests it. */
  predicate LoopGuard(i: uint32, n: uint32) {
    (i + 64) % WRAP <= n
  }

  /** Whether a chunk is short enough for the 32-bit test of the block loop, from buffer position `index`. */
  predicate ChunkFits(index: nat, n: nat) {
    n + (if index == 0 then 64 else index) < WRAP
  }

  /** Every buffer position takes a chunk of `n` bytes exactly when `n` is at most 2^32 - 65; an empty buffer
      does not take 2^32 - 64. */
  lemma ChunkFitsAnywhere(n: uint32)
    ensures !ChunkFits(0, 0xFFFF_FFC0)
    ensures (forall index: nat | index < 64 :: ChunkFits(index, n)) <==> n <= 0xFFFF_FFBF
  {
    assert ChunkFits(0, n) <==> n <= 0xFFFF_FFBF;
  }

  lemma IndexOfBits(lo: uint32, hi: uint32)
    ensures (lo + WRAP * hi) / 8 % 64 == Index(lo)
    ensures lo + WRAP * hi < COUNT_LIMIT
  {
    assert (lo + WRAP * hi) / 8 == lo / 8 + 64 * (0x80_0000 * hi);
  }

  /** The split count after adding `n` bytes: the carry test is exact and the two shifts lose nothing. */
  lemma CountAdvances(lo: uint32, hi: uint32, n: uint32)
    ensures var shifted := n * 8 % WRAP;
            var lo' := (lo + shifted) % WRAP;
            var hi' := ((if lo' < shifted then (hi + 1) % WRAP else hi) + n / 0x2000_0000) % WRAP;
            lo' + WRAP * hi' == (lo + WRAP * hi + 8 * n) % COUNT_LIMIT
  {
    var shifted := n * 8 % WRAP;
    var lo' := (lo + shifted) % WRAP;
    var top := n / 0x2000_0000;
    assert 8 * n == shifted + WRAP * top;
    var carry := if lo' < shifted then 1 else 0;
    assert lo + shifted == lo' + WRAP * carry;
    var high := hi + carry + top;
    assert lo + WRAP * hi + 8 * n == lo' + WRAP * high;
    SplitWraps(lo', high);
  }

  lemma SplitWraps(lo: uint32, high: nat)
    ensures (lo + WRAP * high) % COUNT_LIMIT == lo + WRAP * (high % WRAP)
  {
    assert lo + WRAP * high == COUNT_LIMIT * (high / WRAP) + (lo + WRAP * (high % WRAP));
  }

  /** While a block is left the 32-bit test is right; past the last one it goes wrong exactly when the chunk
      is too long. */
  lemma LoopGuardExact(index: nat, n: uint32, i: uint32)
    requires index < 64 && (index + i) % 64 == 0 && i <= n
    ensures i + 64 <= n ==> LoopGuard(i, n) && (i + 64) % WRAP == i + 64 && (index + (i + 64)) % 64 == 0
    ensures i + 64 > n ==> (LoopGuard(i, n) <==> !ChunkFits(index, n)) && index + i == Whole(index + n)
  {
  }

  method Copy(dst: array<byte>, to: nat, src: array<byte>, at: nat, n: nat)
    requires dst != src && to + n <= dst.Length && at + n <= src.Length
    modifies dst
    ensures dst[..] == old(dst[..to]) + src[at..at + n] + old(dst[to + n..])
  {
    forall k | 0 <= k < n {
      dst[to + k] := src[at + k];
    }
  }

  class Md5Context {
    const count: array<uint32>
    const state: array<word>
    const buffer: array<byte>

    ghost predicate Valid() {
      count.Length == 2 && state.Length == 4 && buffer.Length == 64
    }

    ghost function Repr(): set<object> {
      {count as object, state as object, buffer as object}
    }

    /** The count, the chaining variables and the live part of the buffer. */
    ghost function Contents(): (v: View)
      requires Valid()
      reads count, state, buffer
      ensures Consistent(v)
    {
      IndexOfBits(count[0], count[1]);
      View(count[0] + WRAP * count[1], RegsOf(state[..]), buffer[..Index(count[0])])
    }

    constructor ()
      ensures Valid() && fresh(Repr())
    {
      count := new uint32[2];
      state := new word[4];
      buffer := new byte[64];
    }

    method Init()
      requires Valid()
      modifies count, state
      ensures Contents() == START
      ensures count[..] == [0, 0]
      ensures state[..] == [0x67452301, 0xEFCDAB89, 0x98BADCFE, 0x10325476]
    {
      count[0] := 0;
      count[1] := 0;
      state[0] := 0x67452301;
      state[1] := 0xEFCDAB89;
      state[2] := 0x98BADCFE;
      state[3] := 0x10325476;
    }

    /** The counter part of `MD5Update`: 8 times `inputlen` is added to the split 64-bit count. */
    method CountBytes(inputlen: uint32)
      requires Valid()
      modifies count
      ensures count[0] + WRAP * count[1] == (old(count[0] + WRAP * count[1]) + 8 * inputlen) % COUNT_LIMIT
    {
      CountAdvances(count[0], count[1], inputlen);
      count[0] := (count[0] + inputlen * 8 % WRAP) % WRAP;
      if count[0] < inputlen * 8 % WRAP {
        count[1] := (count[1] + 1) % WRAP;
      }
      count[1] := (count[1] + inputlen / 0x2000_0000) % WRAP;
    }

    /** The block loop of `MD5Update`, for input that fills the buffer: how far the input was consumed,
        or false if the loop would read past it. */
    method TransformBlocks(input: array<byte>, inputlen: uint32, index: nat) returns (ok: bool, i: uint32)
      requires Valid() && inputlen <= input.Length && input !in Repr()
      requires index < 64 && 64 - index <= inputlen
      modifies state, buffer
      ensures ok <==> ChunkFits(index, inputlen)
      ensures ok ==> i <= inputlen
      ensures ok ==> Absorb(old(View(0, RegsOf(state[..]), buffer[..index])), old(input[..inputlen]))
                     == View(8 * inputlen % COUNT_LIMIT, RegsOf(state[..]), input[i..inputlen])
    {
      hide Fold, Compress, RegsOf, Whole, ChunkFits, LoopGuard, Absorb;
      ghost var v, m := View(0, RegsOf(state[..]), buffer[..index]), input[..inputlen];
      ghost var data := v.pending + m;
      Copy(buffer, index, input, 0, 64 - index);
      assert buffer[0..64] == data[..64];
      FirstBlock(v.regs, data);
      Transform(state, buffer, 0);
      i := 64 - index;
      while LoopGuard(i, inputlen)
        invariant 64 - index <= i <= inputlen && (index + i) % 64 == 0
        invariant RegsOf(state[..]) == Fold(v.regs, data[..index + i])
        invariant input[..inputlen] == m
        decreases inputlen - i
      {
        LoopGuardExact(index, inputlen, i);
        if i + 64 > inputlen {
          return false, i;
        }
        NextBlock(v.regs, data, index + i);
        assert input[i..i + 64] == m[i..i + 64] == data[index + i..index + i + 64];
        Transform(state, input, i);
        i := (i + 64) % WRAP;
      }
      LoopGuardExact(index, inputlen, i);
      AbsorbWithBlocks(v, m, i);
      assert input[i..inputlen] == m[i..];
      return true, i;
    }

    /** The rest of `MD5Update`: whole blocks go into the chaining variables, and what is left into the buffer. */
    method FillBuffer(input: array<byte>, inputlen: uint32, index: nat) returns (ok: bool)
      requires Valid() && inputlen <= input.Length && input !in Repr() && index < 64
      modifies state, buffer
      ensures ok <==> ChunkFits(index, inputlen)
      ensures ok ==> (var v := Absorb(old(View(0, RegsOf(state[..]), buffer[..index])), old(input[..inputlen]));
                      RegsOf(state[..]) == v.regs && |v.pending| < 64 && buffer[..|v.pending|] == v.pending)
    {
      ghost var v, m := View(0, RegsOf(state[..]), buffer[..index]), input[..inputlen];
      assert inputlen < 64 - index ==> ChunkFits(index, inputlen);
      PendingIsShort(v, m);
      hide Fold, RegsOf, Absorb, Whole, ChunkFits;
      if inputlen >= 64 - index {
        var i;
        ok, i := TransformBlocks(input, inputlen, index);
        if ok {
          Copy(buffer, 0, input, i, inputlen - i);
          assert buffer[..inputlen - i] == input[i..inputlen];
        }
      } else {
        AbsorbWithoutBlock(v, m);
        Copy(buffer, index, input, 0, inputlen);
        assert buffer[..index + inputlen] == v.pending + m;
        ok := true;
      }
    }

    /** `MD5Update`. The result is false when the block loop would read past the input. */
    method Update(input: array<byte>, inputlen: uint32) returns (ok: bool)
      requires Valid() && inputlen <= input.Length && input !in Repr()
      modifies Repr()
      ensures ok <==> ChunkFits(|old(Contents()).pending|, inputlen)
      ensures ok ==> Contents() == Absorb(old(Contents()), old(input[..inputlen]))
    {
      ghost var v, m := Contents(), input[..inputlen];
      ghost var w := Absorb(v, m);
      AbsorbKeepsConsistent(v, m);
      AbsorbApartFromCount(v, m);
      hide Fold, RegsOf, Whole, Absorb, ChunkFits;
      var index := Index(count[0]);
      CountBytes(inputlen);
      assert input[..inputlen] == m && View(0, RegsOf(state[..]), buffer[..index]) == v.(bits := 0);
      IndexOfBits(count[0], count[1]);
      assert Index(count[0]) == |w.pending|;
      ok := FillBuffer(input, inputlen, index);
    }

    /** `MD5Final`: pads, appends the count from before the padding, and puts out the chaining variables. */
    method Final(digest: array<byte>)
      requires Valid() && digest.Length == 16 && digest !in Repr()
      modifies Repr(), digest
      ensures Contents() == Finish(old(Contents()))
      ensures digest[..] == Output(Contents().regs)
    {
      hide Fold, Absorb, LengthBytes, EncodeWords, Output, Padding, PadLength, RegsOf;
      ghost var v := Contents();
      var padding := new byte[64](k => if k == 0 then 0x80 else 0);
      var index := Index(count[0]);
      var padlen := if index < 56 then 56 - index else 120 - index;
      PadLengthOfIndex(index);
      PaddingPrefix(padding[..], padlen);
      var bits := EncodeCount();
      var _ := Update(padding, padlen);
      assert bits[..8] == LengthBytes(v.bits);
      var _ := Update(bits, 8);
      Encode(digest, state, 16);
      OutputOfState(state[..]);
      assert state[..4] == state[..];
    }

    /** The eight bytes of the count: `MD5Encode(bits, context->count, 8)`. */
    method EncodeCount() returns (bits: array<byte>)
      requires Valid()
      ensures fresh(bits) && bits.Length == 8
      ensures bits[..] == LengthBytes(Contents().bits)
    {
      hide Fold, EncodeWords, WordOf, LittleEndianBytes, RegsOf;
      bits := new byte[8];
      var words := new word[2];
      words[0] := WordOf(count[0]);
      words[1] := WordOf(count[1]);
      Encode(bits, words, 8);
      EncodeCounter(count[0], count[1]);
      assert words[..2] == [WordOf(count[0]), WordOf(count[1])];
    }
  }

  lemma AbsorbApartFromCount(v: View, m: seq<byte>)
    ensures Absorb(v, m) == Absorb(v.(bits := 0), m).(bits := (v.bits + 8 * |m|) % COUNT_LIMIT)
  {
    hide Fold, Whole;
  }

  lemma PendingIsShort(v: View, m: seq<byte>)
    ensures |Absorb(v, m).pending| < 64
  {
    hide Fold, Whole;
  }

  lemma AbsorbWithoutBlock(v: View, m: seq<byte>)
    requires |v.pending| + |m| < 64
    ensures Absorb(v, m) == View((v.bits + 8 * |m|) % COUNT_LIMIT, v.regs, v.pending + m)
  {
    hide Compress;
    var data := v.pending + m;
    assert Whole(|data|) == 0 && data[..0] == [] && data[0..] == data;
  }

  lemma AbsorbWithBlocks(v: View, m: seq<byte>, i: nat)
    requires i <= |m| && |v.pending| + i == Whole(|v.pending| + |m|)
    ensures Absorb(v, m)
         == View((v.bits + 8 * |m|) % COUNT_LIMIT, Fold(v.regs, (v.pending + m)[..|v.pending| + i]), m[i..])
  {
    hide Fold, Whole;
    assert (v.pending + m)[|v.pending| + i..] == m[i..];
  }

  lemma PadLengthOfIndex(index: nat)
    requires index < 64
    ensures PadLength(index) == if index < 56 then 56 - index else 120 - index
  {
  }

  lemma OutputOfState(ws: seq<word>)
    requires |ws| == 4
    ensures EncodeWords(ws) == Output(RegsOf(ws))
  {
    hide EncodeWords;
    assert ws == Words(RegsOf(ws));
  }

  lemma PaddingPrefix(block: seq<byte>, n: nat)
    requires |block| == 64 && block[0] == 0x80 && (forall k | 0 < k < 64 :: block[k] == 0)
    requires 0 < n <= 64
    ensures block[..n] == Padding(n)
  {
  }

  lemma FirstBlock(r: Regs, data: seq<byte>)
    requires |data| >= 64
    ensures Fold(r, data[..64]) == Compress(r, data[..64])
  {
    hide Compress;
    FoldOneMore(r, [], data[..64]);
    assert [] + data[..64] == data[..64];
  }

  lemma NextBlock(r: Regs, data: seq<byte>, n: nat)
    requires n % 64 == 0 && n + 64 <= |data|
    ensures Fold(r, data[..n + 64]) == Compress(Fold(r, data[..n]), data[n..n + 64])
  {
    hide Compress;
    FoldOneMore(r, data[..n], data[n..n + 64]);
    assert data[..n] + data[n..n + 64] == data[..n + 64];
  }
}
