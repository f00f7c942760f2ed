/** MD5 of a whole message (RFC 1321, section 3), and the value that a context which
    receives the message in pieces must hold. */
module Digest {
  import opened Codec
  import opened Rounds

  /** The 64-bit count wraps at this value (section 3.2). */
  const COUNT_LIMIT: nat := 0x1_0000_0000_0000_0000

  /** The chaining variables of section 3.3. */
  const INITIAL := Regs(0x67452301, 0xEFCDAB89, 0x98BADCFE, 0x10325476)

  /** The sixteen bytes of the chaining variables that section 3.3 lists, low-order byte first. */
  lemma InitialBytes()
    ensures EncodeWords(Words(INITIAL))
         == [0x01, 0x23, 0x45, 0x67, 0x89, 0xab, 0xcd, 0xef, 0xfe, 0xdc, 0xba, 0x98, 0x76, 0x54, 0x32, 0x10]
  {
    EncodeFour(0x67452301, 0xEFCDAB89, 0x98BADCFE, 0x10325476);
  }

  lemma EncodeFour(a: word, b: word, c: word, d: word)
    ensures EncodeWords([a, b, c, d]) == EncodeWord(a) + EncodeWord(b) + EncodeWord(c) + EncodeWord(d)
  {
    hide EncodeWord;
    assert [a, b, c, d][1..] == [b, c, d] && [b, c, d][1..] == [c, d];
    EncodeTwo(c, d);
  }

  /** The compression function applied to each 64-byte block in turn. */
  function Fold(s: Regs, bs: seq<byte>): Regs
    requires |bs| % 64 == 0
    decreases |bs|
  {
    if bs == [] then s else Fold(Compress(s, bs[..64]), bs[64..])
  }

  /** The length of the whole blocks in `n` bytes. */
  function Whole(n: nat): (w: nat)
    ensures w % 64 == 0 && w <= n < w + 64
  {
    n - n % 64
  }

  /** The least positive number of bytes that brings a length of `n` to 56 modulo 64 (section 3.1). */
  function PadLength(n: nat): (p: nat)
    ensures 0 < p <= 64 && (n + p) % 64 == 56
  {
    1 + (55 - n) % 64
  }

  lemma PadLengthIsLeast(n: nat, k: nat)
    requires 0 < k < PadLength(n)
    ensures (n + k) % 64 != 56
  {
  }

  lemma PadLengthOfTail(n: nat)
    ensures PadLength(n - Whole(n)) == PadLength(n)
  {
    var q := n / 64;
    assert (55 - n) % 64 == (55 - n + 64 * q) % 64;
  }

  /** A one bit, then zeros. */
  function Padding(n: nat): (bs: seq<byte>)
    requires n > 0
    ensures |bs| == n
  {
    [0x80] + seq(n - 1, _ => 0)
  }

  function LengthBytes(bits: nat): (bs: seq<byte>)
    ensures |bs| == 8
  {
    LittleEndianBytes(bits, 8)
  }

  function Pad(m: seq<byte>): (bs: seq<byte>)
    ensures |bs| == |m| + PadLength(|m|) + 8
  {
    m + Padding(PadLength(|m|)) + LengthBytes(8 * |m| % COUNT_LIMIT)
  }

  lemma PadFillsBlocks(m: seq<byte>)
    ensures |Pad(m)| % 64 == 0
  {
    hide Pad, PadLength;
  }

  /** The padded message in full: the message, a byte 128, zero bytes to 56 modulo 64, and eight bytes that hold
      the bit count modulo 2^64, low-order byte first. */
  lemma PadIs(m: seq<byte>)
    ensures var p := Pad(m);
            && |p| % 64 == 0 && |m| + 9 <= |p| < |m| + 9 + 64
            && p[..|m|] == m && ByteValue(p[|m|]) == 128
            && (forall i | |m| < i < |p| - 8 :: ByteValue(p[i]) == 0)
            && LittleEndian(p[|p| - 8..]) == 8 * |m| % 0x1_0000_0000_0000_0000
  {
    hide *;
    PadFillsBlocks(m);
    PadParts(m);
    PadMiddle(m);
    LengthValue(8 * |m|);
  }

  lemma LengthValue(bits: nat)
    ensures LittleEndian(LengthBytes(bits % COUNT_LIMIT)) == bits % COUNT_LIMIT == bits % 0x1_0000_0000_0000_0000
  {
    hide LittleEndian, LengthBytes;
    CountValue(bits % COUNT_LIMIT);
  }

  lemma CountValue(n: nat)
    requires n < COUNT_LIMIT
    ensures LittleEndian(LengthBytes(n)) == n
  {
    EightDigits();
    hide LittleEndian, LittleEndianBytes, Pow256, COUNT_LIMIT;
    LittleEndianBytesValue(n, 8);
    SmallRemainder(n, Pow256(8));
  }

  lemma SmallRemainder(n: nat, limit: nat)
    requires n < limit
    ensures n % limit == n
  {
  }

  lemma PadMiddle(m: seq<byte>)
    ensures var p := Pad(m);
            ByteValue(p[|m|]) == 128 && forall i | |m| < i < |p| - 8 :: ByteValue(p[i]) == 0
  {
    PadParts(m);
    PaddingValues(PadLength(|m|));
    hide *;
    var p, z := Pad(m), Padding(PadLength(|m|));
    assert forall i | |m| <= i < |p| - 8 :: p[i] == p[|m|..|p| - 8][i - |m|];
  }

  lemma PadParts(m: seq<byte>)
    ensures var p := Pad(m);
            && p[..|m|] == m && p[|m|..|p| - 8] == Padding(PadLength(|m|))
            && p[|p| - 8..] == LengthBytes(8 * |m| % COUNT_LIMIT)
  {
    hide PadLength, Padding, LengthBytes;
  }

  lemma PaddingValues(n: nat)
    requires n > 0
    ensures ByteValue(Padding(n)[0]) == 128 && forall i | 0 < i < n :: ByteValue(Padding(n)[i]) == 0
  {
  }

  function Output(r: Regs): (bs: seq<byte>)
    ensures |bs| == 16
  {
    EncodeWords(Words(r))
  }

  /** The digest bytes are A, B, C and D in this order, each low-order byte first (section 3.5). */
  lemma OutputIsPositional(r: Regs, k: nat)
    requires k < 4
    ensures LittleEndian(Output(r)[4 * k..4 * k + 4]) == Value([r.a, r.b, r.c, r.d][k])
  {
    hide EncodeWords, DecodeWords, Value, LittleEndian;
    DecodeEncode(Words(r));
    DecodeIsPositional(Output(r), k);
  }

  /** The message digest. */
  function MD5(m: seq<byte>): (digest: seq<byte>)
    ensures |digest| == 16
  {
    PadFillsBlocks(m);
    Output(Fold(INITIAL, Pad(m)))
  }

  lemma {:induction false} FoldAppend(s: Regs, xs: seq<byte>, ys: seq<byte>)
    requires |xs| % 64 == 0 && |ys| % 64 == 0
    ensures Fold(s, xs + ys) == Fold(Fold(s, xs), ys)
    decreases |xs|
  {
    hide Compress;
    if xs == [] {
      assert xs + ys == ys;
    } else {
      assert (xs + ys)[..64] == xs[..64] && (xs + ys)[64..] == xs[64..] + ys;
      FoldAppend(Compress(s, xs[..64]), xs[64..], ys);
    }
  }

  lemma FoldOneMore(s: Regs, xs: seq<byte>, block: seq<byte>)
    requires |xs| % 64 == 0 && |block| == 64
    ensures Fold(s, xs + block) == Compress(Fold(s, xs), block)
  {
    hide Compress;
    FoldAppend(s, xs, block);
    assert block[..64] == block && block[64..] == [];
  }

  // Receiving the message in pieces.

  /** What a context stands for: the bits counted, the chaining variables, and the bytes short of a block. */
  datatype View = View(bits: nat, regs: Regs, pending: seq<byte>)

  predicate Consistent(v: View) {
    v.bits < COUNT_LIMIT && |v.pending| == v.bits / 8 % 64
  }

  const START := View(0, INITIAL, [])

  function Absorb(v: View, m: seq<byte>): View {
    var data := v.pending + m;
    var whole := Whole(|data|);
    View((v.bits + 8 * |m|) % COUNT_LIMIT, Fold(v.regs, data[..whole]), data[whole..])
  }

  function AbsorbAll(v: View, chunks: seq<seq<byte>>): View
    decreases |chunks|
  {
    if chunks == [] then v else AbsorbAll(Absorb(v, chunks[0]), chunks[1..])
  }

  function Concat(chunks: seq<seq<byte>>): seq<byte> {
    if chunks == [] then [] else chunks[0] + Concat(chunks[1..])
  }

  /** The two updates of `MD5Final`: the padding, then the count from before the padding. */
  function Finish(v: View): View {
    Absorb(Absorb(v, Padding(PadLength(|v.pending|))), LengthBytes(v.bits))
  }

  lemma AbsorbKeepsConsistent(v: View, m: seq<byte>)
    requires Consistent(v)
    ensures Consistent(Absorb(v, m))
  {
    hide Fold, Whole;
    WrapKeepsIndex(v.bits + 8 * |m|);
    IndexAdvances(v.bits, |m|);
  }

  lemma WrapKeepsIndex(total: nat)
    ensures total % COUNT_LIMIT / 8 % 64 == total / 8 % 64
  {
    var q, r := total / COUNT_LIMIT, total % COUNT_LIMIT;
    assert total == COUNT_LIMIT * q + r;
    assert total / 8 == 64 * (COUNT_LIMIT / 512 * q) + r / 8;
  }

  lemma IndexAdvances(bits: nat, n: nat)
    ensures var filled := bits / 8 % 64 + n;
            (bits + 8 * n) / 8 % 64 == filled - Whole(filled)
  {
    assert (bits + 8 * n) / 8 == bits / 8 + n;
  }

  lemma WholeOfSum(whole: nat, n: nat)
    requires whole % 64 == 0
    ensures Whole(whole + n) == whole + Whole(n)
  {
  }

  /** The blocks and the rest of `data`, followed by `y`. */
  lemma FoldSplit(s: Regs, data: seq<byte>, y: seq<byte>)
    ensures var whole, all := Whole(|data|), data + y;
            var rest := data[whole..] + y;
            && Fold(Fold(s, data[..whole]), rest[..Whole(|rest|)]) == Fold(s, all[..Whole(|all|)])
            && rest[Whole(|rest|)..] == all[Whole(|all|)..]
  {
    hide Fold, Whole;
    var whole := Whole(|data|);
    var rest := data[whole..] + y;
    var more := Whole(|rest|);
    WholeOfSum(whole, |rest|);
    assert (data + y)[..whole + more] == data[..whole] + rest[..more];
    assert (data + y)[whole + more..] == rest[more..];
    FoldAppend(s, data[..whole], rest[..more]);
  }

  lemma CountSplit(v: View, x: seq<byte>, y: seq<byte>)
    ensures Absorb(Absorb(v, x), y).bits == Absorb(v, x + y).bits
  {
    hide Fold, Whole;
    WrapTwice(v.bits, 8 * |x|, 8 * |y|);
  }

  /** From any context, two pieces leave it as their concatenation does. */
  lemma AbsorbSplit(v: View, x: seq<byte>, y: seq<byte>)
    ensures Absorb(Absorb(v, x), y) == Absorb(v, x + y)
  {
    CountSplit(v, x, y);
    hide Fold, Whole, COUNT_LIMIT;
    assert v.pending + (x + y) == v.pending + x + y;
    FoldSplit(v.regs, v.pending + x, y);
  }

  lemma WrapTwice(n: nat, x: nat, y: nat)
    ensures ((n + x) % COUNT_LIMIT + y) % COUNT_LIMIT == (n + (x + y)) % COUNT_LIMIT
  {
  }

  lemma AbsorbNothing(v: View)
    requires Consistent(v)
    ensures Absorb(v, []) == v
  {
    hide Compress;
    assert v.pending + [] == v.pending;
  }

  /** However the message is cut up, the context ends as if it had come in one piece. */
  lemma {:induction false} AbsorbAllIsAbsorb(v: View, chunks: seq<seq<byte>>)
    requires Consistent(v)
    ensures AbsorbAll(v, chunks) == Absorb(v, Concat(chunks))
    decreases |chunks|
  {
    hide Absorb;
    if chunks == [] {
      AbsorbNothing(v);
    } else {
      AbsorbKeepsConsistent(v, chunks[0]);
      AbsorbAllIsAbsorb(Absorb(v, chunks[0]), chunks[1..]);
      AbsorbSplit(v, chunks[0], Concat(chunks[1..]));
    }
  }

  /** Every reachable context: the count, the folded whole blocks, and the tail, of what was absorbed. */
  lemma Reachable(chunks: seq<seq<byte>>)
    ensures var m := Concat(chunks);
            var whole := Whole(|m|);
            AbsorbAll(START, chunks) == View(8 * |m| % COUNT_LIMIT, Fold(INITIAL, m[..whole]), m[whole..])
  {
    hide Fold;
    AbsorbAllIsAbsorb(START, chunks);
    assert [] + Concat(chunks) == Concat(chunks);
  }

  lemma ReachableConsistent(chunks: seq<seq<byte>>)
    ensures Consistent(AbsorbAll(START, chunks))
  {
    hide Fold, Absorb, AbsorbAll;
    AbsorbAllIsAbsorb(START, chunks);
    AbsorbKeepsConsistent(START, Concat(chunks));
  }

  /** `MD5Final` empties the buffer, after one block if there is room for the length and two otherwise. */
  lemma FinishDrains(v: View)
    requires Consistent(v)
    ensures var tail := v.pending + Padding(PadLength(|v.pending|)) + LengthBytes(v.bits);
            |tail| == (if |v.pending| < 56 then 64 else 128)
            && Finish(v).pending == [] && Finish(v).regs == Fold(v.regs, tail)
  {
    hide Fold, Padding, LengthBytes;
    var p, l := Padding(PadLength(|v.pending|)), LengthBytes(v.bits);
    AbsorbSplit(v, p, l);
    var tail := v.pending + p + l;
    assert v.pending + (p + l) == tail;
    assert tail[..|tail|] == tail;
  }

  /** Any sequence of updates and a final call give the digest of the concatenated message. */
  lemma StreamedDigest(chunks: seq<seq<byte>>)
    ensures Output(Finish(AbsorbAll(START, chunks)).regs) == MD5(Concat(chunks))
  {
    hide Fold, Padding, LengthBytes, Absorb, AbsorbAll, Finish, Output, PadLength, Whole;
    var m, v := Concat(chunks), AbsorbAll(START, chunks);
    var whole := Whole(|m|);
    Reachable(chunks);
    ReachableConsistent(chunks);
    FinishDrains(v);
    var tail := v.pending + Padding(PadLength(|v.pending|)) + LengthBytes(v.bits);
    FoldAppend(INITIAL, m[..whole], tail);
    PadLengthOfTail(|m|);
    assert m[..whole] + tail == Pad(m);
  }

  // The padding can be taken off again.

  function Unpad(p: seq<byte>): seq<byte>
    requires |p| >= 64
  {
    var longest := |p| - 9;
    var n := longest - (longest - LittleEndian(p[|p| - 8..]) / 8) % (COUNT_LIMIT / 8);
    if 0 <= n then p[..n] else []
  }

  /** Decoding the padded form gives back the message, whatever its length. */
  lemma UnpadPad(m: seq<byte>)
    ensures |Pad(m)| >= 64 && Unpad(Pad(m)) == m
  {
    hide Pad, LittleEndian, LengthBytes, PadLength, COUNT_LIMIT;
    PadFillsBlocks(m);
    PadParts(m);
    LengthValue(8 * |m|);
    LengthFromBits(|m|, |Pad(m)| - 9);
  }

  lemma EightDigits()
    ensures Pow256(8) == COUNT_LIMIT
  {
    assert Pow256(4) == 0x1_0000_0000;
    assert Pow256(8) == 0x1_0000_0000 * Pow256(4);
  }

  /** A length is known from its bit count modulo 2^64 and a window of 64 lengths that holds it. */
  lemma LengthFromBits(n: nat, longest: nat)
    requires n <= longest < n + 64
    ensures longest - (longest - 8 * n % COUNT_LIMIT / 8) % (COUNT_LIMIT / 8) == n
  {
    var q := 8 * n / COUNT_LIMIT;
    assert 8 * n % COUNT_LIMIT / 8 == n - COUNT_LIMIT / 8 * q;
  }

  /** Messages of any lengths with the same padded form are the same. */
  lemma PadInjective(m: seq<byte>, m': seq<byte>)
    ensures Pad(m) == Pad(m') ==> m == m'
  {
    hide *;
    UnpadPad(m);
    UnpadPad(m');
  }
}
