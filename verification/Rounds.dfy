/** The 64 steps of RFC 1321, section 3.4, as one table-driven loop, and what can be undone in them. */
module Rounds {
  import opened Codec
  import opened Addition

  /** The four chaining variables A, B, C and D, or the four working registers. */
  datatype Regs = Regs(a: word, b: word, c: word, d: word)

  /** The registers a four-word array holds. */
  function RegsOf(ws: seq<word>): Regs
    requires |ws| == 4
  {
    Regs(ws[0], ws[1], ws[2], ws[3])
  }

  function Words(r: Regs): (ws: seq<word>)
    ensures |ws| == 4 && RegsOf(ws) == r
  {
    [r.a, r.b, r.c, r.d]
  }

  function F(x: word, y: word, z: word): word { (x & y) | (!x & z) }

  function G(x: word, y: word, z: word): word { (x & z) | (y & !z) }

  function H(x: word, y: word, z: word): word { x ^ y ^ z }

  function I(x: word, y: word, z: word): word { y ^ (x | !z) }

  function Minus(x: word, y: word): word { x - y }

  function Sum(a: word, m: word, w: word, t: word): word { a + m + w + t }

  function Difference(v: word, m: word, w: word, t: word): word { v - m - w - t }

  function RotateLeft(x: word, n: word): word
    requires 0 < n < 32
  {
    (x << n) | (x >> (32 - n))
  }

  function RotateRight(x: word, n: word): word
    requires 0 < n < 32
  {
    (x >> n) | (x << (32 - n))
  }

  // What the round functions compute, bit by bit.

  /** F takes the bits of `y` where `x` has ones, and those of `z` where it has zeros. */
  lemma FSelects(x: word, y: word, z: word)
    ensures F(x, y, z) & x == y & x
    ensures F(x, y, z) & !x == z & !x
  {
  }

  /** G takes the bits of `x` where `z` has ones, and those of `y` where it has zeros. */
  lemma GSelects(x: word, y: word, z: word)
    ensures G(x, y, z) & z == x & z
    ensures G(x, y, z) & !z == y & !z
  {
  }

  lemma HWritten(x: word, y: word, z: word, d: word)
    ensures H(x ^ d, y, z) == x ^ y ^ z ^ d
    ensures H(x, y ^ d, z) == x ^ y ^ z ^ d
    ensures H(x, y, z ^ d) == x ^ y ^ z ^ d
  {
  }

  lemma HFlipped(x: word, y: word, z: word, d: word)
    ensures H(x, y, z) ^ d == x ^ y ^ z ^ d
  {
  }

  /** H is the parity: flipping bits of any one argument flips just those bits of the result. */
  lemma HIsParity(x: word, y: word, z: word, d: word)
    ensures H(0, 0, 0) == 0
    ensures H(x ^ d, y, z) == H(x, y, z) ^ d
    ensures H(x, y ^ d, z) == H(x, y, z) ^ d
    ensures H(x, y, z ^ d) == H(x, y, z) ^ d
  {
    assert H(0, 0, 0) == 0;
    hide H;
    HWritten(x, y, z, d);
    HFlipped(x, y, z, d);
  }

  /** I is the exclusive or of `x` and `y` where `z` has ones, and the complement of `y` where it has zeros. */
  lemma ISelects(x: word, y: word, z: word)
    ensures I(x, y, z) & z == (x ^ y) & z
    ensures I(x, y, z) & !z == !y & !z
  {
  }

  // Rotating left by n moves bit k to bit (k + n) mod 32, for the amounts of each round.

  lemma RotationMovesBits1(x: word, k: word)
    requires k < 32
    ensures (RotateLeft(x, 7) >> ((k + 7) & 31)) & 1 == (x >> k) & 1
    ensures (RotateLeft(x, 12) >> ((k + 12) & 31)) & 1 == (x >> k) & 1
    ensures (RotateLeft(x, 17) >> ((k + 17) & 31)) & 1 == (x >> k) & 1
    ensures (RotateLeft(x, 22) >> ((k + 22) & 31)) & 1 == (x >> k) & 1
  {
  }

  lemma RotationMovesBits2(x: word, k: word)
    requires k < 32
    ensures (RotateLeft(x, 5) >> ((k + 5) & 31)) & 1 == (x >> k) & 1
    ensures (RotateLeft(x, 9) >> ((k + 9) & 31)) & 1 == (x >> k) & 1
    ensures (RotateLeft(x, 14) >> ((k + 14) & 31)) & 1 == (x >> k) & 1
    ensures (RotateLeft(x, 20) >> ((k + 20) & 31)) & 1 == (x >> k) & 1
  {
  }

  lemma RotationMovesBits3(x: word, k: word)
    requires k < 32
    ensures (RotateLeft(x, 4) >> ((k + 4) & 31)) & 1 == (x >> k) & 1
    ensures (RotateLeft(x, 11) >> ((k + 11) & 31)) & 1 == (x >> k) & 1
    ensures (RotateLeft(x, 16) >> ((k + 16) & 31)) & 1 == (x >> k) & 1
    ensures (RotateLeft(x, 23) >> ((k + 23) & 31)) & 1 == (x >> k) & 1
  {
  }

  lemma RotationMovesBits4(x: word, k: word)
    requires k < 32
    ensures (RotateLeft(x, 6) >> ((k + 6) & 31)) & 1 == (x >> k) & 1
    ensures (RotateLeft(x, 10) >> ((k + 10) & 31)) & 1 == (x >> k) & 1
    ensures (RotateLeft(x, 15) >> ((k + 15) & 31)) & 1 == (x >> k) & 1
    ensures (RotateLeft(x, 21) >> ((k + 21) & 31)) & 1 == (x >> k) & 1
  {
  }

  /** The table T of section 3.4, four entries to a row. */
  const TABLE: seq<seq<word>> := [
    [0xd76aa478, 0xe8c7b756, 0x242070db, 0xc1bdceee],
    [0xf57c0faf, 0x4787c62a, 0xa8304613, 0xfd469501],
    [0x698098d8, 0x8b44f7af, 0xffff5bb1, 0x895cd7be],
    [0x6b901122, 0xfd987193, 0xa679438e, 0x49b40821],
    [0xf61e2562, 0xc040b340, 0x265e5a51, 0xe9b6c7aa],
    [0xd62f105d, 0x02441453, 0xd8a1e681, 0xe7d3fbc8],
    [0x21e1cde6, 0xc33707d6, 0xf4d50d87, 0x455a14ed],
    [0xa9e3e905, 0xfcefa3f8, 0x676f02d9, 0x8d2a4c8a],
    [0xfffa3942, 0x8771f681, 0x6d9d6122, 0xfde5380c],
    [0xa4beea44, 0x4bdecfa9, 0xf6bb4b60, 0xbebfbc70],
    [0x289b7ec6, 0xeaa127fa, 0xd4ef3085, 0x04881d05],
    [0xd9d4d039, 0xe6db99e5, 0x1fa27cf8, 0xc4ac5665],
    [0xf4292244, 0x432aff97, 0xab9423a7, 0xfc93a039],
    [0x655b59c3, 0x8f0ccc92, 0xffeff47d, 0x85845dd1],
    [0x6fa87e4f, 0xfe2ce6e0, 0xa3014314, 0x4e0811a1],
    [0xf7537e82, 0xbd3af235, 0x2ad7d2bb, 0xeb86d391]
  ]

  /** The constant of step `i`, which RFC 1321 numbers T[i + 1]. */
  function T(i: nat): word
    requires i < 64
  {
    TABLE[i / 4][i % 4]
  }

  /** The rotation amounts, a row to a round. */
  const SHIFTS: seq<seq<word>> := [[7, 12, 17, 22], [5, 9, 14, 20], [4, 11, 16, 23], [6, 10, 15, 21]]

  function Shift(i: nat): (s: word)
    requires i < 64
    ensures 0 < s < 32 && Amount(s)
  {
    SHIFTS[i / 16][i % 4]
  }

  /** The message word that step `i` consumes. */
  function WordIndex(i: nat): (k: nat)
    requires i < 64
    ensures k < 16
  {
    match i / 16
    case 0 => i % 16
    case 1 => (1 + 5 * i) % 16
    case 2 => (5 + 3 * i) % 16
    case _ => 7 * i % 16
  }

  function Mix(i: nat, b: word, c: word, d: word): word
    requires i < 64
  {
    match i / 16
    case 0 => F(b, c, d)
    case 1 => G(b, c, d)
    case 2 => H(b, c, d)
    case _ => I(b, c, d)
  }

  /** The new value of a register: ((a + m + w + t) <<< s) + b, for the mixed value m, word w and constant t. */
  function Forward(a: word, b: word, m: word, w: word, t: word, s: word): word
    requires 0 < s < 32
  {
    Plus(RotateLeft(Sum(a, m, w, t), s), b)
  }

  /** Step `i`: a new value replaces A, and the registers move round by one place. */
  function Step(i: nat, r: Regs, x: seq<word>): Regs
    requires i < 64 && |x| == 16
  {
    Regs(r.d, Forward(r.a, r.b, Mix(i, r.b, r.c, r.d), x[WordIndex(i)], T(i), Shift(i)), r.b, r.c)
  }

  /** Steps `lo` to `hi - 1`. */
  function Run(r: Regs, x: seq<word>, lo: nat, hi: nat): Regs
    requires lo <= hi <= 64 && |x| == 16
  {
    if lo == hi then r else Step(hi - 1, Run(r, x, lo, hi - 1), x)
  }

  function FeedForward(s: Regs, r: Regs): Regs {
    Regs(Plus(s.a, r.a), Plus(s.b, r.b), Plus(s.c, r.c), Plus(s.d, r.d))
  }

  /** The compression function: the 64 steps on the decoded block, added to the chaining variables. */
  function Compress(s: Regs, block: seq<byte>): Regs
    requires |block| == 64
  {
    FeedForward(s, Run(s, DecodeWords(block), 0, 64))
  }

  lemma SumWritten(a: word, m: word, w: word, t: word)
    ensures Plus(a + m, w) == a + m + w && Plus(a + m + w, t) == Sum(a, m, w, t)
  {
  }

  lemma SumIsNested(a: word, m: word, w: word, t: word)
    ensures Sum(a, m, w, t) == Plus(Plus(Plus(a, m), w), t)
  {
    PlusIsSum(a, m);
    SumWritten(a, m, w, t);
    hide Plus, Sum;
  }

  lemma WrapOnce(a: nat, m: nat, w: nat, t: nat)
    ensures (((a + m) % 0x1_0000_0000 + w) % 0x1_0000_0000 + t) % 0x1_0000_0000 == (a + m + w + t) % 0x1_0000_0000
  {
  }

  lemma SumComputes(a: word, m: word, w: word, t: word)
    ensures Value(Sum(a, m, w, t)) == (Value(a) + Value(m) + Value(w) + Value(t)) % 0x1_0000_0000
  {
    SumIsNested(a, m, w, t);
    hide *;
    SumValue(a, m);
    SumValue(Plus(a, m), w);
    SumValue(Plus(Plus(a, m), w), t);
    WrapOnce(Value(a), Value(m), Value(w), Value(t));
  }

  /** The new value of a register as numbers: the four summands are added modulo 2^32, rotated, and b is added. */
  lemma ForwardComputes(a: word, b: word, m: word, w: word, t: word, s: word)
    requires 0 < s < 32
    ensures Value(Sum(a, m, w, t)) == (Value(a) + Value(m) + Value(w) + Value(t)) % 0x1_0000_0000
    ensures Value(Forward(a, b, m, w, t, s)) == (Value(RotateLeft(Sum(a, m, w, t), s)) + Value(b)) % 0x1_0000_0000
  {
    hide RotateLeft, Plus, Sum, Value;
    SumComputes(a, m, w, t);
    SumValue(RotateLeft(Sum(a, m, w, t), s), b);
  }

  lemma FedForward(s: Regs, r: Regs)
    ensures var c := FeedForward(s, r);
            && Value(c.a) == (Value(s.a) + Value(r.a)) % 0x1_0000_0000
            && Value(c.b) == (Value(s.b) + Value(r.b)) % 0x1_0000_0000
            && Value(c.c) == (Value(s.c) + Value(r.c)) % 0x1_0000_0000
            && Value(c.d) == (Value(s.d) + Value(r.d)) % 0x1_0000_0000
  {
    hide Plus, Value;
    SumValue(s.a, r.a);
    SumValue(s.b, r.b);
    SumValue(s.c, r.c);
    SumValue(s.d, r.d);
  }

  lemma CompressIsFedForward(ws: seq<word>, block: seq<byte>)
    requires |ws| == 4 && |block| == 64
    ensures RegsOf(ws) == Regs(ws[0], ws[1], ws[2], ws[3])
    ensures Compress(RegsOf(ws), block) == FeedForward(RegsOf(ws), Run(RegsOf(ws), DecodeWords(block), 0, 64))
  {
    hide Run, DecodeWords, FeedForward;
  }

  lemma WordsInOrder(r: Regs)
    ensures Words(r)[0] == r.a && Words(r)[1] == r.b && Words(r)[2] == r.c && Words(r)[3] == r.d
  {
  }

  /** The compression adds to each state word, modulo 2^32, the register that holds it after all 64 steps. */
  lemma CompressAdds(ws: seq<word>, block: seq<byte>)
    requires |ws| == 4 && |block| == 64
    ensures var r := Run(Regs(ws[0], ws[1], ws[2], ws[3]), DecodeWords(block), 0, 64);
            var out := Words(Compress(RegsOf(ws), block));
            && Value(out[0]) == (Value(ws[0]) + Value(r.a)) % 0x1_0000_0000
            && Value(out[1]) == (Value(ws[1]) + Value(r.b)) % 0x1_0000_0000
            && Value(out[2]) == (Value(ws[2]) + Value(r.c)) % 0x1_0000_0000
            && Value(out[3]) == (Value(ws[3]) + Value(r.d)) % 0x1_0000_0000
  {
    hide *;
    var s := Regs(ws[0], ws[1], ws[2], ws[3]);
    var r := Run(s, DecodeWords(block), 0, 64);
    CompressIsFedForward(ws, block);
    FedForward(s, r);
    WordsInOrder(FeedForward(s, r));
  }

  // Undoing the steps.

  function Backward(v: word, b: word, m: word, w: word, t: word, s: word): word
    requires 0 < s < 32
  {
    Difference(RotateRight(Minus(v, b), s), m, w, t)
  }

  /** The registers before step `i`, from those after it. */
  function Unstep(i: nat, r: Regs, x: seq<word>): Regs
    requires i < 64 && |x| == 16
  {
    Regs(Backward(r.b, r.c, Mix(i, r.c, r.d, r.a), x[WordIndex(i)], T(i), Shift(i)), r.c, r.d, r.a)
  }

  function Unrun(r: Regs, x: seq<word>, lo: nat, hi: nat): Regs
    requires lo <= hi <= 64 && |x| == 16
    decreases hi
  {
    hide Unstep;
    if lo == hi then r else Unrun(Unstep(hi - 1, r, x), x, lo, hi - 1)
  }

  /** The rotation amounts that occur. */
  predicate Amount(n: word) {
    n in {4, 5, 6, 7, 9, 10, 11, 12, 14, 15, 16, 17, 20, 21, 22, 23}
  }

  // Amount by amount, first with the inner rotation written out.

  lemma RightOfWrittenLeft(x: word)
    ensures RotateRight((x << 4) | (x >> 28), 4) == x
    ensures RotateRight((x << 5) | (x >> 27), 5) == x
    ensures RotateRight((x << 6) | (x >> 26), 6) == x
    ensures RotateRight((x << 7) | (x >> 25), 7) == x
    ensures RotateRight((x << 9) | (x >> 23), 9) == x
    ensures RotateRight((x << 10) | (x >> 22), 10) == x
    ensures RotateRight((x << 11) | (x >> 21), 11) == x
    ensures RotateRight((x << 12) | (x >> 20), 12) == x
    ensures RotateRight((x << 14) | (x >> 18), 14) == x
    ensures RotateRight((x << 15) | (x >> 17), 15) == x
    ensures RotateRight((x << 16) | (x >> 16), 16) == x
    ensures RotateRight((x << 17) | (x >> 15), 17) == x
    ensures RotateRight((x << 20) | (x >> 12), 20) == x
    ensures RotateRight((x << 21) | (x >> 11), 21) == x
    ensures RotateRight((x << 22) | (x >> 10), 22) == x
    ensures RotateRight((x << 23) | (x >> 9), 23) == x
  {
  }

  lemma LeftOfWrittenRight(x: word)
    ensures RotateLeft((x >> 4) | (x << 28), 4) == x
    ensures RotateLeft((x >> 5) | (x << 27), 5) == x
    ensures RotateLeft((x >> 6) | (x << 26), 6) == x
    ensures RotateLeft((x >> 7) | (x << 25), 7) == x
    ensures RotateLeft((x >> 9) | (x << 23), 9) == x
    ensures RotateLeft((x >> 10) | (x << 22), 10) == x
    ensures RotateLeft((x >> 11) | (x << 21), 11) == x
    ensures RotateLeft((x >> 12) | (x << 20), 12) == x
    ensures RotateLeft((x >> 14) | (x << 18), 14) == x
    ensures RotateLeft((x >> 15) | (x << 17), 15) == x
    ensures RotateLeft((x >> 16) | (x << 16), 16) == x
    ensures RotateLeft((x >> 17) | (x << 15), 17) == x
    ensures RotateLeft((x >> 20) | (x << 12), 20) == x
    ensures RotateLeft((x >> 21) | (x << 11), 21) == x
    ensures RotateLeft((x >> 22) | (x << 10), 22) == x
    ensures RotateLeft((x >> 23) | (x << 9), 23) == x
  {
  }

  lemma RightOfLeft(x: word)
    ensures RotateRight(RotateLeft(x, 4), 4) == x
    ensures RotateRight(RotateLeft(x, 5), 5) == x
    ensures RotateRight(RotateLeft(x, 6), 6) == x
    ensures RotateRight(RotateLeft(x, 7), 7) == x
    ensures RotateRight(RotateLeft(x, 9), 9) == x
    ensures RotateRight(RotateLeft(x, 10), 10) == x
    ensures RotateRight(RotateLeft(x, 11), 11) == x
    ensures RotateRight(RotateLeft(x, 12), 12) == x
    ensures RotateRight(RotateLeft(x, 14), 14) == x
    ensures RotateRight(RotateLeft(x, 15), 15) == x
    ensures RotateRight(RotateLeft(x, 16), 16) == x
    ensures RotateRight(RotateLeft(x, 17), 17) == x
    ensures RotateRight(RotateLeft(x, 20), 20) == x
    ensures RotateRight(RotateLeft(x, 21), 21) == x
    ensures RotateRight(RotateLeft(x, 22), 22) == x
    ensures RotateRight(RotateLeft(x, 23), 23) == x
  {
    hide RotateRight;
    RightOfWrittenLeft(x);
  }

  lemma LeftOfRight(x: word)
    ensures RotateLeft(RotateRight(x, 4), 4) == x
    ensures RotateLeft(RotateRight(x, 5), 5) == x
    ensures RotateLeft(RotateRight(x, 6), 6) == x
    ensures RotateLeft(RotateRight(x, 7), 7) == x
    ensures RotateLeft(RotateRight(x, 9), 9) == x
    ensures RotateLeft(RotateRight(x, 10), 10) == x
    ensures RotateLeft(RotateRight(x, 11), 11) == x
    ensures RotateLeft(RotateRight(x, 12), 12) == x
    ensures RotateLeft(RotateRight(x, 14), 14) == x
    ensures RotateLeft(RotateRight(x, 15), 15) == x
    ensures RotateLeft(RotateRight(x, 16), 16) == x
    ensures RotateLeft(RotateRight(x, 17), 17) == x
    ensures RotateLeft(RotateRight(x, 20), 20) == x
    ensures RotateLeft(RotateRight(x, 21), 21) == x
    ensures RotateLeft(RotateRight(x, 22), 22) == x
    ensures RotateLeft(RotateRight(x, 23), 23) == x
  {
    hide RotateLeft;
    LeftOfWrittenRight(x);
  }

  lemma RotationsCancel(x: word, n: word)
    requires Amount(n)
    ensures RotateRight(RotateLeft(x, n), n) == x
    ensures RotateLeft(RotateRight(x, n), n) == x
  {
    hide RotateLeft, RotateRight;
    RightOfLeft(x);
    LeftOfRight(x);
  }

  // Each pair of inverse sums is proved with one side unfolded at a time.

  lemma MinusOfSum(x: word, y: word)
    ensures Minus(x + y, y) == x
  {
  }

  lemma PlusOfDifference(x: word, y: word)
    ensures Plus(x - y, y) == x
  {
  }

  lemma DifferenceOfSum(a: word, m: word, w: word, t: word)
    ensures Difference(a + m + w + t, m, w, t) == a
  {
  }

  lemma SumOfDifference(v: word, m: word, w: word, t: word)
    ensures Sum(v - m - w - t, m, w, t) == v
  {
  }

  lemma SubtractionsUndoAdditions(x: word, y: word, m: word, w: word, t: word)
    ensures Minus(Plus(x, y), y) == x
    ensures Difference(Sum(x, m, w, t), m, w, t) == x
  {
    hide Minus, Difference;
    MinusOfSum(x, y);
    DifferenceOfSum(x, m, w, t);
  }

  lemma AdditionsUndoSubtractions(x: word, y: word, m: word, w: word, t: word)
    ensures Plus(Minus(x, y), y) == x
    ensures Sum(Difference(x, m, w, t), m, w, t) == x
  {
    hide Plus, Sum;
    PlusOfDifference(x, y);
    SumOfDifference(x, m, w, t);
  }

  lemma BackwardCancelsForward(a: word, b: word, m: word, w: word, t: word, s: word)
    requires Amount(s)
    ensures Backward(Forward(a, b, m, w, t, s), b, m, w, t, s) == a
  {
    hide RotateLeft, RotateRight, Plus, Minus, Sum, Difference;
    SubtractionsUndoAdditions(RotateLeft(Sum(a, m, w, t), s), b, 0, 0, 0);
    RotationsCancel(Sum(a, m, w, t), s);
    SubtractionsUndoAdditions(a, 0, m, w, t);
  }

  lemma ForwardCancelsBackward(v: word, b: word, m: word, w: word, t: word, s: word)
    requires Amount(s)
    ensures Forward(Backward(v, b, m, w, t, s), b, m, w, t, s) == v
  {
    hide RotateLeft, RotateRight, Plus, Minus, Sum, Difference;
    AdditionsUndoSubtractions(RotateRight(Minus(v, b), s), 0, m, w, t);
    RotationsCancel(Minus(v, b), s);
    AdditionsUndoSubtractions(v, b, 0, 0, 0);
  }

  lemma StepThenUnstep(i: nat, r: Regs, x: seq<word>)
    requires i < 64 && |x| == 16
    ensures Unstep(i, Step(i, r, x), x) == r
  {
    hide Forward, Backward, Mix, WordIndex, T, Shift;
    BackwardCancelsForward(r.a, r.b, Mix(i, r.b, r.c, r.d), x[WordIndex(i)], T(i), Shift(i));
  }

  lemma UnstepThenStep(i: nat, r: Regs, x: seq<word>)
    requires i < 64 && |x| == 16
    ensures Step(i, Unstep(i, r, x), x) == r
  {
    hide Forward, Backward, Mix, WordIndex, T, Shift;
    ForwardCancelsBackward(r.b, r.c, Mix(i, r.c, r.d, r.a), x[WordIndex(i)], T(i), Shift(i));
  }

  /** For a fixed block, the steps are a bijection on the registers, and `Unrun` is its inverse. */
  lemma {:induction false} RunThenUnrun(r: Regs, x: seq<word>, lo: nat, hi: nat)
    requires lo <= hi <= 64 && |x| == 16
    ensures Unrun(Run(r, x, lo, hi), x, lo, hi) == r
  {
    if lo < hi {
      hide Step, Unstep;
      StepThenUnstep(hi - 1, Run(r, x, lo, hi - 1), x);
      RunThenUnrun(r, x, lo, hi - 1);
    }
  }

  lemma {:induction false} UnrunThenRun(r: Regs, x: seq<word>, lo: nat, hi: nat)
    requires lo <= hi <= 64 && |x| == 16
    ensures Run(Unrun(r, x, lo, hi), x, lo, hi) == r
    decreases hi
  {
    if lo < hi {
      hide Step, Unstep;
      UnrunThenRun(Unstep(hi - 1, r, x), x, lo, hi - 1);
      UnstepThenStep(hi - 1, r, x);
    }
  }

  // Reading the message words back from the registers.

  /** The word step `i` must have consumed, given the registers before it and the value it produced. */
  function Recovered(i: nat, r: Regs, v: word): word
    requires i < 64
  {
    Difference(RotateRight(Minus(v, r.b), Shift(i)), r.a, Mix(i, r.b, r.c, r.d), T(i))
  }

  /** The registers after a run of steps that produced the values `vs`. */
  function Replay(r: Regs, vs: seq<word>): Regs {
    if vs == [] then r else
    var p := Replay(r, vs[..|vs| - 1]);
    Regs(p.d, vs[|vs| - 1], p.b, p.c)
  }

  /** The values that the first `n` steps of round `q` produce. */
  function Trace(q: nat, r: Regs, x: seq<word>, n: nat): (vs: seq<word>)
    requires q < 4 && |x| == 16 && n <= 16
    ensures |vs| == n
  {
    hide Run;
    if n == 0 then [] else Trace(q, r, x, n - 1) + [Run(r, x, 16 * q, 16 * q + n).b]
  }

  lemma {:induction false} TracePrefix(q: nat, r: Regs, x: seq<word>, n: nat, m: nat)
    requires q < 4 && |x| == 16 && n < m <= 16
    ensures Trace(q, r, x, m)[..n] == Trace(q, r, x, n)
    ensures Trace(q, r, x, m)[n] == Run(r, x, 16 * q, 16 * q + n + 1).b
  {
    hide Run;
    if n < m - 1 {
      TracePrefix(q, r, x, n, m - 1);
    }
  }

  /** The step of round `q` that consumes message word `k`. */
  function StepUsing(q: nat, k: nat): (i: nat)
    requires q < 4 && k < 16
    ensures 16 * q <= i < 16 * q + 16
  {
    16 * q + match q
             case 0 => k
             case 1 => 13 * (k + 15) % 16
             case 2 => 11 * (k + 11) % 16
             case _ => 7 * k % 16
  }

  /** In every round each message word is consumed by exactly one step. */
  lemma StepUsingIsInverse(q: nat, k: nat, i: nat)
    requires q < 4 && k < 16 && 16 * q <= i < 16 * q + 16
    ensures WordIndex(i) == k <==> i == StepUsing(q, k)
  {
    var j := i - 16 * q;
    Remainder16(i, q, j);
    match q
    case 0 =>
    case 1 =>
      Multiple16(1 + 5 * j, 5);
      Residue5(j, k);
    case 2 =>
      Multiple16(5 + 3 * j, 6);
      Residue3(j, k);
    case 3 =>
      Multiple16(7 * j, 21);
      Residue7(j, k);
  }

  lemma Remainder16(v: int, z: int, k: nat)
    requires v == 16 * z + k && k < 16
    ensures v % 16 == k && v / 16 == z
  {
  }

  lemma Multiple16(v: nat, z: nat)
    ensures (v + 16 * z) % 16 == v % 16
  {
  }

  // Each round's index map is inverted modulo 16.

  lemma Residue5(j: nat, k: nat)
    requires j < 16 && k < 16
    ensures (1 + 5 * j) % 16 == k <==> j == 13 * (k + 15) % 16
  {
    if (1 + 5 * j) % 16 == k {
      var y := (1 + 5 * j) / 16;
      Remainder16(13 * (k + 15), 4 * j + 13 - 13 * y, j);
    }
    if j == 13 * (k + 15) % 16 {
      var z := 13 * (k + 15) / 16;
      Remainder16(1 + 5 * j, 61 + 4 * k - 5 * z, k);
    }
  }

  lemma Residue3(j: nat, k: nat)
    requires j < 16 && k < 16
    ensures (5 + 3 * j) % 16 == k <==> j == 11 * (k + 11) % 16
  {
    if (5 + 3 * j) % 16 == k {
      var y := (5 + 3 * j) / 16;
      Remainder16(11 * (k + 11), 2 * j + 11 - 11 * y, j);
    }
    if j == 11 * (k + 11) % 16 {
      var z := 11 * (k + 11) / 16;
      Remainder16(5 + 3 * j, 23 + 2 * k - 3 * z, k);
    }
  }

  lemma Residue7(j: nat, k: nat)
    requires j < 16 && k < 16
    ensures 7 * j % 16 == k <==> j == 7 * k % 16
  {
    if 7 * j % 16 == k {
      var y := 7 * j / 16;
      Remainder16(7 * k, 3 * j - 7 * y, j);
    }
    if j == 7 * k % 16 {
      var z := 7 * k / 16;
      Remainder16(7 * j, 3 * k - 7 * z, k);
    }
  }

  /** The sixteen message words, from the registers a round starts with and the values it produces. */
  function RecoverWords(q: nat, r: Regs, vs: seq<word>): (x: seq<word>)
    requires q < 4 && |vs| == 16
    ensures |x| == 16
  {
    seq(16, k requires 0 <= k < 16 =>
          var i := StepUsing(q, k);
          Recovered(i, Replay(r, vs[..i - 16 * q]), vs[i - 16 * q]))
  }

  lemma WordRecovered(a: word, b: word, m: word, w: word, t: word, s: word)
    requires Amount(s)
    ensures Difference(RotateRight(Minus(Forward(a, b, m, w, t, s), b), s), a, m, t) == w
  {
    hide RotateLeft, RotateRight, Plus, Minus, Sum, Difference;
    SubtractionsUndoAdditions(RotateLeft(Sum(a, m, w, t), s), b, 0, 0, 0);
    RotationsCancel(Sum(a, m, w, t), s);
    WordFromSum(a, m, w, t);
  }

  lemma WordFromSum(a: word, m: word, w: word, t: word)
    ensures Difference(Sum(a, m, w, t), a, m, t) == w
  {
    hide Difference;
    WordFromTerms(a, m, w, t);
  }

  lemma WordFromTerms(a: word, m: word, w: word, t: word)
    ensures Difference(a + m + w + t, a, m, t) == w
  {
  }

  lemma RunAdvances(r: Regs, x: seq<word>, lo: nat, i: nat)
    requires lo <= i < 64 && |x| == 16
    ensures var p, v := Run(r, x, lo, i), Run(r, x, lo, i + 1).b;
            Run(r, x, lo, i + 1) == Regs(p.d, v, p.b, p.c)
            && v == Forward(p.a, p.b, Mix(i, p.b, p.c, p.d), x[WordIndex(i)], T(i), Shift(i))
  {
    hide Forward, Mix, T, Shift, WordIndex;
  }

  lemma ReplayLast(r: Regs, vs: seq<word>, n: nat)
    requires n < |vs|
    ensures Replay(r, []) == r
    ensures var p := Replay(r, vs[..n]); Replay(r, vs[..n + 1]) == Regs(p.d, vs[n], p.b, p.c)
  {
    assert vs[..n + 1][..n] == vs[..n];
  }

  lemma RunOfNothing(r: Regs, x: seq<word>, lo: nat)
    requires lo <= 64 && |x| == 16
    ensures Run(r, x, lo, lo) == r
  {
  }

  lemma {:induction false} ReplayIsRun(q: nat, r: Regs, x: seq<word>, n: nat)
    requires q < 4 && |x| == 16 && n <= 16
    ensures Replay(r, Trace(q, r, x, n)) == Run(r, x, 16 * q, 16 * q + n)
  {
    hide Run, Replay, Forward, Mix, T, Shift, WordIndex;
    var vs := Trace(q, r, x, n);
    if n == 0 {
      RunOfNothing(r, x, 16 * q);
      ReplayLast(r, [0], 0);
    } else {
      ReplayIsRun(q, r, x, n - 1);
      ReplayLast(r, vs, n - 1);
      RunAdvances(r, x, 16 * q, 16 * q + n - 1);
      assert vs[..n - 1] == Trace(q, r, x, n - 1) && vs[..n] == vs;
    }
  }

  lemma WordReadBack(q: nat, r: Regs, x: seq<word>, k: nat)
    requires q < 4 && |x| == 16 && k < 16
    ensures RecoverWords(q, r, Trace(q, r, x, 16))[k] == x[k]
  {
    hide Run, Forward, Mix, T, Shift, WordIndex, Minus, Difference, RotateRight, Trace, Replay;
    var i := StepUsing(q, k);
    StepUsingIsInverse(q, k, i);
    var p := Run(r, x, 16 * q, i);
    ReplayIsRun(q, r, x, i - 16 * q);
    TracePrefix(q, r, x, i - 16 * q, 16);
    RunAdvances(r, x, 16 * q, i);
    WordRecovered(p.a, p.b, Mix(i, p.b, p.c, p.d), x[WordIndex(i)], T(i), Shift(i));
  }

  /** Every word is consumed exactly once in a round, so the registers of one round determine them all. */
  lemma RoundDeterminesWords(q: nat, r: Regs, x: seq<word>)
    requires q < 4 && |x| == 16
    ensures RecoverWords(q, r, Trace(q, r, x, 16)) == x
  {
    hide *;
    forall k | 0 <= k < 16
      ensures RecoverWords(q, r, Trace(q, r, x, 16))[k] == x[k]
    {
      WordReadBack(q, r, x, k);
    }
  }

  /** The registers of one round determine the block. */
  lemma RoundDeterminesBlock(q: nat, r: Regs, block: seq<byte>)
    requires q < 4 && |block| == 64
    ensures EncodeWords(RecoverWords(q, r, Trace(q, r, DecodeWords(block), 16))) == block
  {
    hide *;
    RoundDeterminesWords(q, r, DecodeWords(block));
    EncodeDecode(block);
  }
}
