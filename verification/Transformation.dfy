/** `MD5Transform`: the 64 steps written out, each updating one register in place. */
module Transformation {
  import opened Codec
  import opened Addition
  import opened Rounds

  // The step macros of src/utils/md5.h; the result is the new value of `a`.

  function StepMacro(a: word, b: word, mixed: word, x: word, s: word, ac: word): word
    requires 0 < s < 32
  {
    Plus(RotateLeft(a + (mixed + x + ac), s), b)
  }

  function FF(a: word, b: word, c: word, d: word, x: word, s: word, ac: word): word
    requires 0 < s < 32
  {
    StepMacro(a, b, F(b, c, d), x, s, ac)
  }

  function GG(a: word, b: word, c: word, d: word, x: word, s: word, ac: word): word
    requires 0 < s < 32
  {
    StepMacro(a, b, G(b, c, d), x, s, ac)
  }

  function HH(a: word, b: word, c: word, d: word, x: word, s: word, ac: word): word
    requires 0 < s < 32
  {
    StepMacro(a, b, H(b, c, d), x, s, ac)
  }

  function II(a: word, b: word, c: word, d: word, x: word, s: word, ac: word): word
    requires 0 < s < 32
  {
    StepMacro(a, b, I(b, c, d), x, s, ac)
  }

  lemma SumReassociated(a: word, m: word, w: word, t: word)
    ensures a + (m + w + t) == Sum(a, m, w, t)
  {
  }

  /** The three assignments of a macro compute the operation that RFC 1321 writes [abcd k s i]. */
  lemma StepMacroIsForward(a: word, b: word, m: word, x: word, s: word, ac: word)
    requires 0 < s < 32
    ensures StepMacro(a, b, m, x, s, ac) == Forward(a, b, m, x, ac, s)
  {
    SumReassociated(a, m, x, ac);
    hide RotateLeft, Plus, Sum;
  }

  /** FF, GG, HH and II mix with F, G, H and I: the sum of the register, the mixed value, the word and the
      constant is rotated and `b` is added, all modulo 2^32. */
  lemma MacrosCompute(a: word, b: word, c: word, d: word, x: word, s: word, ac: word)
    requires 0 < s < 32
    ensures StepValue(FF(a, b, c, d, x, s, ac), b, Sum(a, F(b, c, d), x, ac), s)
    ensures StepValue(GG(a, b, c, d, x, s, ac), b, Sum(a, G(b, c, d), x, ac), s)
    ensures StepValue(HH(a, b, c, d, x, s, ac), b, Sum(a, H(b, c, d), x, ac), s)
    ensures StepValue(II(a, b, c, d, x, s, ac), b, Sum(a, I(b, c, d), x, ac), s)
  {
    MacroComputes(a, b, F(b, c, d), x, s, ac);
    MacroComputes(a, b, G(b, c, d), x, s, ac);
    MacroComputes(a, b, H(b, c, d), x, s, ac);
    MacroComputes(a, b, I(b, c, d), x, s, ac);
    hide F, G, H, I, StepMacro, StepValue;
  }

  predicate StepValue(v: word, b: word, sum: word, s: word)
    requires 0 < s < 32
  {
    Value(v) == (Value(RotateLeft(sum, s)) + Value(b)) % 0x1_0000_0000
  }

  lemma MacroComputes(a: word, b: word, m: word, x: word, s: word, ac: word)
    requires 0 < s < 32
    ensures StepValue(StepMacro(a, b, m, x, s, ac), b, Sum(a, m, x, ac), s)
  {
    hide StepMacro, Forward, RotateLeft, Sum, Value;
    StepMacroIsForward(a, b, m, x, s, ac);
    ForwardComputes(a, b, m, x, ac, s);
  }

  /** The first round, step by step, through its macro. */
  lemma FFSteps(r: Regs, x: seq<word>)
    requires |x| == 16
    ensures Run(r, x, 0, 0) == r
    ensures forall i {:trigger Run(r, x, 0, i)} | 0 <= i < 16 ::
              var p := Run(r, x, 0, i);
              Run(r, x, 0, i + 1) == Regs(p.d, FF(p.a, p.b, p.c, p.d, x[WordIndex(i)], Shift(i), T(i)), p.b, p.c)
  {
    hide StepMacro, Forward, F, WordIndex, T, Shift;
    forall i | 0 <= i < 16
      ensures var p := Run(r, x, 0, i);
              Run(r, x, 0, i + 1) == Regs(p.d, FF(p.a, p.b, p.c, p.d, x[WordIndex(i)], Shift(i), T(i)), p.b, p.c)
    {
      var p := Run(r, x, 0, i);
      StepMacroIsForward(p.a, p.b, F(p.b, p.c, p.d), x[WordIndex(i)], Shift(i), T(i));
    }
  }

  /** The second round, step by step, through its macro. */
  lemma GGSteps(r: Regs, x: seq<word>)
    requires |x| == 16
    ensures Run(r, x, 16, 16) == r
    ensures forall i {:trigger Run(r, x, 16, i)} | 16 <= i < 32 ::
              var p := Run(r, x, 16, i);
              Run(r, x, 16, i + 1) == Regs(p.d, GG(p.a, p.b, p.c, p.d, x[WordIndex(i)], Shift(i), T(i)), p.b, p.c)
  {
    hide StepMacro, Forward, G, WordIndex, T, Shift;
    forall i | 16 <= i < 32
      ensures var p := Run(r, x, 16, i);
              Run(r, x, 16, i + 1) == Regs(p.d, GG(p.a, p.b, p.c, p.d, x[WordIndex(i)], Shift(i), T(i)), p.b, p.c)
    {
      var p := Run(r, x, 16, i);
      StepMacroIsForward(p.a, p.b, G(p.b, p.c, p.d), x[WordIndex(i)], Shift(i), T(i));
    }
  }

  /** The third round, step by step, through its macro. */
  lemma HHSteps(r: Regs, x: seq<word>)
    requires |x| == 16
    ensures Run(r, x, 32, 32) == r
    ensures forall i {:trigger Run(r, x, 32, i)} | 32 <= i < 48 ::
              var p := Run(r, x, 32, i);
              Run(r, x, 32, i + 1) == Regs(p.d, HH(p.a, p.b, p.c, p.d, x[WordIndex(i)], Shift(i), T(i)), p.b, p.c)
  {
    hide StepMacro, Forward, H, WordIndex, T, Shift;
    forall i | 32 <= i < 48
      ensures var p := Run(r, x, 32, i);
              Run(r, x, 32, i + 1) == Regs(p.d, HH(p.a, p.b, p.c, p.d, x[WordIndex(i)], Shift(i), T(i)), p.b, p.c)
    {
      var p := Run(r, x, 32, i);
      StepMacroIsForward(p.a, p.b, H(p.b, p.c, p.d), x[WordIndex(i)], Shift(i), T(i));
    }
  }

  /** The fourth round, step by step, through its macro. */
  lemma IISteps(r: Regs, x: seq<word>)
    requires |x| == 16
    ensures Run(r, x, 48, 48) == r
    ensures forall i {:trigger Run(r, x, 48, i)} | 48 <= i < 64 ::
              var p := Run(r, x, 48, i);
              Run(r, x, 48, i + 1) == Regs(p.d, II(p.a, p.b, p.c, p.d, x[WordIndex(i)], Shift(i), T(i)), p.b, p.c)
  {
    hide StepMacro, Forward, I, WordIndex, T, Shift;
    forall i | 48 <= i < 64
      ensures var p := Run(r, x, 48, i);
              Run(r, x, 48, i + 1) == Regs(p.d, II(p.a, p.b, p.c, p.d, x[WordIndex(i)], Shift(i), T(i)), p.b, p.c)
    {
      var p := Run(r, x, 48, i);
      StepMacroIsForward(p.a, p.b, I(p.b, p.c, p.d), x[WordIndex(i)], Shift(i), T(i));
    }
  }

  /** The word, rotation and constant of each step of the first round. */
  lemma Schedule1()
    ensures WordIndex(0) == 0 && Shift(0) == 7 && T(0) == 0xd76aa478
    ensures WordIndex(1) == 1 && Shift(1) == 12 && T(1) == 0xe8c7b756
    ensures WordIndex(2) == 2 && Shift(2) == 17 && T(2) == 0x242070db
    ensures WordIndex(3) == 3 && Shift(3) == 22 && T(3) == 0xc1bdceee
    ensures WordIndex(4) == 4 && Shift(4) == 7 && T(4) == 0xf57c0faf
    ensures WordIndex(5) == 5 && Shift(5) == 12 && T(5) == 0x4787c62a
    ensures WordIndex(6) == 6 && Shift(6) == 17 && T(6) == 0xa8304613
    ensures WordIndex(7) == 7 && Shift(7) == 22 && T(7) == 0xfd469501
    ensures WordIndex(8) == 8 && Shift(8) == 7 && T(8) == 0x698098d8
    ensures WordIndex(9) == 9 && Shift(9) == 12 && T(9) == 0x8b44f7af
    ensures WordIndex(10) == 10 && Shift(10) == 17 && T(10) == 0xffff5bb1
    ensures WordIndex(11) == 11 && Shift(11) == 22 && T(11) == 0x895cd7be
    ensures WordIndex(12) == 12 && Shift(12) == 7 && T(12) == 0x6b901122
    ensures WordIndex(13) == 13 && Shift(13) == 12 && T(13) == 0xfd987193
    ensures WordIndex(14) == 14 && Shift(14) == 17 && T(14) == 0xa679438e
    ensures WordIndex(15) == 15 && Shift(15) == 22 && T(15) == 0x49b40821
  {
  }

  /** The word, rotation and constant of each step of the second round. */
  lemma Schedule2()
    ensures WordIndex(16) == 1 && Shift(16) == 5 && T(16) == 0xf61e2562
    ensures WordIndex(17) == 6 && Shift(17) == 9 && T(17) == 0xc040b340
    ensures WordIndex(18) == 11 && Shift(18) == 14 && T(18) == 0x265e5a51
    ensures WordIndex(19) == 0 && Shift(19) == 20 && T(19) == 0xe9b6c7aa
    ensures WordIndex(20) == 5 && Shift(20) == 5 && T(20) == 0xd62f105d
    ensures WordIndex(21) == 10 && Shift(21) == 9 && T(21) == 0x2441453
    ensures WordIndex(22) == 15 && Shift(22) == 14 && T(22) == 0xd8a1e681
    ensures WordIndex(23) == 4 && Shift(23) == 20 && T(23) == 0xe7d3fbc8
    ensures WordIndex(24) == 9 && Shift(24) == 5 && T(24) == 0x21e1cde6
    ensures WordIndex(25) == 14 && Shift(25) == 9 && T(25) == 0xc33707d6
    ensures WordIndex(26) == 3 && Shift(26) == 14 && T(26) == 0xf4d50d87
    ensures WordIndex(27) == 8 && Shift(27) == 20 && T(27) == 0x455a14ed
    ensures WordIndex(28) == 13 && Shift(28) == 5 && T(28) == 0xa9e3e905
    ensures WordIndex(29) == 2 && Shift(29) == 9 && T(29) == 0xfcefa3f8
    ensures WordIndex(30) == 7 && Shift(30) == 14 && T(30) == 0x676f02d9
    ensures WordIndex(31) == 12 && Shift(31) == 20 && T(31) == 0x8d2a4c8a
  {
  }

  /** The word, rotation and constant of each step of the third round. */
  lemma Schedule3()
    ensures WordIndex(32) == 5 && Shift(32) == 4 && T(32) == 0xfffa3942
    ensures WordIndex(33) == 8 && Shift(33) == 11 && T(33) == 0x8771f681
    ensures WordIndex(34) == 11 && Shift(34) == 16 && T(34) == 0x6d9d6122
    ensures WordIndex(35) == 14 && Shift(35) == 23 && T(35) == 0xfde5380c
    ensures WordIndex(36) == 1 && Shift(36) == 4 && T(36) == 0xa4beea44
    ensures WordIndex(37) == 4 && Shift(37) == 11 && T(37) == 0x4bdecfa9
    ensures WordIndex(38) == 7 && Shift(38) == 16 && T(38) == 0xf6bb4b60
    ensures WordIndex(39) == 10 && Shift(39) == 23 && T(39) == 0xbebfbc70
    ensures WordIndex(40) == 13 && Shift(40) == 4 && T(40) == 0x289b7ec6
    ensures WordIndex(41) == 0 && Shift(41) == 11 && T(41) == 0xeaa127fa
    ensures WordIndex(42) == 3 && Shift(42) == 16 && T(42) == 0xd4ef3085
    ensures WordIndex(43) == 6 && Shift(43) == 23 && T(43) == 0x4881d05
    ensures WordIndex(44) == 9 && Shift(44) == 4 && T(44) == 0xd9d4d039
    ensures WordIndex(45) == 12 && Shift(45) == 11 && T(45) == 0xe6db99e5
    ensures WordIndex(46) == 15 && Shift(46) == 16 && T(46) == 0x1fa27cf8
    ensures WordIndex(47) == 2 && Shift(47) == 23 && T(47) == 0xc4ac5665
  {
  }

  /** The word, rotation and constant of each step of the fourth round. */
  lemma Schedule4()
    ensures WordIndex(48) == 0 && Shift(48) == 6 && T(48) == 0xf4292244
    ensures WordIndex(49) == 7 && Shift(49) == 10 && T(49) == 0x432aff97
    ensures WordIndex(50) == 14 && Shift(50) == 15 && T(50) == 0xab9423a7
    ensures WordIndex(51) == 5 && Shift(51) == 21 && T(51) == 0xfc93a039
    ensures WordIndex(52) == 12 && Shift(52) == 6 && T(52) == 0x655b59c3
    ensures WordIndex(53) == 3 && Shift(53) == 10 && T(53) == 0x8f0ccc92
    ensures WordIndex(54) == 10 && Shift(54) == 15 && T(54) == 0xffeff47d
    ensures WordIndex(55) == 1 && Shift(55) == 21 && T(55) == 0x85845dd1
    ensures WordIndex(56) == 8 && Shift(56) == 6 && T(56) == 0x6fa87e4f
    ensures WordIndex(57) == 15 && Shift(57) == 10 && T(57) == 0xfe2ce6e0
    ensures WordIndex(58) == 6 && Shift(58) == 15 && T(58) == 0xa3014314
    ensures WordIndex(59) == 13 && Shift(59) == 21 && T(59) == 0x4e0811a1
    ensures WordIndex(60) == 4 && Shift(60) == 6 && T(60) == 0xf7537e82
    ensures WordIndex(61) == 11 && Shift(61) == 10 && T(61) == 0xbd3af235
    ensures WordIndex(62) == 2 && Shift(62) == 15 && T(62) == 0x2ad7d2bb
    ensures WordIndex(63) == 9 && Shift(63) == 21 && T(63) == 0xeb86d391
  {
  }

  method Round1(r: Regs, x: array<word>) returns (a: word, b: word, c: word, d: word)
    requires x.Length == 64
    ensures Regs(a, b, c, d) == Run(r, x[..16], 0, 16)
  {
    hide *;
    FFSteps(r, x[..16]);
    Schedule1();
    a, b, c, d := r.a, r.b, r.c, r.d;
    a := FF(a, b, c, d, x[0], 7, 0xd76aa478);
    d := FF(d, a, b, c, x[1], 12, 0xe8c7b756);
    c := FF(c, d, a, b, x[2], 17, 0x242070db);
    b := FF(b, c, d, a, x[3], 22, 0xc1bdceee);
    a := FF(a, b, c, d, x[4], 7, 0xf57c0faf);
    d := FF(d, a, b, c, x[5], 12, 0x4787c62a);
    c := FF(c, d, a, b, x[6], 17, 0xa8304613);
    b := FF(b, c, d, a, x[7], 22, 0xfd469501);
    a := FF(a, b, c, d, x[8], 7, 0x698098d8);
    d := FF(d, a, b, c, x[9], 12, 0x8b44f7af);
    c := FF(c, d, a, b, x[10], 17, 0xffff5bb1);
    b := FF(b, c, d, a, x[11], 22, 0x895cd7be);
    a := FF(a, b, c, d, x[12], 7, 0x6b901122);
    d := FF(d, a, b, c, x[13], 12, 0xfd987193);
    c := FF(c, d, a, b, x[14], 17, 0xa679438e);
    b := FF(b, c, d, a, x[15], 22, 0x49b40821);
  }

  method Round2(r: Regs, x: array<word>) returns (a: word, b: word, c: word, d: word)
    requires x.Length == 64
    ensures Regs(a, b, c, d) == Run(r, x[..16], 16, 32)
  {
    hide *;
    GGSteps(r, x[..16]);
    Schedule2();
    a, b, c, d := r.a, r.b, r.c, r.d;
    a := GG(a, b, c, d, x[1], 5, 0xf61e2562);
    d := GG(d, a, b, c, x[6], 9, 0xc040b340);
    c := GG(c, d, a, b, x[11], 14, 0x265e5a51);
    b := GG(b, c, d, a, x[0], 20, 0xe9b6c7aa);
    a := GG(a, b, c, d, x[5], 5, 0xd62f105d);
    d := GG(d, a, b, c, x[10], 9, 0x2441453);
    c := GG(c, d, a, b, x[15], 14, 0xd8a1e681);
    b := GG(b, c, d, a, x[4], 20, 0xe7d3fbc8);
    a := GG(a, b, c, d, x[9], 5, 0x21e1cde6);
    d := GG(d, a, b, c, x[14], 9, 0xc33707d6);
    c := GG(c, d, a, b, x[3], 14, 0xf4d50d87);
    b := GG(b, c, d, a, x[8], 20, 0x455a14ed);
    a := GG(a, b, c, d, x[13], 5, 0xa9e3e905);
    d := GG(d, a, b, c, x[2], 9, 0xfcefa3f8);
    c := GG(c, d, a, b, x[7], 14, 0x676f02d9);
    b := GG(b, c, d, a, x[12], 20, 0x8d2a4c8a);
  }

  method Round3(r: Regs, x: array<word>) returns (a: word, b: word, c: word, d: word)
    requires x.Length == 64
    ensures Regs(a, b, c, d) == Run(r, x[..16], 32, 48)
  {
    hide *;
    HHSteps(r, x[..16]);
    Schedule3();
    a, b, c, d := r.a, r.b, r.c, r.d;
    a := HH(a, b, c, d, x[5], 4, 0xfffa3942);
    d := HH(d, a, b, c, x[8], 11, 0x8771f681);
    c := HH(c, d, a, b, x[11], 16, 0x6d9d6122);
    b := HH(b, c, d, a, x[14], 23, 0xfde5380c);
    a := HH(a, b, c, d, x[1], 4, 0xa4beea44);
    d := HH(d, a, b, c, x[4], 11, 0x4bdecfa9);
    c := HH(c, d, a, b, x[7], 16, 0xf6bb4b60);
    b := HH(b, c, d, a, x[10], 23, 0xbebfbc70);
    a := HH(a, b, c, d, x[13], 4, 0x289b7ec6);
    d := HH(d, a, b, c, x[0], 11, 0xeaa127fa);
    c := HH(c, d, a, b, x[3], 16, 0xd4ef3085);
    b := HH(b, c, d, a, x[6], 23, 0x4881d05);
    a := HH(a, b, c, d, x[9], 4, 0xd9d4d039);
    d := HH(d, a, b, c, x[12], 11, 0xe6db99e5);
    c := HH(c, d, a, b, x[15], 16, 0x1fa27cf8);
    b := HH(b, c, d, a, x[2], 23, 0xc4ac5665);
  }

  method Round4(r: Regs, x: array<word>) returns (a: word, b: word, c: word, d: word)
    requires x.Length == 64
    ensures Regs(a, b, c, d) == Run(r, x[..16], 48, 64)
  {
    hide *;
    IISteps(r, x[..16]);
    Schedule4();
    a, b, c, d := r.a, r.b, r.c, r.d;
    a := II(a, b, c, d, x[0], 6, 0xf4292244);
    d := II(d, a, b, c, x[7], 10, 0x432aff97);
    c := II(c, d, a, b, x[14], 15, 0xab9423a7);
    b := II(b, c, d, a, x[5], 21, 0xfc93a039);
    a := II(a, b, c, d, x[12], 6, 0x655b59c3);
    d := II(d, a, b, c, x[3], 10, 0x8f0ccc92);
    c := II(c, d, a, b, x[10], 15, 0xffeff47d);
    b := II(b, c, d, a, x[1], 21, 0x85845dd1);
    a := II(a, b, c, d, x[8], 6, 0x6fa87e4f);
    d := II(d, a, b, c, x[15], 10, 0xfe2ce6e0);
    c := II(c, d, a, b, x[6], 15, 0xa3014314);
    b := II(b, c, d, a, x[13], 21, 0x4e0811a1);
    a := II(a, b, c, d, x[4], 6, 0xf7537e82);
    d := II(d, a, b, c, x[11], 10, 0xbd3af235);
    c := II(c, d, a, b, x[2], 15, 0x2ad7d2bb);
    b := II(b, c, d, a, x[9], 21, 0xeb86d391);
  }

  lemma {:induction false} RunSplit(r: Regs, x: seq<word>, lo: nat, mid: nat, hi: nat)
    requires lo <= mid <= hi <= 64 && |x| == 16
    ensures Run(r, x, lo, hi) == Run(Run(r, x, lo, mid), x, mid, hi)
  {
    if mid < hi {
      hide Step;
      RunSplit(r, x, lo, mid, hi - 1);
    }
  }

  lemma FourRounds(r: Regs, x: seq<word>)
    requires |x| == 16
    ensures Run(Run(Run(Run(r, x, 0, 16), x, 16, 32), x, 32, 48), x, 48, 64) == Run(r, x, 0, 64)
  {
    hide *;
    RunSplit(r, x, 0, 16, 32);
    RunSplit(r, x, 0, 32, 48);
    RunSplit(r, x, 0, 48, 64);
  }

  /** `MD5Transform(state, block)` with `block` pointing at `input + at`. */
  method Transform(state: array<word>, input: array<byte>, at: nat)
    requires state.Length == 4 && at + 64 <= input.Length
    modifies state
    ensures RegsOf(state[..]) == Compress(old(RegsOf(state[..])), input[at..at + 64])
  {
    hide Run, DecodeWords, Plus;
    var a := state[0];
    var b := state[1];
    var c := state[2];
    var d := state[3];
    ghost var r := Regs(a, b, c, d);
    var x := new word[64];
    Decode(x, input, at, 64);
    a, b, c, d := Round1(Regs(a, b, c, d), x);
    a, b, c, d := Round2(Regs(a, b, c, d), x);
    a, b, c, d := Round3(Regs(a, b, c, d), x);
    a, b, c, d := Round4(Regs(a, b, c, d), x);
    FourRounds(r, x[..16]);
    state[0] := Plus(state[0], a);
    state[1] := Plus(state[1], b);
    state[2] := Plus(state[2], c);
    state[3] := Plus(state[3], d);
  }
}
