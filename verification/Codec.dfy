/** The little-endian byte codec of src/utils/md5.c: `MD5Encode` and `MD5Decode`
    (RFC 1321, section 2). */
module Codec {

  type byte = bv8

  type word = bv32

  /** The byte of `w` that starts `n` bits from its low-order end. */
  function ByteAt(w: word, n: word): byte
    requires n < 32
  {
    ((w >> n) & 0xFF) as byte
  }

  /** The four bytes of a word, low-order byte first. */
  function EncodeWord(w: word): (bs: seq<byte>)
    ensures |bs| == 4
  {
    [(w & 0xFF) as byte, ByteAt(w, 8), ByteAt(w, 16), ByteAt(w, 24)]
  }

  function DecodeWord(b0: byte, b1: byte, b2: byte, b3: byte): word {
    (b0 as word) | ((b1 as word) << 8) | ((b2 as word) << 16) | ((b3 as word) << 24)
  }

  function EncodeWords(ws: seq<word>): (bs: seq<byte>)
    ensures |bs| == 4 * |ws|
  {
    if ws == [] then [] else EncodeWord(ws[0]) + EncodeWords(ws[1..])
  }

  function DecodeWords(bs: seq<byte>): (ws: seq<word>)
    requires |bs| % 4 == 0
    ensures 4 * |ws| == |bs|
  {
    if bs == [] then [] else [DecodeWord(bs[0], bs[1], bs[2], bs[3])] + DecodeWords(bs[4..])
  }

  /** The numbers that an `unsigned char` and an `unsigned int` hold. */
  function ByteValue(b: byte): (n: nat)
    ensures n < 256
  {
    b as nat
  }

  function Value(w: word): (n: nat)
    ensures n < 0x1_0000_0000
  {
    w as nat
  }

  /** The number a byte string denotes when its first byte is the least significant. */
  function LittleEndian(bs: seq<byte>): nat {
    if bs == [] then 0 else ByteValue(bs[0]) + 256 * LittleEndian(bs[1..])
  }

  /** The byte that holds the number `d`, put together from its two hexadecimal digits. */
  function ByteOf(d: nat): byte
    requires d < 256
  {
    ((((d / 16) as bv4) as byte) << 4) | (((d % 16) as bv4) as byte)
  }

  /** The `k` low-order base-256 digits of `v`, least significant first. */
  function LittleEndianBytes(v: nat, k: nat): (bs: seq<byte>)
    ensures |bs| == k
  {
    if k == 0 then [] else [ByteOf(v % 256)] + LittleEndianBytes(v / 256, k - 1)
  }

  lemma WordRoundTrip(w: word)
    ensures var bs := EncodeWord(w); DecodeWord(bs[0], bs[1], bs[2], bs[3]) == w
  {
  }

  lemma BytesRoundTrip(b0: byte, b1: byte, b2: byte, b3: byte)
    ensures EncodeWord(DecodeWord(b0, b1, b2, b3)) == [b0, b1, b2, b3]
  {
  }

  lemma FourDigits(b0: byte, b1: byte, b2: byte, b3: byte)
    ensures LittleEndian([b0, b1, b2, b3])
         == ByteValue(b0) + 256 * ByteValue(b1) + 0x10000 * ByteValue(b2) + 0x1000000 * ByteValue(b3)
  {
    hide ByteValue;
    assert [b0, b1, b2, b3][1..] == [b1, b2, b3] && [b1, b2, b3][1..] == [b2, b3] && [b2, b3][1..] == [b3];
    assert LittleEndian([b3]) == ByteValue(b3) + 256 * LittleEndian([]);
    assert LittleEndian([b2, b3]) == ByteValue(b2) + 256 * LittleEndian([b3]);
  }

  lemma JoinedValue(b0: byte, b1: byte, b2: byte, b3: byte)
    ensures Value((b0 as word) | ((b1 as word) << 8) | ((b2 as word) << 16) | ((b3 as word) << 24))
         == ByteValue(b0) + 256 * ByteValue(b1) + 0x10000 * ByteValue(b2) + 0x1000000 * ByteValue(b3)
  {
  }

  lemma DecodedValue(b0: byte, b1: byte, b2: byte, b3: byte)
    ensures Value(DecodeWord(b0, b1, b2, b3))
         == ByteValue(b0) + 256 * ByteValue(b1) + 0x10000 * ByteValue(b2) + 0x1000000 * ByteValue(b3)
  {
    hide Value, ByteValue;
    JoinedValue(b0, b1, b2, b3);
  }

  lemma WordIsPositional(b0: byte, b1: byte, b2: byte, b3: byte)
    ensures Value(DecodeWord(b0, b1, b2, b3)) == LittleEndian([b0, b1, b2, b3])
  {
    hide LittleEndian, Value, ByteValue, DecodeWord;
    FourDigits(b0, b1, b2, b3);
    DecodedValue(b0, b1, b2, b3);
  }

  /** Encoding is a bijection between word sequences and byte strings of a multiple of four bytes. */
  lemma {:induction false} DecodeEncode(ws: seq<word>)
    ensures DecodeWords(EncodeWords(ws)) == ws
  {
    if ws != [] {
      hide EncodeWord, DecodeWord;
      WordRoundTrip(ws[0]);
      var head, tail := EncodeWord(ws[0]), EncodeWords(ws[1..]);
      assert (head + tail)[4..] == tail;
      DecodeEncode(ws[1..]);
    }
  }

  lemma {:induction false} EncodeDecode(bs: seq<byte>)
    requires |bs| % 4 == 0
    ensures EncodeWords(DecodeWords(bs)) == bs
  {
    if bs != [] {
      BytesRoundTrip(bs[0], bs[1], bs[2], bs[3]);
      EncodeDecode(bs[4..]);
      assert bs == [bs[0], bs[1], bs[2], bs[3]] + bs[4..];
    }
  }

  lemma {:induction false} EncodeAt(ws: seq<word>, i: nat)
    requires i < |ws|
    ensures EncodeWords(ws)[4 * i..4 * i + 4] == EncodeWord(ws[i])
  {
    if i == 0 {
    } else {
      EncodeAt(ws[1..], i - 1);
      assert EncodeWords(ws)[4..] == EncodeWords(ws[1..]);
    }
  }

  lemma {:induction false} DecodeAt(bs: seq<byte>, i: nat)
    requires |bs| % 4 == 0 && 4 * i < |bs|
    ensures DecodeWords(bs)[i] == DecodeWord(bs[4 * i], bs[4 * i + 1], bs[4 * i + 2], bs[4 * i + 3])
  {
    if i == 0 {
    } else {
      DecodeAt(bs[4..], i - 1);
    }
  }

  /** Word `i` of the decoded string is the value of bytes `4 i` to `4 i + 3`. */
  lemma DecodeIsPositional(bs: seq<byte>, i: nat)
    requires |bs| % 4 == 0 && 4 * i < |bs|
    ensures Value(DecodeWords(bs)[i]) == LittleEndian(bs[4 * i..4 * i + 4])
  {
    hide *;
    DecodeAt(bs, i);
    WordIsPositional(bs[4 * i], bs[4 * i + 1], bs[4 * i + 2], bs[4 * i + 3]);
    assert bs[4 * i..4 * i + 4] == [bs[4 * i], bs[4 * i + 1], bs[4 * i + 2], bs[4 * i + 3]];
  }

  function Pow256(k: nat): (p: nat)
    ensures p > 0
  {
    if k == 0 then 1 else 256 * Pow256(k - 1)
  }

  lemma HexDigit(d: nat)
    requires d < 16
    ensures (d as bv4) as nat == d
  {
  }

  lemma JoinedDigits(h: bv4, l: bv4)
    ensures ByteValue(((h as byte) << 4) | (l as byte)) == 16 * (h as nat) + l as nat
  {
  }

  lemma ByteOfValue(d: nat)
    requires d < 256
    ensures ByteValue(ByteOf(d)) == d
  {
    hide ByteValue;
    HexDigit(d / 16);
    HexDigit(d % 16);
    JoinedDigits((d / 16) as bv4, (d % 16) as bv4);
  }

  lemma DropDigit(v: nat, p: nat)
    requires p > 0
    ensures v % (256 * p) == v % 256 + 256 * ((v / 256) % p)
  {
    var q, r := v / 256 / p, (v / 256) % p;
    assert v / 256 == p * q + r;
    assert v == (256 * p) * q + (v % 256 + 256 * r);
    RemainderUnique(v, 256 * p, q, v % 256 + 256 * r);
  }

  lemma MultipleMagnitude(m: int, k: int)
    requires m >= 0
    ensures k >= 1 ==> m * k >= m
    ensures k <= -1 ==> m * k <= -m
  {
  }

  lemma RemainderUnique(v: nat, m: nat, q: nat, r: nat)
    requires r < m && v == m * q + r
    ensures v % m == r
  {
    var q', r' := v / m, v % m;
    assert m * q' + r' == v;
    assert m * (q - q') == r' - r;
    MultipleMagnitude(m, q - q');
  }

  lemma {:induction false} LittleEndianBytesValue(v: nat, k: nat)
    ensures LittleEndian(LittleEndianBytes(v, k)) == v % Pow256(k)
  {
    if k > 0 {
      hide ByteOf, ByteValue;
      ByteOfValue(v % 256);
      LittleEndianBytesValue(v / 256, k - 1);
      DropDigit(v, Pow256(k - 1));
    }
  }

  lemma EncodeBytesAt(ws: seq<word>, i: nat)
    requires i < |ws|
    ensures EncodeWords(ws)[4 * i] == (ws[i] & 0xFF) as byte
    ensures EncodeWords(ws)[4 * i + 1] == ByteAt(ws[i], 8)
    ensures EncodeWords(ws)[4 * i + 2] == ByteAt(ws[i], 16)
    ensures EncodeWords(ws)[4 * i + 3] == ByteAt(ws[i], 24)
  {
    EncodeAt(ws, i);
    var four := EncodeWords(ws)[4 * i..4 * i + 4];
    assert four[0] == EncodeWord(ws[i])[0] && four[1] == EncodeWord(ws[i])[1];
    assert four[2] == EncodeWord(ws[i])[2] && four[3] == EncodeWord(ws[i])[3];
  }

  /** The word that holds `n`. */
  function WordOf(n: nat): word
    requires n < 0x1_0000_0000
  {
    var bs := LittleEndianBytes(n, 4);
    DecodeWord(bs[0], bs[1], bs[2], bs[3])
  }

  /** A 64-bit number kept as two words encodes to its eight little-endian bytes. */
  lemma EncodeCounter(lo: nat, hi: nat)
    requires lo < 0x1_0000_0000 && hi < 0x1_0000_0000
    ensures EncodeWords([WordOf(lo), WordOf(hi)]) == LittleEndianBytes(lo + 0x1_0000_0000 * hi, 8)
  {
    hide DecodeWord, EncodeWord, LittleEndianBytes, EncodeWords;
    EncodeWordOf(lo);
    EncodeWordOf(hi);
    EncodeTwo(WordOf(lo), WordOf(hi));
    assert Pow256(4) == 0x1_0000_0000;
    CounterDigits(lo, hi, 4);
  }

  lemma EncodeTwo(w0: word, w1: word)
    ensures EncodeWords([w0, w1]) == EncodeWord(w0) + EncodeWord(w1)
  {
    hide EncodeWord;
    assert [w0, w1][1..] == [w1];
    assert EncodeWords([w1]) == EncodeWord(w1) + [];
  }

  lemma EncodeWordOf(n: nat)
    requires n < 0x1_0000_0000
    ensures EncodeWord(WordOf(n)) == LittleEndianBytes(n, 4)
  {
    hide DecodeWord, EncodeWord, LittleEndianBytes;
    var bs := LittleEndianBytes(n, 4);
    BytesRoundTrip(bs[0], bs[1], bs[2], bs[3]);
  }

  lemma FirstDigit(v: nat, k: nat)
    ensures LittleEndianBytes(v, k + 1) == [ByteOf(v % 256)] + LittleEndianBytes(v / 256, k)
    ensures LittleEndianBytes(v, 0) == []
  {
  }

  lemma {:induction false} CounterDigits(lo: nat, hi: nat, k: nat)
    requires lo < Pow256(k)
    ensures LittleEndianBytes(lo + Pow256(k) * hi, k + 4) == LittleEndianBytes(lo, k) + LittleEndianBytes(hi, 4)
  {
    hide ByteOf, LittleEndianBytes;
    if k == 0 {
      FirstDigit(lo, 0);
    } else {
      var p := Pow256(k - 1);
      var t := p * hi;
      Scale(p, hi);
      NextDigit(lo, t);
      CounterDigits(lo / 256, hi, k - 1);
      FirstDigit(lo + 256 * t, k + 3);
      FirstDigit(lo, k - 1);
    }
  }

  lemma NextDigit(lo: nat, t: nat)
    ensures (lo + 256 * t) % 256 == lo % 256 && (lo + 256 * t) / 256 == lo / 256 + t
  {
  }

  lemma Scale(p: nat, hi: nat)
    ensures (256 * p) * hi == 256 * (p * hi)
  {
  }

  /** `MD5Encode`: a length that is not a multiple of four is rounded up. */
  method Encode(output: array<byte>, input: array<word>, len: nat)
    requires len <= 0xFFFF_FFFC
    requires len <= 4 * input.Length && 4 * ((len + 3) / 4) <= output.Length
    modifies output
    ensures output[..4 * ((len + 3) / 4)] == EncodeWords(input[..(len + 3) / 4])
    ensures output[4 * ((len + 3) / 4)..] == old(output[4 * ((len + 3) / 4)..])
  {
    hide EncodeWords, ByteAt;
    ghost var ws := input[..(len + 3) / 4];
    var i, j := 0, 0;
    while j < len
      invariant j == 4 * i && i <= |ws|
      invariant forall k :: 0 <= k < j ==> output[k] == EncodeWords(ws)[k]
      invariant forall k :: j <= k < output.Length ==> output[k] == old(output[k])
    {
      output[j] := (input[i] & 0xFF) as byte;
      output[j + 1] := ByteAt(input[i], 8);
      output[j + 2] := ByteAt(input[i], 16);
      output[j + 3] := ByteAt(input[i], 24);
      EncodeBytesAt(ws, i);
      i := i + 1;
      j := j + 4;
    }
  }

  /** `MD5Decode`, reading from `input + from`. */
  method Decode(output: array<word>, input: array<byte>, from: nat, len: nat)
    requires len <= 0xFFFF_FFFC && len % 4 == 0
    requires len <= 4 * output.Length && from + len <= input.Length
    modifies output
    ensures output[..len / 4] == DecodeWords(input[from..from + len])
    ensures output[len / 4..] == old(output[len / 4..])
  {
    hide DecodeWords;
    ghost var bs := input[from..from + len];
    var i, j := 0, 0;
    while j < len
      invariant j == 4 * i && j <= len
      invariant forall k :: 0 <= k < i ==> output[k] == DecodeWords(bs)[k]
      invariant forall k :: i <= k < output.Length ==> output[k] == old(output[k])
    {
      output[i] := (input[from + j] as word) | ((input[from + j + 1] as word) << 8)
                 | ((input[from + j + 2] as word) << 16) | ((input[from + j + 3] as word) << 24);
      DecodeAt(bs, i);
      i := i + 1;
      j := j + 4;
    }
  }
}
