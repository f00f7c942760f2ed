/** Addition of 32-bit words, as the numbers they hold. */
module Addition {
  import opened Codec

  function Plus(x: word, y: word): word { x + y }

  lemma ByteSuccessor(b: byte)
    requires b != 0xFF
    ensures ByteValue(b + 1) == ByteValue(b) + 1
  {
  }

  // Adding one to a word carries through its bytes.

  lemma CarryStopsAt0(b0: byte, b1: byte, b2: byte, b3: byte)
    requires b0 != 0xFF
    ensures DecodeWord(b0, b1, b2, b3) + 1 == DecodeWord(b0 + 1, b1, b2, b3)
  {
  }

  lemma CarryStopsAt1(b1: byte, b2: byte, b3: byte)
    requires b1 != 0xFF
    ensures DecodeWord(0xFF, b1, b2, b3) + 1 == DecodeWord(0, b1 + 1, b2, b3)
  {
  }

  lemma CarryStopsAt2(b2: byte, b3: byte)
    requires b2 != 0xFF
    ensures DecodeWord(0xFF, 0xFF, b2, b3) + 1 == DecodeWord(0, 0, b2 + 1, b3)
  {
  }

  lemma CarryStopsAt3(b3: byte)
    requires b3 != 0xFF
    ensures DecodeWord(0xFF, 0xFF, 0xFF, b3) + 1 == DecodeWord(0, 0, 0, b3 + 1)
  {
  }

  lemma Extremes()
    ensures ByteValue(0) == 0 && ByteValue(0xFF) == 255
    ensures Value(0) == 0 && Value(0xFFFF_FFFF) == 0xFFFF_FFFF
    ensures DecodeWord(0xFF, 0xFF, 0xFF, 0xFF) == 0xFFFF_FFFF
  {
  }

  lemma BytesOf(w: word) returns (b0: byte, b1: byte, b2: byte, b3: byte)
    ensures w == DecodeWord(b0, b1, b2, b3)
  {
    hide EncodeWord, DecodeWord;
    var bs := EncodeWord(w);
    b0, b1, b2, b3 := bs[0], bs[1], bs[2], bs[3];
    WordRoundTrip(w);
  }

  lemma Successor(w: word)
    ensures Value(w + 1) == (Value(w) + 1) % 0x1_0000_0000
    ensures w != 0xFFFF_FFFF ==> Value(w + 1) == Value(w) + 1
  {
    var b0, b1, b2, b3 := BytesOf(w);
    Extremes();
    hide DecodeWord, Value, ByteValue;
    DecodedValue(b0, b1, b2, b3);
    if b0 != 0xFF {
      CarryStopsAt0(b0, b1, b2, b3);
      ByteSuccessor(b0);
      DecodedValue(b0 + 1, b1, b2, b3);
    } else if b1 != 0xFF {
      CarryStopsAt1(b1, b2, b3);
      ByteSuccessor(b1);
      DecodedValue(0, b1 + 1, b2, b3);
    } else if b2 != 0xFF {
      CarryStopsAt2(b2, b3);
      ByteSuccessor(b2);
      DecodedValue(0, 0, b2 + 1, b3);
    } else if b3 != 0xFF {
      CarryStopsAt3(b3);
      ByteSuccessor(b3);
      DecodedValue(0, 0, 0, b3 + 1);
    }
  }

  lemma PlusIsSum(x: word, y: word)
    ensures Plus(x, y) == x + y && Plus(x, 0) == x
  {
  }

  lemma OuterSum(x: word, y: word, z: word)
    ensures Plus(x + y, z) == x + y + z
  {
  }

  lemma InnerSum(x: word, y: word, z: word)
    ensures Plus(x, y + z) == x + y + z
  {
  }

  lemma Associates(x: word, y: word, z: word)
    ensures Plus(Plus(x, y), z) == Plus(x, Plus(y, z))
  {
    PlusIsSum(x, y);
    PlusIsSum(y, z);
    OuterSum(x, y, z);
    InnerSum(x, y, z);
    hide Plus;
  }

  lemma Before(y: word) returns (p: word)
    requires y != 0
    ensures Plus(p, 1) == y && p != 0xFFFF_FFFF
  {
    p := y - 1;
  }

  lemma PlusOne(x: word)
    ensures Value(Plus(x, 1)) == (Value(x) + 1) % 0x1_0000_0000
    ensures x != 0xFFFF_FFFF ==> Value(Plus(x, 1)) == Value(x) + 1
  {
    hide Value;
    Successor(x);
  }

  lemma Predecessor(x: word, y: word) returns (p: word)
    requires y != 0
    ensures Value(p) + 1 == Value(y) && Plus(Plus(x, p), 1) == Plus(x, y)
  {
    hide *;
    p := Before(y);
    PlusOne(p);
    Associates(x, p, 1);
  }

  /** The machine sum of two words is their sum modulo 2^32. */
  lemma {:induction false} SumValue(x: word, y: word)
    ensures Value(Plus(x, y)) == (Value(x) + Value(y)) % 0x1_0000_0000
    decreases Value(y)
  {
    Extremes();
    hide Value, Plus, DecodeWord, ByteValue;
    if y == 0 {
      PlusIsSum(x, y);
    } else {
      var p := Predecessor(x, y);
      SumValue(x, p);
      PlusOne(Plus(x, p));
    }
  }
}
