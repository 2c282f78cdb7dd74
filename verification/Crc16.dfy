/**
 CRC-16/MODBUS as src/protocol/crc16.cpp computes it on words, and what it detects.
 The bit-level theory comes from BitRegister; a word is read as its sixteen bits and a
 message as its bytes' bits, least significant bit first, the order in which the
 reflected polynomial consumes them.
 */
module Crc16 {
  import opened Words
  import opened BitRegister

  const POLYNOMIAL: Word := 0xA001
  const INITIAL: Word := 0xFFFF

  /** One turn of the inner loop: shift right, folding in the polynomial on a lost 1. */
  function BitStep(c: Word): Word {
    if c % 2 == 1 then XorWord(c / 2, POLYNOMIAL) else c / 2
  }

  function Shift(c: Word, n: nat): Word
    decreases n
  {
    if n == 0 then c else Shift(BitStep(c), n - 1)
  }

  /** The register after one message byte. */
  function ByteStep(c: Word, b: Byte): Word {
    Shift(XorWord(c, b), 8)
  }

  function CrcFrom(c: Word, m: seq<Byte>): Word
    decreases |m|
  {
    if |m| == 0 then c else CrcFrom(ByteStep(c, m[0]), m[1..])
  }

  /** The checksum of a message. */
  function Crc(m: seq<Byte>): Word {
    CrcFrom(INITIAL, m)
  }

  lemma {:induction false} ShiftSplit(c: Word, n: nat)
    ensures Shift(c, n + 1) == BitStep(Shift(c, n))
    decreases n
  {
    if n > 0 { ShiftSplit(BitStep(c), n - 1); }
  }

  lemma {:induction false} CrcAppend(c: Word, m: seq<Byte>, b: Byte)
    ensures CrcFrom(c, m + [b]) == ByteStep(CrcFrom(c, m), b)
    decreases |m|
  {
    if |m| == 0 {
      assert (m + [b])[1..] == [];
    } else {
      assert (m + [b])[1..] == m[1..] + [b];
      CrcAppend(ByteStep(c, m[0]), m[1..], b);
    }
  }

  method FoldByte(crc0: Word, b: Byte) returns (crc: Word)
    ensures crc == ByteStep(crc0, b)
  {
    crc := XorWord(crc0, b);
    ghost var start := crc;
    for bit := 0 to 8
      invariant crc == Shift(start, bit)
    {
      ShiftSplit(start, bit);
      if crc % 2 != 0 {
        crc := XorWord(crc / 2, 0xA001);
      } else {
        crc := crc / 2;
      }
    }
  }

  /** The source's double loop; FoldByte is its inner loop. */
  method Crc16Modbus(data: seq<Byte>) returns (crc: Word)
    ensures crc == Crc(data) && crc == Remainder(0xFFFF, data)
  {
    CrcArithmetic(data);
    crc := INITIAL;
    for i := 0 to |data|
      invariant crc == Crc(data[..i])
    {
      assert data[..i + 1] == data[..i] + [data[i]];
      CrcAppend(INITIAL, data[..i], data[i]);
      crc := FoldByte(crc, data[i]);
    }
    assert data[..|data|] == data;
  }

  // ----- words and messages as bits -----

  function WordBits(c: Word): Register { Bits(c, 16) }

  function MessageBits(m: seq<Byte>): (w: seq<bool>)
    ensures |w| == 8 * |m|
  {
    if |m| == 0 then [] else Bits(m[0], 8) + MessageBits(m[1..])
  }

  lemma {:induction false} MessageBitsAppend(m: seq<Byte>, n: seq<Byte>)
    ensures MessageBits(m + n) == MessageBits(m) + MessageBits(n)
    decreases |m|
  {
    if |m| == 0 {
      assert m + n == n;
    } else {
      assert (m + n)[1..] == m[1..] + n;
      MessageBitsAppend(m[1..], n);
    }
  }

  lemma {:induction false} MessageBitsInjective(m: seq<Byte>, n: seq<Byte>)
    requires MessageBits(m) == MessageBits(n)
    ensures m == n
    decreases |m|
  {
    if |m| > 0 {
      var v, w := MessageBits(m), MessageBits(n);
      assert v[..8] == Bits(m[0], 8) && w[..8] == Bits(n[0], 8);
      ByteBitsInjective(m[0], n[0]);
      assert v[8..] == MessageBits(m[1..]) && w[8..] == MessageBits(n[1..]);
      MessageBitsInjective(m[1..], n[1..]);
    }
  }

  lemma PolynomialBits()
    ensures WordBits(POLYNOMIAL) == Flip(Flip(Flip(ZERO, 0), 13), 15)
  {
    JoinBits(0x01, 0xA0);
    assert Digit(0x01, 0) && !Digit(0x01, 1) && !Digit(0x01, 2) && !Digit(0x01, 3);
    assert !Digit(0x01, 4) && !Digit(0x01, 5) && !Digit(0x01, 6) && !Digit(0x01, 7);
    assert !Digit(0xA0, 0) && !Digit(0xA0, 1) && !Digit(0xA0, 2) && !Digit(0xA0, 3);
    assert !Digit(0xA0, 4) && Digit(0xA0, 5) && !Digit(0xA0, 6) && Digit(0xA0, 7);
  }

  lemma BitStepClocks(c: Word)
    ensures WordBits(BitStep(c)) == Clock(WordBits(c), false)
  {
    Pow16();
    HalfBits(c, 16);
    if c % 2 == 1 {
      PolynomialBits();
      XorWordBits(c / 2, POLYNOMIAL);
    }
  }

  lemma {:induction false} ShiftIdles(c: Word, n: nat)
    ensures WordBits(Shift(c, n)) == Idle(WordBits(c), n)
    decreases n
  {
    if n > 0 {
      BitStepClocks(c);
      ShiftIdles(BitStep(c), n - 1);
    }
  }

  lemma XorBits(c: Word, b: Byte)
    ensures WordBits(XorWord(c, b)) == XorLow(WordBits(c), Bits(b, 8))
  {
    XorWordBits(c, b);
    Pow16();
    forall i | 8 <= i < 16 ensures !Digit(b, i) {
      ZeroDigit(i - 8);
      JoinDigit(b, 0, 8, i);
    }
  }

  /** The word-level loop and the bit-level register compute the same thing. */
  lemma {:induction false} CrcClocks(c: Word, m: seq<Byte>)
    ensures WordBits(CrcFrom(c, m)) == ClockAll(WordBits(c), MessageBits(m))
    decreases |m|
  {
    if |m| > 0 {
      var b := m[0];
      XorBits(c, b);
      ShiftIdles(XorWord(c, b), 8);
      AddThenShift(WordBits(c), Bits(b, 8));
      ClockAllAppend(WordBits(c), Bits(b, 8), MessageBits(m[1..]));
      CrcClocks(ByteStep(c, b), m[1..]);
    }
  }

  // ----- the same by plain arithmetic -----

  /** Digits 0, 13 and 15 of a number below 0x8000 exchanged for their opposites. */
  function Feedback(h: nat): Word
    requires h < 0x8000
  {
    h + (if h % 2 == 0 then 1 else -1) + (if h / 0x2000 % 2 == 0 then 0x2000 else -0x2000) + 0x8000
  }

  /** One message bit: the last digit leaves, and feeds back if it differs from the bit. */
  function TakeBit(c: Word, bit: nat): Word {
    if c % 2 == bit then c / 2 else Feedback(c / 2)
  }

  /** The n low digits of a byte, lowest first. */
  function TakeBits(c: Word, b: nat, n: nat): Word
    decreases n
  {
    if n == 0 then c else TakeBits(TakeBit(c, b % 2), b / 2, n - 1)
  }

  function Remainder(c: Word, m: seq<Byte>): Word
    decreases |m|
  {
    if |m| == 0 then c else Remainder(TakeBits(c, m[0], 8), m[1..])
  }

  /** Adding or taking away a power of two exchanges one digit. */
  lemma {:induction false} ExchangeDigit(x: nat, k: nat, y: nat)
    requires if Digit(x, k) then x == y + Pow2(k) else y == x + Pow2(k)
    requires k < 16
    ensures Bits(y, 16) == Flip(Bits(x, 16), k)
  {
    hide Digit, Pow2;
    if Digit(x, k) { DigitGone(x, k); }
    forall i | 0 <= i < 16 ensures Digit(y, i) == if i == k then !Digit(x, k) else Digit(x, i) {
      if Digit(x, k) { SetDigit(y, k, i); } else { SetDigit(x, k, i); }
    }
  }

  lemma {:induction false} DigitGone(x: nat, k: nat)
    requires Digit(x, k)
    ensures Pow2(k) <= x && !Digit((x - Pow2(k)) as nat, k)
    decreases k
  {
    if k > 0 {
      DigitGone(x / 2, k - 1);
      assert (x - Pow2(k)) / 2 == x / 2 - Pow2(k - 1);
    }
  }

  lemma Powers()
    ensures Pow2(0) == 1 && Pow2(13) == 0x2000 && Pow2(15) == 0x8000
  {
    assert Pow2(4) == 16;
    assert Pow2(8) == 256;
    assert Pow2(12) == 4096;
  }

  lemma {:induction false} Thirteenth(h: nat)
    ensures Digit(h, 13) == (h / 0x2000 % 2 == 1) && Digit(h, 0) == (h % 2 == 1)
  {
    hide Digit;
    LowDigits(h);
    DigitsOn(h, 9);
    DigitsOn(h / 16, 5);
    DigitsOn(h / 16 / 16, 1);
    LowDigits(h / 16 / 16 / 16);
    assert h / 16 / 16 / 16 / 2 == h / 0x2000;
  }

  lemma FeedbackBits(h: nat)
    requires h < 0x8000
    ensures WordBits(Feedback(h)) == Flip(Flip(Flip(WordBits(h), 0), 13), 15)
  {
    Powers();
    Thirteenth(h);
    hide Digit, Pow2;
    var a := h + if h % 2 == 0 then 1 else -1;
    ExchangeDigit(h, 0, a);
    assert Bits(a, 16)[13] == Bits(h, 16)[13];
    var b := a + if h / 0x2000 % 2 == 0 then 0x2000 else -0x2000;
    if Digit(a, 13) { DigitGone(a, 13); }
    ExchangeDigit(a, 13, b);
    HighDigit(h, 15);
    assert Bits(b, 16)[15] == Bits(h, 16)[15];
    ExchangeDigit(b, 15, b + 0x8000);
  }

  lemma TakeBitClocks(c: Word, bit: bool)
    ensures WordBits(TakeBit(c, if bit then 1 else 0)) == Clock(WordBits(c), bit)
  {
    Pow16();
    HalfBits(c, 16);
    FeedbackBits(c / 2);
  }

  lemma {:induction false} TakeBitsClock(c: Word, b: nat, n: nat)
    ensures WordBits(TakeBits(c, b, n)) == ClockAll(WordBits(c), Bits(b, n))
    decreases n
  {
    if n > 0 {
      TakeBitClocks(c, b % 2 == 1);
      TakeBitsClock(TakeBit(c, b % 2), b / 2, n - 1);
      assert Bits(b, n)[1..] == Bits(b / 2, n - 1);
    }
  }

  lemma {:induction false} RemainderClocks(c: Word, m: seq<Byte>)
    ensures WordBits(Remainder(c, m)) == ClockAll(WordBits(c), MessageBits(m))
    decreases |m|
  {
    if |m| > 0 {
      TakeBitsClock(c, m[0], 8);
      ClockAllAppend(WordBits(c), Bits(m[0], 8), MessageBits(m[1..]));
      RemainderClocks(TakeBits(c, m[0], 8), m[1..]);
    }
  }

  /** The checksum by division and addition only, starting from 0xFFFF. */
  lemma {:induction false} CrcArithmetic(m: seq<Byte>)
    ensures Crc(m) == Remainder(0xFFFF, m)
  {
    CrcClocks(0xFFFF, m);
    RemainderClocks(0xFFFF, m);
    WordBitsInjective(Crc(m), Remainder(0xFFFF, m));
  }

  lemma {:induction false} RemainderLast(c: Word, m: seq<Byte>, b: Byte)
    ensures Remainder(c, m + [b]) == TakeBits(Remainder(c, m), b, 8)
    decreases |m|
  {
    hide TakeBits;
    if |m| == 0 {
      assert (m + [b])[1..] == [];
    } else {
      assert (m + [b])[1..] == m[1..] + [b];
      RemainderLast(TakeBits(c, m[0], 8), m[1..], b);
    }
  }

  lemma TakeOne(c: Word, b: nat, n: nat)
    requires n > 0
    ensures TakeBits(c, b, n) == TakeBits(TakeBit(c, b % 2), b / 2, n - 1)
  {}

  lemma {:induction false} TakeNone(c: Word, b: nat)
    ensures TakeBits(c, b, 0) == c
  {}

  /** A byte, digit by digit. */
  lemma {:induction false} EightBits(b: nat, c0: Word, c1: Word, c2: Word, c3: Word, c4: Word,
                                     c5: Word, c6: Word, c7: Word, c8: Word)
    requires c1 == TakeBit(c0, b % 2) && c2 == TakeBit(c1, b / 2 % 2) && c3 == TakeBit(c2, b / 2 / 2 % 2)
    requires c4 == TakeBit(c3, b / 2 / 2 / 2 % 2) && c5 == TakeBit(c4, b / 2 / 2 / 2 / 2 % 2)
    requires c6 == TakeBit(c5, b / 2 / 2 / 2 / 2 / 2 % 2) && c7 == TakeBit(c6, b / 2 / 2 / 2 / 2 / 2 / 2 % 2)
    requires c8 == TakeBit(c7, b / 2 / 2 / 2 / 2 / 2 / 2 / 2 % 2)
    ensures TakeBits(c0, b, 8) == c8
  {
    hide TakeBit, TakeBits;
    TakeOne(c0, b, 8);
    TakeOne(c1, b / 2, 7);
    TakeOne(c2, b / 2 / 2, 6);
    TakeOne(c3, b / 2 / 2 / 2, 5);
    TakeOne(c4, b / 2 / 2 / 2 / 2, 4);
    TakeOne(c5, b / 2 / 2 / 2 / 2 / 2, 3);
    TakeOne(c6, b / 2 / 2 / 2 / 2 / 2 / 2, 2);
    TakeOne(c7, b / 2 / 2 / 2 / 2 / 2 / 2 / 2, 1);
    TakeNone(c8, b / 2 / 2 / 2 / 2 / 2 / 2 / 2 / 2);
  }

  lemma CheckBytes1()
    ensures TakeBits(0xFFFF, 0x31, 8) == 0x947E
    ensures TakeBits(0x947E, 0x32, 8) == 0xF595
  {
    hide TakeBits;
    EightBits(0x31, 0xFFFF, 0x7FFF, 0x9FFE, 0x4FFF, 0x87FE, 0xE3FE, 0xD1FE, 0x68FF, 0x947E);
    EightBits(0x32, 0x947E, 0x4A3F, 0x251F, 0xB28E, 0x5947, 0x2CA3, 0x1651, 0xAB29, 0xF595);
  }

  lemma CheckBytes2()
    ensures TakeBits(0xF595, 0x33, 8) == 0x7A75
    ensures TakeBits(0x7A75, 0x34, 8) == 0x30BA
  {
    hide TakeBits;
    EightBits(0x33, 0xF595, 0x7ACA, 0x9D64, 0x4EB2, 0x2759, 0x13AC, 0xA9D7, 0xF4EA, 0x7A75);
    EightBits(0x34, 0x7A75, 0x9D3B, 0xEE9C, 0xD74F, 0xCBA6, 0xC5D2, 0xC2E8, 0x6174, 0x30BA);
  }

  lemma CheckBytes3()
    ensures TakeBits(0x30BA, 0x35, 8) == 0xA471
    ensures TakeBits(0xA471, 0x36, 8) == 0x32E4
  {
    hide TakeBits;
    EightBits(0x35, 0x30BA, 0xB85C, 0x5C2E, 0x8E16, 0x470B, 0x2385, 0x11C2, 0x08E1, 0xA471);
    EightBits(0x36, 0xA471, 0xF239, 0x791C, 0x9C8F, 0xEE46, 0xD722, 0xCB90, 0x65C8, 0x32E4);
  }

  lemma CheckBytes4()
    ensures TakeBits(0x32E4, 0x37, 8) == 0x9D73
    ensures TakeBits(0x9D73, 0x38, 8) == 0x37DD
  {
    hide TakeBits;
    EightBits(0x37, 0x32E4, 0xB973, 0x5CB9, 0x2E5C, 0x172E, 0xAB96, 0xF5CA, 0x7AE5, 0x9D73);
    EightBits(0x38, 0x9D73, 0xEEB8, 0x775C, 0x3BAE, 0xBDD6, 0xFEEA, 0xDF74, 0x6FBA, 0x37DD);
  }

  lemma CheckBytes5()
    ensures TakeBits(0x37DD, 0x39, 8) == 0x4B37
    ensures TakeBits(0xFFFF, 0x00, 8) == 0x40BF
  {
    hide TakeBits;
    EightBits(0x39, 0x37DD, 0x1BEE, 0x0DF7, 0xA6FA, 0xF37C, 0xD9BF, 0x6CDF, 0x966E, 0x4B37);
    EightBits(0x00, 0xFFFF, 0xDFFE, 0x6FFF, 0x97FE, 0x4BFF, 0x85FE, 0x42FF, 0x817E, 0x40BF);
  }

  /** The check value of this checksum: that of the digits 1 to 9 as text. */
  lemma {:induction false} CheckValue()
    ensures Crc([0x31, 0x32, 0x33, 0x34, 0x35, 0x36, 0x37, 0x38, 0x39]) == 0x4B37
    ensures Crc([]) == 0xFFFF && Crc([0x00]) == 0x40BF
  {
    hide TakeBits, Crc, Remainder;
    CheckBytes1();
    CheckBytes2();
    CheckBytes3();
    CheckBytes4();
    CheckBytes5();
    RemainderNothing(0xFFFF);
    CrcArithmetic([]);
    RemainderLast(0xFFFF, [], 0x31);
    assert [] + [0x31] == [0x31];
    RemainderLast(0xFFFF, [0x31], 0x32);
    assert [0x31] + [0x32] == [0x31, 0x32];
    RemainderLast(0xFFFF, [0x31, 0x32], 0x33);
    assert [0x31, 0x32] + [0x33] == [0x31, 0x32, 0x33];
    RemainderLast(0xFFFF, [0x31, 0x32, 0x33], 0x34);
    assert [0x31, 0x32, 0x33] + [0x34] == [0x31, 0x32, 0x33, 0x34];
    RemainderLast(0xFFFF, [0x31, 0x32, 0x33, 0x34], 0x35);
    assert [0x31, 0x32, 0x33, 0x34] + [0x35] == [0x31, 0x32, 0x33, 0x34, 0x35];
    RemainderLast(0xFFFF, [0x31, 0x32, 0x33, 0x34, 0x35], 0x36);
    assert [0x31, 0x32, 0x33, 0x34, 0x35] + [0x36] == [0x31, 0x32, 0x33, 0x34, 0x35, 0x36];
    RemainderLast(0xFFFF, [0x31, 0x32, 0x33, 0x34, 0x35, 0x36], 0x37);
    assert [0x31, 0x32, 0x33, 0x34, 0x35, 0x36] + [0x37] == [0x31, 0x32, 0x33, 0x34, 0x35, 0x36, 0x37];
    RemainderLast(0xFFFF, [0x31, 0x32, 0x33, 0x34, 0x35, 0x36, 0x37], 0x38);
    assert [0x31, 0x32, 0x33, 0x34, 0x35, 0x36, 0x37] + [0x38] == [0x31, 0x32, 0x33, 0x34, 0x35, 0x36, 0x37, 0x38];
    RemainderLast(0xFFFF, [0x31, 0x32, 0x33, 0x34, 0x35, 0x36, 0x37, 0x38], 0x39);
    assert [0x31, 0x32, 0x33, 0x34, 0x35, 0x36, 0x37, 0x38] + [0x39]
        == [0x31, 0x32, 0x33, 0x34, 0x35, 0x36, 0x37, 0x38, 0x39];
    RemainderLast(0xFFFF, [], 0x00);
    assert [] + [0x00] == [0x00];
    CrcArithmetic([0x00]);
    CrcArithmetic([0x31, 0x32, 0x33, 0x34, 0x35, 0x36, 0x37, 0x38, 0x39]);
  }

  lemma {:induction false} RemainderNothing(c: Word)
    ensures Remainder(c, []) == c
  {}

  /** The start value is there so that leading zeros count: it is the same as starting from
      nothing with the first two bytes complemented. */
  lemma {:induction false} StartComplements(m: seq<Byte>)
    requires |m| >= 2
    ensures Crc(m) == CrcFrom(0, [255 - m[0], 255 - m[1]] + m[2..])
  {
    hide Crc, CrcFrom, ClockAll, Idle, XorLow, MessageBits;
    CrcStart(m);
    var n: seq<Byte> := [255 - m[0], 255 - m[1]];
    assert m == m[..2] + m[2..] && m[..2] == [m[0], m[1]];
    MessageBitsAppend(m[..2], m[2..]);
    MessageBitsAppend(n, m[2..]);
    CrcClocks(0xFFFF, m);
    CrcClocks(0, n + m[2..]);
    ClockAllAppend(WordBits(0xFFFF), MessageBits(m[..2]), MessageBits(m[2..]));
    ClockAllAppend(WordBits(0), MessageBits(n), MessageBits(m[2..]));
    AddThenShift(WordBits(0xFFFF), MessageBits(m[..2]));
    AddThenShift(WordBits(0), MessageBits(n));
    ComplementBits(m[0], m[1]);
    WordBitsInjective(Crc(m), CrcFrom(0, n + m[2..]));
  }

  lemma {:induction false} CrcStart(m: seq<Byte>)
    ensures Crc(m) == CrcFrom(0xFFFF, m)
  {}

  lemma {:induction false} ComplementByte(b: Byte)
    ensures forall i :: 0 <= i < 8 ==> Bits(255 - b, 8)[i] == !Bits(b, 8)[i]
  {
    Pow16();
    forall i | 0 <= i < 8 ensures Digit(255 - b, i) == !Digit(b, i) { ComplementDigit(b, 8, i); }
  }

  lemma {:induction false} AllOnes()
    ensures forall i :: 0 <= i < 16 ==> WordBits(0xFFFF)[i]
  {
    Pow16();
    forall i | 0 <= i < 16 ensures Digit(0xFFFF, i) { AllOnesDigit(16, i); }
  }

  lemma {:induction false} ComplementBits(a: Byte, b: Byte)
    ensures XorLow(WordBits(0xFFFF), MessageBits([a, b])) == XorLow(WordBits(0), MessageBits([255 - a, 255 - b]))
  {
    ZeroWord();
    AllOnes();
    TwoBytes(a, b);
    TwoBytes(255 - a, 255 - b);
    JoinBits(a, b);
    JoinBits(255 - a, 255 - b);
    ComplementByte(a);
    ComplementByte(b);
    hide WordBits, MessageBits, Bits, Digit;
  }

  // ----- what the checksum detects -----

  lemma TwoBytes(low: Byte, high: Byte)
    ensures MessageBits([low, high]) == Bits(Join(low, high), 16)
  {
    JoinBits(low, high);
    assert [low, high][1..] == [high] && [high][1..] == [];
  }

  lemma ZeroWord()
    ensures WordBits(0) == ZERO
  {
    forall i | 0 <= i < 16 ensures !Digit(0, i) { ZeroDigit(i); }
  }

  /** A message followed by two check bytes, low byte first, leaves the register at zero
      exactly when the check bytes are the message's checksum. */
  lemma {:induction false} ZeroResidue(c: Word, m: seq<Byte>, low: Byte, high: Byte)
    ensures CrcFrom(c, m + [low, high]) == 0 <==> CrcFrom(c, m) == Join(low, high)
  {
    var received := Join(low, high);
    var w := WordBits(received);
    TwoBytes(low, high);
    MessageBitsAppend(m, [low, high]);
    ClockAllAppend(WordBits(c), MessageBits(m), w);
    CrcClocks(c, m);
    CrcClocks(c, m + [low, high]);
    Residue(WordBits(CrcFrom(c, m)), w);
    ZeroWord();
    if CrcFrom(c, m) == received {
      WordBitsInjective(CrcFrom(c, m + [low, high]), 0);
    }
    if CrcFrom(c, m + [low, high]) == 0 {
      WordBitsInjective(CrcFrom(c, m), received);
    }
  }

  lemma {:induction false} AllTrue(w: seq<bool>)
    requires forall i :: 0 <= i < |w| ==> w[i]
    ensures Odd(w) <==> |w| % 2 == 1
  {
    if |w| > 0 { AllTrue(w[1..]); }
  }

  lemma InitialParity()
    ensures !Odd(WordBits(INITIAL))
  {
    Pow16();
    forall i | 0 <= i < 16 ensures Digit(INITIAL, i) { AllOnesDigit(16, i); }
    AllTrue(WordBits(INITIAL));
  }

  /** The checksum has an odd number of ones exactly when the message has. */
  lemma {:induction false} CrcParity(m: seq<Byte>)
    ensures Odd(WordBits(Crc(m))) == Odd(MessageBits(m))
  {
    CrcClocks(INITIAL, m);
    ClockAllParity(WordBits(INITIAL), MessageBits(m));
    InitialParity();
  }

  /** The messages differ, and only inside the 16 bits from bit p on. */
  ghost predicate BurstAt(a: seq<Byte>, b: seq<Byte>, p: nat) {
    && |a| == |b| && a != b
    && forall j :: 0 <= j < 8 * |a| && !(p <= j < p + 16) ==> MessageBits(a)[j] == MessageBits(b)[j]
  }

  /** How many bits differ. */
  function FlipCount(a: seq<Byte>, b: seq<Byte>): nat
    requires |a| == |b|
  {
    Ones(Xor(MessageBits(a), MessageBits(b)))
  }

  /** An odd number of bits has been flipped. */
  ghost predicate OddFlips(a: seq<Byte>, b: seq<Byte>) {
    |a| == |b| && FlipCount(a, b) % 2 == 1
  }

  /** Transmission errors the checksum is there to catch. */
  ghost predicate Damaged(a: seq<Byte>, b: seq<Byte>) {
    OddFlips(a, b) || exists p: nat :: BurstAt(a, b, p)
  }

  lemma BurstChangesCrc(a: seq<Byte>, b: seq<Byte>, p: nat)
    requires BurstAt(a, b, p)
    ensures Crc(a) != Crc(b)
  {
    var v, w := MessageBits(a), MessageBits(b);
    var n := |v|;
    var lo := if p < n then p else n;
    var hi := if p + 16 < n then p + 16 else n;
    assert v == v[..lo] + v[lo..hi] + v[hi..];
    assert w == w[..lo] + w[lo..hi] + w[hi..];
    assert v[..lo] == w[..lo] && v[hi..] == w[hi..];
    if v[lo..hi] == w[lo..hi] {
      MessageBitsInjective(a, b);
    }
    BurstDetected(WordBits(INITIAL), v[..lo], v[lo..hi], w[lo..hi], v[hi..]);
    CrcClocks(INITIAL, a);
    CrcClocks(INITIAL, b);
  }

  lemma OddFlipsChangeCrc(a: seq<Byte>, b: seq<Byte>)
    requires OddFlips(a, b)
    ensures Crc(a) != Crc(b)
  {
    OddIsOddCount(Xor(MessageBits(a), MessageBits(b)));
    XorParity(MessageBits(a), MessageBits(b));
    CrcParity(a);
    CrcParity(b);
  }

  /** Odd numbers of bit flips anywhere and bursts of up to 16 bits change the checksum of
      a message of any length. */
  lemma DamageDetected(a: seq<Byte>, b: seq<Byte>)
    requires Damaged(a, b)
    ensures Crc(a) != Crc(b)
  {
    if OddFlips(a, b) {
      OddFlipsChangeCrc(a, b);
    } else {
      var p: nat :| BurstAt(a, b, p);
      BurstChangesCrc(a, b, p);
    }
  }

  lemma {:induction false} XorAfterPrefix(k: seq<bool>, v: seq<bool>, w: seq<bool>)
    requires |v| == |w|
    ensures Xor(k + v, k + w) == Xor(k, k) + Xor(v, w)
  {}

  lemma {:induction false} OddFlipsAfterPrefix(h: seq<Byte>, a: seq<Byte>, b: seq<Byte>)
    requires OddFlips(h + a, h + b)
    ensures OddFlips(a, b)
  {
    MessageBitsAppend(h, a);
    MessageBitsAppend(h, b);
    var k, v, w := MessageBits(h), MessageBits(a), MessageBits(b);
    XorAfterPrefix(k, v, w);
    hide Xor, MessageBits;
    OddIsOddCount(Xor(k, k) + Xor(v, w));
    OddIsOddCount(Xor(v, w));
    OddAppend(Xor(k, k), Xor(v, w));
    XorParity(k, k);
  }

  lemma {:induction false} BurstAfterPrefix(h: seq<Byte>, a: seq<Byte>, b: seq<Byte>, p: nat)
    requires BurstAt(h + a, h + b, p)
    ensures BurstAt(a, b, if p < 8 * |h| then 0 else p - 8 * |h|)
  {
    MessageBitsAppend(h, a);
    MessageBitsAppend(h, b);
    var k, v, w := MessageBits(h), MessageBits(a), MessageBits(b);
    hide MessageBits;
    var q := if p < |k| then 0 else p - |k|;
    forall j | 0 <= j < 8 * |a| && !(q <= j < q + 16) ensures v[j] == w[j] {
      assert (k + v)[j + |k|] == (k + w)[j + |k|];
    }
  }

  /** Damage that spares a prefix is damage to the rest. */
  lemma {:induction false} DamageAfterPrefix(h: seq<Byte>, a: seq<Byte>, b: seq<Byte>)
    requires Damaged(h + a, h + b)
    ensures Damaged(a, b)
  {
    hide OddFlips, BurstAt;
    if OddFlips(h + a, h + b) {
      OddFlipsAfterPrefix(h, a, b);
    } else {
      var p: nat :| BurstAt(h + a, h + b, p);
      BurstAfterPrefix(h, a, b, p);
    }
  }
}
