/**
 Unsigned bytes and 16-bit words as bounded integers. The machine operators the source
 applies to them are written out: shifts are division and multiplication by powers of
 two, and exclusive or goes through the binary digits, least significant digit first.
 */
module Words {

  datatype Option<+T> = None | Some(value: T)

  type Byte = b: int | 0 <= b < 256
  type Word = w: int | 0 <= w < 65536

  function Pow2(n: nat): (p: nat)
    ensures p > 0
  {
    if n == 0 then 1 else 2 * Pow2(n - 1)
  }

  /** Binary digit i of x. */
  function Digit(x: nat, i: nat): bool
    decreases i
  {
    if i == 0 then x % 2 == 1 else Digit(x / 2, i - 1)
  }

  /** The n low binary digits of x, least significant first. */
  function Bits(x: nat, n: nat): (w: seq<bool>)
    ensures |w| == n && forall i :: 0 <= i < n ==> w[i] == Digit(x, i)
  {
    seq(n, i requires 0 <= i < n => Digit(x, i))
  }

  function Value(w: seq<bool>): (x: nat)
    ensures x < Pow2(|w|)
  {
    if |w| == 0 then 0 else (if w[0] then 1 else 0) + 2 * Value(w[1..])
  }

  lemma {:induction false} BitsOfValue(w: seq<bool>)
    ensures Bits(Value(w), |w|) == w
  {
    if |w| > 0 {
      BitsOfValue(w[1..]);
      assert Value(w) / 2 == Value(w[1..]);
      forall i | 0 < i < |w| ensures Digit(Value(w), i) == w[i] {
        assert Bits(Value(w[1..]), |w| - 1)[i - 1] == w[1..][i - 1];
      }
    }
  }

  lemma {:induction false} ValueOfBits(x: nat, n: nat)
    requires x < Pow2(n)
    ensures Value(Bits(x, n)) == x
    decreases n
  {
    if n > 0 {
      ValueOfBits(x / 2, n - 1);
      assert Bits(x, n)[1..] == Bits(x / 2, n - 1);
    }
  }

  /** Bits where two sequences of the same length differ. */
  function Xor(s: seq<bool>, t: seq<bool>): (u: seq<bool>)
    requires |s| == |t|
    ensures |u| == |s| && forall i :: 0 <= i < |s| ==> u[i] == (s[i] != t[i])
  {
    seq(|s|, i requires 0 <= i < |s| => s[i] != t[i])
  }

  lemma Pow16()
    ensures Pow2(16) == 65536 && Pow2(8) == 256
  {
    assert Pow2(8) == 256;
    assert Pow2(16) == 65536;
  }

  /** Exclusive or of two words. */
  function XorWord(a: Word, b: Word): Word {
    Pow16();
    Value(Xor(Bits(a, 16), Bits(b, 16)))
  }

  function Low(w: Word): Byte { w % 256 }

  function High(w: Word): Byte { w / 256 }

  function Join(low: Byte, high: Byte): Word { low + 256 * high }

  lemma SplitJoin(low: Byte, high: Byte)
    ensures Low(Join(low, high)) == low && High(Join(low, high)) == high
  {}

  lemma JoinSplit(w: Word)
    ensures Join(Low(w), High(w)) == w
  {}

  lemma WordBitsInjective(a: Word, b: Word)
    requires Bits(a, 16) == Bits(b, 16)
    ensures a == b
  {
    Pow16();
    ValueOfBits(a, 16);
    ValueOfBits(b, 16);
  }

  lemma ByteBitsInjective(a: Byte, b: Byte)
    requires Bits(a, 8) == Bits(b, 8)
    ensures a == b
  {
    Pow16();
    ValueOfBits(a, 8);
    ValueOfBits(b, 8);
  }

  lemma XorWordBits(a: Word, b: Word)
    ensures Bits(XorWord(a, b), 16) == Xor(Bits(a, 16), Bits(b, 16))
  {
    BitsOfValue(Xor(Bits(a, 16), Bits(b, 16)));
  }

  lemma {:induction false} ZeroDigit(i: nat)
    ensures !Digit(0, i)
  {
    if i > 0 { ZeroDigit(i - 1); }
  }

  lemma {:induction false} HighDigit(x: nat, n: nat)
    requires x < Pow2(n)
    ensures !Digit(x, n)
    decreases n
  {
    if n > 0 { HighDigit(x / 2, n - 1); }
  }

  lemma {:induction false} AllOnesDigit(n: nat, i: nat)
    requires i < n
    ensures Digit(Pow2(n) - 1, i)
    decreases n
  {
    if i > 0 {
      assert (Pow2(n) - 1) / 2 == Pow2(n - 1) - 1;
      AllOnesDigit(n - 1, i - 1);
    }
  }

  /** Adding a power of two where its digit is missing sets that digit and no other. */
  lemma {:induction false} SetDigit(x: nat, k: nat, i: nat)
    requires !Digit(x, k)
    ensures Digit(x + Pow2(k), i) == (i == k || Digit(x, i))
    decreases k
  {
    if k > 0 && i > 0 {
      assert (x + Pow2(k)) / 2 == x / 2 + Pow2(k - 1);
      SetDigit(x / 2, k - 1, i - 1);
    } else if k == 0 && i > 0 {
      assert (x + 1) / 2 == x / 2;
    }
  }

  lemma {:induction false} DigitsOn(x: nat, i: nat)
    ensures Digit(x, i + 4) == Digit(x / 16, i)
  {
    assert x / 2 / 2 / 2 / 2 == x / 16;
    assert Digit(x, i + 4) == Digit(x / 2, i + 3) == Digit(x / 2 / 2, i + 2) == Digit(x / 2 / 2 / 2, i + 1);
  }

  lemma {:induction false} LowDigits(x: nat)
    ensures Digit(x, 0) == (x % 2 == 1) && Digit(x, 1) == (x / 2 % 2 == 1)
  {}

  /** The complement within n digits. */
  lemma {:induction false} ComplementDigit(x: nat, n: nat, i: nat)
    requires x < Pow2(n) && i < n
    ensures Digit((Pow2(n) - 1 - x) as nat, i) == !Digit(x, i)
    decreases n
  {
    if i > 0 {
      assert (Pow2(n) - 1 - x) / 2 == Pow2(n - 1) - 1 - x / 2;
      ComplementDigit(x / 2, n - 1, i - 1);
    }
  }

  /** Shifting right by one bit moves every digit down and brings in a zero. */
  lemma {:induction false} HalfBits(x: nat, n: nat)
    requires x < Pow2(n) && n > 0
    ensures Bits(x / 2, n) == Bits(x, n)[1..] + [false]
  {
    HighDigit(x, n);
  }

  lemma {:induction false} JoinDigit(low: nat, high: nat, n: nat, i: nat)
    requires low < Pow2(n)
    ensures Digit(low + Pow2(n) * high, i) == if i < n then Digit(low, i) else Digit(high, i - n)
    decreases n
  {
    if n > 0 {
      var x := low + Pow2(n) * high;
      assert Pow2(n) * high == 2 * (Pow2(n - 1) * high);
      assert x / 2 == low / 2 + Pow2(n - 1) * high && x % 2 == low % 2;
      if i > 0 { JoinDigit(low / 2, high, n - 1, i - 1); }
    }
  }

  lemma JoinBits(low: Byte, high: Byte)
    ensures Bits(Join(low, high), 16) == Bits(low, 8) + Bits(high, 8)
  {
    Pow16();
    forall i | 0 <= i < 16
      ensures Bits(Join(low, high), 16)[i] == (Bits(low, 8) + Bits(high, 8))[i]
    {
      JoinDigit(low, high, 8, i);
    }
  }

  // ----- sequences of pieces -----

  function Concat<T>(pieces: seq<seq<T>>): seq<T> {
    if |pieces| == 0 then [] else pieces[0] + Concat(pieces[1..])
  }

  lemma {:induction false} ConcatLast<T>(pieces: seq<seq<T>>, last: seq<T>)
    ensures Concat(pieces + [last]) == Concat(pieces) + last
  {
    if |pieces| == 0 {
      assert (pieces + [last])[1..] == [];
    } else {
      assert (pieces + [last])[1..] == pieces[1..] + [last];
      ConcatLast(pieces[1..], last);
    }
  }
}
