/**
 The CRC-16/MODBUS shift register as sixteen bits, bit 0 being the one that leaves first.
 Nothing here mentions bytes: a message is a sequence of bits clocked in one at a time.
 The theory of the checksum is proved at this level and carried over to words in Crc16.
 */
module BitRegister {
  import opened Words

  type Register = r: seq<bool> | |r| == 16 witness seq(16, i => false)

  const ZERO: Register := seq(16, i => false)

  /** Number of ones. */
  function Ones(s: seq<bool>): nat {
    if |s| == 0 then 0 else (if s[0] then 1 else 0) + Ones(s[1..])
  }

  /** Whether the number of ones is odd. */
  predicate Odd(s: seq<bool>) {
    |s| > 0 && s[0] != Odd(s[1..])
  }

  /** The register with a bit string added modulo two from bit 0 upwards. */
  function XorLow(r: Register, w: seq<bool>): Register
    requires |w| <= 16
  {
    seq(16, i requires 0 <= i < 16 => r[i] != (i < |w| && w[i]))
  }

  function Flip(s: seq<bool>, i: nat): seq<bool>
    requires i < |s|
  {
    s[i := !s[i]]
  }

  /** One clock: the bit that leaves, added to the input bit, feeds back into bits 0, 13 and 15. */
  function Clock(r: Register, input: bool): Register {
    var shifted := r[1..] + [false];
    if r[0] != input then Flip(Flip(Flip(shifted, 0), 13), 15) else shifted
  }

  function ClockAll(r: Register, w: seq<bool>): Register
    decreases |w|
  {
    if |w| == 0 then r else ClockAll(Clock(r, w[0]), w[1..])
  }

  function Idle(r: Register, n: nat): Register
    decreases n
  {
    if n == 0 then r else Idle(Clock(r, false), n - 1)
  }

  lemma {:induction false} ClockAllAppend(r: Register, v: seq<bool>, w: seq<bool>)
    ensures ClockAll(r, v + w) == ClockAll(ClockAll(r, v), w)
    decreases |v|
  {
    if |v| == 0 {
      assert v + w == w;
    } else {
      assert (v + w)[1..] == v[1..] + w;
      ClockAllAppend(Clock(r, v[0]), v[1..], w);
    }
  }

  lemma AddCommutesWithClock(r: Register, w: seq<bool>)
    requires 1 <= |w| <= 16
    ensures Clock(XorLow(r, w), false) == XorLow(Clock(r, w[0]), w[1..])
  {
    var x := XorLow(r, w);
    forall i | 0 <= i < 16
      ensures Clock(x, false)[i] == XorLow(Clock(r, w[0]), w[1..])[i]
    {
      assert x[0] == (r[0] != w[0]);
      if i < 15 {
        assert x[i + 1] == (r[i + 1] != (i + 1 < |w| && w[i + 1]));
      }
    }
  }

  /** Adding a word first and clocking zeros is clocking the word's bits in. */
  lemma {:induction false} AddThenShift(r: Register, w: seq<bool>)
    requires |w| <= 16
    ensures Idle(XorLow(r, w), |w|) == ClockAll(r, w)
    decreases |w|
  {
    if |w| == 0 {
      assert XorLow(r, w) == r;
    } else {
      AddCommutesWithClock(r, w);
      AddThenShift(Clock(r, w[0]), w[1..]);
    }
  }

  lemma ClockInjective(r: Register, s: Register, b: bool)
    requires Clock(r, b) == Clock(s, b)
    ensures r == s
  {
    assert Clock(r, b)[15] == Clock(s, b)[15];
    forall i | 1 <= i < 16 ensures r[i] == s[i] {
      assert Clock(r, b)[i - 1] == Clock(s, b)[i - 1];
    }
  }

  lemma {:induction false} ClockAllInjective(r: Register, s: Register, w: seq<bool>)
    requires ClockAll(r, w) == ClockAll(s, w)
    ensures r == s
    decreases |w|
  {
    if |w| > 0 {
      ClockAllInjective(Clock(r, w[0]), Clock(s, w[0]), w[1..]);
      ClockInjective(r, s, w[0]);
    }
  }

  /** The two registers carry the same top k bits. */
  predicate TopAgree(r: Register, s: Register, k: nat)
    requires k <= 16
  {
    forall i :: 16 - k <= i < 16 ==> r[i] == s[i]
  }

  /** The feedback bit of a clock can be read off the top of its result. */
  lemma ClockTop(x: Register, y: Register, b: bool, d: bool, k: nat)
    requires 1 <= k <= 16 && TopAgree(Clock(x, b), Clock(y, d), k)
    ensures (x[0] != b) == (y[0] != d)
    ensures TopAgree(x, y, k - 1)
  {
    var p, q := Clock(x, b), Clock(y, d);
    assert (x[0] != b) == p[15] && (y[0] != d) == q[15];
    forall i | 17 - k <= i < 16 ensures x[i] == y[i] {
      assert p[i - 1] == q[i - 1];
    }
  }

  /** From one register, two bit strings of at most 16 bits that leave equal top bits are equal. */
  lemma {:induction false} WindowInjective(r: Register, v: seq<bool>, w: seq<bool>)
    requires |v| == |w| <= 16
    requires TopAgree(ClockAll(r, v), ClockAll(r, w), |v|)
    ensures v == w
    decreases |v|
  {
    var k := |v|;
    if k > 0 {
      var v', w' := v[..k - 1], w[..k - 1];
      assert v == v' + [v[k - 1]] && w == w' + [w[k - 1]];
      ClockAllAppend(r, v', [v[k - 1]]);
      ClockAllAppend(r, w', [w[k - 1]]);
      ClockTop(ClockAll(r, v'), ClockAll(r, w'), v[k - 1], w[k - 1], k);
      WindowInjective(r, v', w');
    }
  }

  /** Burst detection: two bit strings that differ, and differ only inside a window of at
      most 16 bits, never lead from one register to the same register. */
  lemma {:induction false} BurstDetected(r: Register, head: seq<bool>, v: seq<bool>, w: seq<bool>, tail: seq<bool>)
    requires |v| == |w| <= 16 && v != w
    ensures ClockAll(r, head + v + tail) != ClockAll(r, head + w + tail)
  {
    var c := ClockAll(r, head);
    ClockAllAppend(r, head + v, tail);
    ClockAllAppend(r, head, v);
    ClockAllAppend(r, head + w, tail);
    ClockAllAppend(r, head, w);
    if ClockAll(r, head + v + tail) == ClockAll(r, head + w + tail) {
      ClockAllInjective(ClockAll(c, v), ClockAll(c, w), tail);
      WindowInjective(c, v, w);
    }
  }

  lemma {:induction false} IdleZero(n: nat)
    ensures Idle(ZERO, n) == ZERO
  {
    if n > 0 {
      assert Clock(ZERO, false) == ZERO;
      IdleZero(n - 1);
    }
  }

  lemma {:induction false} IdleInjective(r: Register, s: Register, n: nat)
    requires Idle(r, n) == Idle(s, n)
    ensures r == s
    decreases n
  {
    if n > 0 {
      IdleInjective(Clock(r, false), Clock(s, false), n - 1);
      ClockInjective(r, s, false);
    }
  }

  /** Clocking sixteen bits in empties the register exactly when they are its contents. */
  lemma {:induction false} Residue(r: Register, w: seq<bool>)
    requires |w| == 16
    ensures ClockAll(r, w) == ZERO <==> r == w
  {
    AddThenShift(r, w);
    IdleZero(16);
    var x := XorLow(r, w);
    if r == w {
      assert x == ZERO;
    } else {
      var i :| 0 <= i < 16 && r[i] != w[i];
      assert x[i];
      if Idle(x, 16) == ZERO { IdleInjective(x, ZERO, 16); }
    }
  }

  // ----- parity -----

  lemma {:induction false} OddIsOddCount(s: seq<bool>)
    ensures Odd(s) <==> Ones(s) % 2 == 1
  {
    if |s| > 0 { OddIsOddCount(s[1..]); }
  }

  lemma {:induction false} OddAppend(s: seq<bool>, t: seq<bool>)
    ensures Odd(s + t) == (Odd(s) != Odd(t))
    decreases |s|
  {
    if |s| == 0 {
      assert s + t == t;
    } else {
      assert (s + t)[1..] == s[1..] + t;
      OddAppend(s[1..], t);
    }
  }

  lemma {:induction false} FlipParity(s: seq<bool>, i: nat)
    requires i < |s|
    ensures Odd(Flip(s, i)) == !Odd(s)
    decreases i
  {
    if i == 0 {
      assert Flip(s, 0)[1..] == s[1..];
    } else {
      assert Flip(s, i)[1..] == Flip(s[1..], i - 1);
      FlipParity(s[1..], i - 1);
    }
  }

  /** Three feedback taps and the one that left: a clock adds the input bit to the parity. */
  lemma {:induction false} ClockParity(r: Register, b: bool)
    ensures Odd(Clock(r, b)) == (Odd(r) != b)
  {
    var shifted := r[1..] + [false];
    OddAppend(r[1..], [false]);
    FlipParity(shifted, 0);
    FlipParity(Flip(shifted, 0), 13);
    FlipParity(Flip(Flip(shifted, 0), 13), 15);
  }

  lemma {:induction false} ClockAllParity(r: Register, w: seq<bool>)
    ensures Odd(ClockAll(r, w)) == (Odd(r) != Odd(w))
    decreases |w|
  {
    if |w| > 0 {
      ClockParity(r, w[0]);
      ClockAllParity(Clock(r, w[0]), w[1..]);
    }
  }

  lemma {:induction false} XorParity(s: seq<bool>, t: seq<bool>)
    requires |s| == |t|
    ensures Odd(Xor(s, t)) == (Odd(s) != Odd(t))
    decreases |s|
  {
    if |s| > 0 {
      assert Xor(s, t)[1..] == Xor(s[1..], t[1..]);
      XorParity(s[1..], t[1..]);
    }
  }
}
