/** The range of a 64-bit word, and the lowest bit of a number. */
module PowersOfTwo {

  /** Unsigned 64-bit words wrap here. */
  const WORD: nat := 0x1_0000_0000_0000_0000

  /** The largest power of two that divides a step; a word's worth for zero. */
  function LowBit(n: nat): (bit: nat)
    ensures bit > 0
  {
    if n == 0 then WORD else if n % 2 == 1 then 1 else 2 * LowBit(n / 2)
  }

  predicate IsPowerOfTwo(p: nat) { p == 1 || (p > 0 && p % 2 == 0 && IsPowerOfTwo(p / 2)) }

  lemma Doubled(a: nat, b: nat)
    ensures 2 * a * b == 2 * (a * b) == a * (2 * b)
  {}

  /** A number below a power of two is an odd multiple of its lowest bit, and so is that power an even one. */
  lemma {:induction false} LowBitParts(n: nat, p: nat) returns (m: nat, h: nat)
    requires 0 < n < p && IsPowerOfTwo(p)
    ensures n == LowBit(n) * m && m % 2 == 1
    ensures p == LowBit(n) * h && IsPowerOfTwo(h)
  {
    if n % 2 == 1 {
      m, h := n, p;
    } else {
      m, h := LowBitParts(n / 2, p / 2);
      Doubled(LowBit(n / 2), m);
      Doubled(LowBit(n / 2), h);
    }
  }

  /** An odd number has a multiple one below a multiple of any power of two. */
  lemma {:induction false} OneBelow(m: nat, h: nat) returns (c: nat, t: nat)
    requires m % 2 == 1 && IsPowerOfTwo(h)
    ensures c > 0 && t > 0 && c * m + 1 == t * h
    decreases h
  {
    hide IsPowerOfTwo;
    if h == 1 {
      c, t := 1, m + 1;
    } else {
      HalfOfPower(h);
      c, t := OneBelow(m, h / 2);
      c, t := OneBelowTwice(m, h / 2, c, t);
    }
  }

  lemma OneBelowTwice(m: nat, half: nat, c: nat, t: nat) returns (c': nat, t': nat)
    requires m % 2 == 1 && c > 0 && t > 0 && c * m + 1 == t * half
    ensures c' > 0 && t' > 0 && c' * m + 1 == t' * (2 * half)
  {
    if t % 2 == 0 {
      c', t' := c, t / 2;
      EvenTimes(t, half);
    } else {
      c', t' := c + half, (t + m) / 2;
      AddBoth(c, half, m, t);
      EvenTimes(t + m, half);
    }
  }

  lemma HalfOfPower(h: nat)
    requires IsPowerOfTwo(h) && h != 1
    ensures h == 2 * (h / 2) > 1 && IsPowerOfTwo(h / 2)
  {}

  lemma DoubleOfPower(p: nat)
    requires IsPowerOfTwo(p)
    ensures IsPowerOfTwo(2 * p)
  {}

  lemma EvenTimes(times: nat, half: nat)
    requires times % 2 == 0
    ensures times * half == times / 2 * (2 * half)
  {
    Doubled(times / 2, half);
  }

  lemma AddBoth(c: nat, half: nat, m: nat, t: nat)
    requires c * m + 1 == t * half
    ensures (c + half) * m + 1 == (t + m) * half
  {
    assert (c + half) * m == c * m + half * m && (t + m) * half == t * half + m * half;
  }

  lemma WordIsPowerOfTwo()
    ensures IsPowerOfTwo(WORD)
  {
    PowerTimes(2, 2);
    PowerTimes(4, 4);
    PowerTimes(0x10, 0x10);
    PowerTimes(0x100, 0x100);
    PowerTimes(0x1_0000, 0x1_0000);
    PowerTimes(0x1_0000_0000, 0x1_0000_0000);
  }

  lemma {:induction false} PowerTimes(a: nat, b: nat)
    requires IsPowerOfTwo(a) && IsPowerOfTwo(b)
    ensures IsPowerOfTwo(a * b)
    decreases a
  {
    hide IsPowerOfTwo;
    if a == 1 {
      assert a * b == b;
    } else {
      HalfOfPower(a);
      PowerTimes(a / 2, b);
      Doubled(a / 2, b);
      DoubleOfPower(a / 2 * b);
    }
  }

  lemma BitWithinWord(bit: nat, h: nat)
    requires WORD == bit * h && bit > 0
    ensures bit <= WORD
  {
    assert h > 0;
    assert bit * h == bit + bit * (h - 1) && bit * (h - 1) >= 0;
  }

  lemma BelowMultiple(bit: nat, q: int, h: nat)
    requires bit > 0 && bit * q < bit * h
    ensures bit * q <= bit * h - bit
  {
    assert q < h;
    assert bit * h - bit == bit * q + bit * (h - 1 - q) && bit * (h - 1 - q) >= 0;
  }
}
