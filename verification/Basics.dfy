/** Shared vocabulary: options, parse results, bytes and machine-word arithmetic. */
module Basics {

  datatype Option<+T> = None | Some(value: T)

  /** What a reader makes of a byte string: nothing, or a value and the number of bytes it took. */
  datatype Parse<+T> = Fail | Read(val: T, used: nat)

  type Byte = b: int | 0 <= b < 256

  const TWO_31 := 0x8000_0000
  const TWO_32 := 0x1_0000_0000
  const TWO_63 := 0x8000_0000_0000_0000
  const TWO_64 := 0x1_0000_0000_0000_0000

  function Pow2(n: nat): (p: nat)
    ensures p >= 1
  {
    if n == 0 then 1 else 2 * Pow2(n - 1)
  }

  /** The bitwise OR of two unsigned words. */
  function BitOr(a: nat, b: nat): nat
    decreases a
  {
    if a == 0 then b
    else 2 * BitOr(a / 2, b / 2) + (if a % 2 == 1 || b % 2 == 1 then 1 else 0)
  }

  lemma {:induction false} Pow2Add(m: nat, n: nat)
    ensures Pow2(m + n) == Pow2(m) * Pow2(n)
  {
    if m > 0 {
      Pow2Add(m - 1, n);
      assert Pow2(m + n) == 2 * Pow2(m - 1 + n);
    }
  }

  /** OR-ing in bits that lie above everything set so far is an addition. */
  lemma {:induction false} BitOrDisjoint(a: nat, k: nat, x: nat)
    requires a < Pow2(k)
    ensures BitOr(a, x * Pow2(k)) == a + x * Pow2(k)
    decreases k
  {
    if k == 0 {
    } else if a != 0 {
      var h := x * Pow2(k - 1);
      assert x * Pow2(k) == 2 * h by { assert Pow2(k) == 2 * Pow2(k - 1); }
      assert x * Pow2(k) / 2 == h && x * Pow2(k) % 2 == 0;
      BitOrDisjoint(a / 2, k - 1, x);
    }
  }

  /** Powers of two by value, for the shift counts the varint code uses. */
  lemma {:induction false} Pow2Values()
    ensures Pow2(7) == 0x80 && Pow2(14) == 0x4000 && Pow2(21) == 0x20_0000 && Pow2(28) == 0x1000_0000
    ensures Pow2(31) == TWO_31 && Pow2(32) == TWO_32
    ensures Pow2(35) == 0x8_0000_0000 && Pow2(63) == TWO_63 && Pow2(64) == TWO_64
  {
    assert Pow2(7) == 0x80 && Pow2(3) == 8 && Pow2(4) == 16;
    hide Pow2;
    Pow2Add(7, 7);
    Pow2Add(14, 7);
    Pow2Add(21, 7);
    Pow2Add(28, 3);
    Pow2Add(28, 4);
    Pow2Add(28, 7);
    Pow2Add(28, 35);
    Pow2Add(32, 32);
  }

  lemma {:induction false} Division(n: nat, q: nat)
    requires q > 0
    ensures n == n / q * q + n % q && n % q < q
  {
    assert n == q * (n / q) + n % q;
  }

  /** A quotient is determined by its remainder. */
  lemma {:induction false} QuotientIs(h: nat, q: nat, low: nat)
    requires low < q
    ensures (h * q + low) / q == h
  {
    var n := h * q + low;
    assert n == q * (n / q) + n % q;
    TimesMono(n / q + 1, h, q);
    TimesMono(h + 1, n / q, q);
  }

  lemma {:induction false} TimesMono(a: nat, b: nat, q: nat)
    ensures a <= b ==> a * q <= b * q
  {
  }
}
