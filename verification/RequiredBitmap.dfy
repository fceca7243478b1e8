/** The fields_seen words of pb_decode_noinit as sets of required-field indices. */
module RequiredBitmap {
  import opened Basics

  /** The n-bit word whose bit k is set when lo + k is in the set. */
  ghost function Word(seen: set<nat>, lo: nat, n: nat): nat
    decreases n
  {
    if n == 0 then 0 else 2 * Word(seen, lo + 1, n - 1) + (if lo in seen then 1 else 0)
  }

  lemma {:induction false} OrZero(a: nat)
    ensures BitOr(a, 0) == a
  {
    if a != 0 {
      OrZero(a / 2);
    }
  }

  lemma {:induction false} OrUnfold(h: nat, bit: nat, b: nat)
    requires bit <= 1
    ensures BitOr(2 * h + bit, b) == 2 * BitOr(h, b / 2) + (if bit == 1 || b % 2 == 1 then 1 else 0)
  {
    if 2 * h + bit != 0 {
      assert (2 * h + bit) / 2 == h && (2 * h + bit) % 2 == bit;
    }
  }

  /** OR-ing in one bit adds one element to the set. */
  lemma {:induction false} OrBit(seen: set<nat>, lo: nat, n: nat, k: nat)
    requires k < n
    ensures BitOr(Word(seen, lo, n), Pow2(k)) == Word(seen + {lo + k}, lo, n)
    decreases n
  {
    if k == 0 {
      OrLowest(seen, lo, n);
    } else {
      OrBit(seen, lo + 1, n - 1, k - 1);
      assert lo + 1 + (k - 1) == lo + k;
      OrHigher(seen, seen + {lo + k}, lo, n, Pow2(k - 1));
      assert Pow2(k) == 2 * Pow2(k - 1);
    }
  }

  lemma {:induction false} OrLowest(seen: set<nat>, lo: nat, n: nat)
    requires n > 0
    ensures BitOr(Word(seen, lo, n), Pow2(0)) == Word(seen + {lo}, lo, n)
  {
    hide BitOr;
    var h, bit := Word(seen, lo + 1, n - 1), if lo in seen then 1 else 0;
    OrUnfold(h, bit, 1);
    OrZero(h);
    WordFrame(seen, lo + 1, n - 1, lo);
  }

  lemma {:induction false} OrHigher(seen: set<nat>, seen': set<nat>, lo: nat, n: nat, p: nat)
    requires n > 0 && (lo in seen <==> lo in seen')
    requires BitOr(Word(seen, lo + 1, n - 1), p) == Word(seen', lo + 1, n - 1)
    ensures BitOr(Word(seen, lo, n), 2 * p) == Word(seen', lo, n)
  {
    hide BitOr;
    OrUnfold(Word(seen, lo + 1, n - 1), if lo in seen then 1 else 0, 2 * p);
  }

  /** An element outside the range of a word does not change it. */
  lemma {:induction false} WordFrame(seen: set<nat>, lo: nat, n: nat, x: nat)
    requires x < lo || lo + n <= x
    ensures Word(seen + {x}, lo, n) == Word(seen, lo, n)
    decreases n
  {
    if n > 0 {
      WordFrame(seen, lo + 1, n - 1, x);
    }
  }

  lemma {:induction false} WordEmpty(lo: nat, n: nat)
    ensures Word({}, lo, n) == 0
    decreases n
  {
    if n > 0 {
      WordEmpty(lo + 1, n - 1);
    }
  }

  /** A word has all its low r bits set, and no other, exactly when those r elements are present and no more. */
  lemma {:induction false} WordAllOnes(seen: set<nat>, lo: nat, n: nat, r: nat)
    requires r <= n && forall j :: lo + r <= j < lo + n ==> j !in seen
    ensures Word(seen, lo, n) <= Pow2(r) - 1
    ensures Word(seen, lo, n) == Pow2(r) - 1 <==> forall j :: lo <= j < lo + r ==> j in seen
    decreases n
  {
    if n > 0 {
      if r > 0 {
        WordAllOnes(seen, lo + 1, n - 1, r - 1);
        assert (forall j :: lo <= j < lo + r ==> j in seen) <==> lo in seen && forall j :: lo + 1 <= j < lo + r ==>
            j in seen;
      } else {
        WordAllOnes(seen, lo + 1, n - 1, 0);
      }
    }
  }
}
