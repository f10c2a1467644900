/** Powers of two, shifts and the single-bit operations that the kernel applies to page numbers. */
module Bits {

  function Pow2(n: nat): (r: nat)
    ensures r > 0
  {
    if n == 0 then 1 else 2 * Pow2(n - 1)
  }

  function Min(a: nat, b: nat): nat {
    if a < b then a else b
  }

  function Max(a: nat, b: nat): nat {
    if a < b then b else a
  }

  /** `p >> n` */
  function Shift(p: nat, n: nat): nat {
    if n == 0 then p else Shift(p / 2, n - 1)
  }

  /** Bitwise exclusive or. */
  function Xor(a: nat, b: nat): nat {
    if a == 0 && b == 0 then 0
    else 2 * Xor(a / 2, b / 2) + (if a % 2 == b % 2 then 0 else 1)
  }

  /** Bitwise and. */
  function And(a: nat, b: nat): nat {
    if a == 0 || b == 0 then 0
    else 2 * And(a / 2, b / 2) + (if a % 2 == 1 && b % 2 == 1 then 1 else 0)
  }

  /** The low `n` bits of `b` are zero. */
  predicate Aligned(b: nat, n: nat) {
    n == 0 || (b % 2 == 0 && Aligned(b / 2, n - 1))
  }

  /** Page `p` belongs to the block of `2^n` pages that starts at `b`. */
  predicate Within(p: nat, b: nat, n: nat) {
    b <= p < b + Pow2(n)
  }

  /** Two pages that agree above bit `m` agree above every higher bit. */
  lemma {:induction false} ShiftCongruent(p: nat, q: nat, m: nat, n: nat)
    requires m <= n && Shift(p, m) == Shift(q, m)
    ensures Shift(p, n) == Shift(q, n)
  {
    if m > 0 {
      ShiftCongruent(p / 2, q / 2, m - 1, n - 1);
    }
  }

  /** The pages of an aligned block are exactly those with the block's shift. */
  lemma {:induction false} WithinIsShift(p: nat, b: nat, n: nat)
    requires Aligned(b, n)
    ensures Within(p, b, n) <==> Shift(p, n) == Shift(b, n)
  {
    if n > 0 {
      WithinIsShift(p / 2, b / 2, n - 1);
    }
  }

  lemma {:induction false} AlignedDown(b: nat, m: nat, n: nat)
    requires m <= n && Aligned(b, n)
    ensures Aligned(b, m)
  {
    if m > 0 { AlignedDown(b / 2, m - 1, n - 1); }
  }

  lemma {:induction false} AlignedNext(b: nat, m: nat)
    requires Aligned(b, m)
    ensures Aligned(b + Pow2(m), m)
  {
    if m > 0 {
      AlignedNext(b / 2, m - 1);
      assert (b + Pow2(m)) / 2 == b / 2 + Pow2(m - 1);
    }
  }

  lemma {:induction false} Pow2Monotone(m: nat, n: nat)
    requires m <= n
    ensures Pow2(m) <= Pow2(n)
  {
    if m > 0 { Pow2Monotone(m - 1, n - 1); }
  }

  lemma {:induction false} SameSize(m: nat, n: nat)
    requires m <= n && Pow2(n) <= Pow2(m)
    ensures m == n
  {
    if m > 0 { SameSize(m - 1, n - 1); }
  }

  /** The mask test of the source, `p & (2^n - 1) == 0`, is alignment. */
  lemma {:induction false} MaskTest(p: nat, n: nat)
    ensures And(p, Pow2(n) - 1) == 0 <==> Aligned(p, n)
  {
    if n > 0 {
      MaskTest(p / 2, n - 1);
      assert (Pow2(n) - 1) / 2 == Pow2(n - 1) - 1;
      if p / 2 == 0 { AlignedZero(n - 1); }
    }
  }

  lemma {:induction false} AlignedZero(n: nat)
    ensures Aligned(0, n)
  {
    if n > 0 { AlignedZero(n - 1); }
  }

  lemma {:induction false} XorZero(a: nat)
    ensures Xor(a, 0) == a
  {
    if a > 0 { XorZero(a / 2); }
  }

  /**
   * Flipping bit `n` of a page aligned to `2^n`: the result is the other half of the enclosing block of
   * `2^(n+1)` pages, and flipping twice is the identity.
   */
  lemma {:induction false} FlipBit(b: nat, n: nat)
    requires Aligned(b, n)
    ensures var c := Xor(b, Pow2(n));
      && Aligned(c, n)
      && Xor(c, Pow2(n)) == b
      && (Aligned(b, n + 1) ==> c == b + Pow2(n))
      && (!Aligned(b, n + 1) ==> b == c + Pow2(n) && Aligned(c, n + 1))
  {
    if n == 0 {
      FlipLowest(b);
      assert Aligned(b, 1) <==> b % 2 == 0;
      assert Aligned(Xor(b, 1), 1) <==> Xor(b, 1) % 2 == 0;
    } else {
      var h := b / 2;
      FlipBit(h, n - 1);
      XorDouble(h, Pow2(n - 1));
      XorDouble(Xor(h, Pow2(n - 1)), Pow2(n - 1));
      assert b == 2 * h && Pow2(n) == 2 * Pow2(n - 1);
      AlignedDouble(h, n);
      AlignedDouble(Xor(h, Pow2(n - 1)), n - 1);
      AlignedDouble(Xor(h, Pow2(n - 1)), n);
    }
  }

  lemma FlipLowest(b: nat)
    ensures Xor(b, 1) == if b % 2 == 0 then b + 1 else b - 1
  {
    XorZero(b / 2);
  }

  lemma XorDouble(a: nat, b: nat)
    ensures Xor(2 * a, 2 * b) == 2 * Xor(a, b)
  {
    assert (2 * a) / 2 == a && (2 * b) / 2 == b;
  }

  lemma AlignedDouble(a: nat, n: nat)
    ensures Aligned(2 * a, n + 1) <==> Aligned(a, n)
  {
    assert (2 * a) / 2 == a;
  }

  /** Alignment is divisibility. */
  lemma {:induction false} AlignedIsMultiple(b: nat, n: nat)
    requires Aligned(b, n)
    ensures b == Pow2(n) * Shift(b, n)
  {
    if n > 0 {
      AlignedIsMultiple(b / 2, n - 1);
      assert b == 2 * (Pow2(n - 1) * Shift(b / 2, n - 1));
    }
  }
}
