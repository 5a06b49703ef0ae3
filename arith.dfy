/**
 * The unsigned `size_t` arithmetic of hashgen's sizing and partition code.
 * Sums wrap modulo 2^64. Products, quotients and remainders of unsigned
 * operands are written as functions by repeated addition and subtraction,
 * so that the range proofs reason about them through the lemmas below. The
 * lemmas also show that they agree with `*`, `/` and `%`.
 */
module SizeArith {

  /** 2^64: `size_t` arithmetic is modulo this. */
  const SIZE_MOD: nat := 0x1_0000_0000_0000_0000

  /** Reduction into `size_t`. */
  function Wrap(x: int): (r: nat)
    ensures r < SIZE_MOD
    ensures 0 <= x < SIZE_MOD ==> r == x
  {
    x % SIZE_MOD
  }

  /** Wrapping an intermediate sum does not change the wrapped total. */
  lemma WrapAdd(x: int, y: int)
    ensures Wrap(Wrap(x) + y) == Wrap(x + y)
  {
  }

  /** The wrapped distance from `s` to the wrapped end `s + len - 1`, plus one, is the wrapped length. */
  lemma WrapSpan(s: nat, len: int)
    requires s < SIZE_MOD
    ensures Wrap(Wrap(s + len - 1) - s + 1) == Wrap(len)
  {
    WrapAdd(s + len - 1, 1 - s);
  }

  /** As `WrapSpan`, with `extra` more added to the wrapped end and wrapped again. */
  lemma WrapSpanExtended(s: nat, len: int, extra: int)
    requires s < SIZE_MOD
    ensures Wrap(Wrap(Wrap(s + len - 1) + extra) - s + 1) == Wrap(len + extra)
  {
    WrapAdd(s + len - 1, extra);
    WrapAdd(s + len - 1 + extra, 1 - s);
  }

  /** `a * b` for unsigned operands. */
  function Mul(a: nat, b: nat): (r: nat) {
    if a == 0 then 0 else Mul(a - 1, b) + b
  }

  /** `a / b` for unsigned operands, rounding down. */
  function Div(a: nat, b: nat): (r: nat)
    requires b > 0
    decreases a
  {
    if a < b then 0 else Div(a - b, b) + 1
  }

  /** `a % b` for unsigned operands. */
  function Mod(a: nat, b: nat): (r: nat)
    requires b > 0
    decreases a
  {
    if a < b then a else Mod(a - b, b)
  }

  /** `Mul` is multiplication. */
  lemma {:induction false} MulIsProduct(a: nat, b: nat)
    ensures Mul(a, b) == a * b
  {
    if a > 0 {
      MulIsProduct(a - 1, b);
    }
  }

  /** The operands of `Mul` commute. */
  lemma MulCommutes(a: nat, b: nat)
    ensures Mul(a, b) == Mul(b, a)
  {
    MulIsProduct(a, b);
    MulIsProduct(b, a);
  }

  /** More copies are no smaller. */
  lemma {:induction false} MulMonotone(a: nat, a': nat, b: nat)
    requires a <= a'
    ensures Mul(a, b) <= Mul(a', b)
    decreases a'
  {
    if a < a' {
      MulMonotone(a, a' - 1, b);
    }
  }

  /** The quotient and remainder rebuild the dividend, and the remainder is below the divisor. */
  lemma {:induction false} DivMod(a: nat, b: nat)
    requires b > 0
    ensures Mul(Div(a, b), b) + Mod(a, b) == a
    ensures Mod(a, b) < b
    decreases a
  {
    if a >= b {
      DivMod(a - b, b);
    }
  }

  /** Quotient and remainder are unique: two ways of writing `a` agree. */
  lemma QuotientUnique(a: nat, b: nat, q: nat, r: nat, q': nat, r': nat)
    requires a == Mul(q, b) + r == Mul(q', b) + r' && r < b && r' < b
    ensures q == q' && r == r'
  {
    if q < q' {
      MulMonotone(q + 1, q', b);
    } else if q' < q {
      MulMonotone(q' + 1, q, b);
    }
  }

  /** `Div` and `Mod` are Dafny's `/` and `%`, which agree with C's on unsigned operands. */
  lemma DivIsQuotient(a: nat, b: nat)
    requires b > 0
    ensures Div(a, b) == a / b && Mod(a, b) == a % b
  {
    var q', r' := a / b, a % b;
    assert a == Mul(q', b) + r' && r' < b by {
      MulIsProduct(q', b);
    }
    DivMod(a, b);
    QuotientUnique(a, b, Div(a, b), Mod(a, b), q', r');
  }

  /** The quotient is at least one exactly when the dividend reaches the divisor. */
  lemma DivPositive(a: nat, b: nat)
    requires b > 0
    ensures Div(a, b) >= 1 <==> a >= b
  {
  }
}
