/** The field of GHASH (section 6.3 of NIST SP 800-38D), as 128-bit strings with bit 0 first. */
module Gf128 {
  type Elem = s: seq<bool> | |s| == 128 witness seq(128, _ => false)

  function Zero(): Elem { seq(128, _ => false) }

  function Xor(a: Elem, b: Elem): Elem {
    seq(128, i requires 0 <= i < 128 => a[i] != b[i])
  }

  /** The string with a single one, at bit `n`: the power `n` of the field's generator. */
  function Unit(n: nat): Elem {
    seq(128, i => i == n)
  }

  /** The reduction string `11100001` followed by zeros. */
  predicate Reduces(i: nat) { i == 0 || i == 1 || i == 2 || i == 7 }

  /** Shift right by one bit, and reduce by what falls out. */
  function MulX(v: Elem): Elem {
    seq(128, i requires 0 <= i < 128 => (i > 0 && v[i - 1]) != (v[127] && Reduces(i)))
  }

  function MulXn(v: Elem, n: nat): Elem
    decreases n, v
  {
    if n == 0 then v else MulXn(MulX(v), n - 1)
  }

  function Select(b: bool, v: Elem): Elem { if b then v else Zero() }

  /** The contribution of bits `i..128` of `x` when `v` is `y` shifted `i` times. */
  function MulFrom(x: Elem, v: Elem, i: nat): Elem
    requires i <= 128
    decreases 128 - i, x
  {
    if i == 128 then Zero() else Xor(Select(x[i], v), MulFrom(x, MulX(v), i + 1))
  }

  function Mul(x: Elem, y: Elem): Elem { MulFrom(x, y, 0) }

  // ── addition ─────────────────────────────────────────────────────────────

  lemma XorLaws(a: Elem, b: Elem, c: Elem)
    ensures Xor(a, b) == Xor(b, a) && Xor(Xor(a, b), c) == Xor(a, Xor(b, c))
    ensures Xor(a, Zero()) == a && Xor(Zero(), a) == a && Xor(a, a) == Zero()
  {
  }

  /** Sums of pairs regroup. */
  lemma XorSwap(a: Elem, b: Elem, c: Elem, d: Elem)
    ensures Xor(Xor(a, b), Xor(c, d)) == Xor(Xor(a, c), Xor(b, d))
  {
  }

  lemma SelectXor(p: bool, q: bool, v: Elem)
    ensures Select(p != q, v) == Xor(Select(p, v), Select(q, v))
  {
  }

  lemma MulXLinear(a: Elem, b: Elem)
    ensures MulX(Xor(a, b)) == Xor(MulX(a), MulX(b)) && MulX(Zero()) == Zero()
  {
  }

  // ── the product is linear in each argument ───────────────────────────────

  lemma {:induction false} MulFromLeft(x: Elem, y: Elem, v: Elem, i: nat)
    requires i <= 128
    ensures MulFrom(Xor(x, y), v, i) == Xor(MulFrom(x, v, i), MulFrom(y, v, i))
    decreases 128 - i, x
  {
    if i == 128 {
      XorLaws(Zero(), Zero(), Zero());
    } else {
      MulFromLeft(x, y, MulX(v), i + 1);
      SelectXor(x[i], y[i], v);
      XorSwap(Select(x[i], v), Select(y[i], v), MulFrom(x, MulX(v), i + 1), MulFrom(y, MulX(v), i + 1));
    }
  }

  lemma {:induction false} MulFromRight(x: Elem, u: Elem, v: Elem, i: nat)
    requires i <= 128
    ensures MulFrom(x, Xor(u, v), i) == Xor(MulFrom(x, u, i), MulFrom(x, v, i))
    decreases 128 - i, x
  {
    if i == 128 {
      XorLaws(Zero(), Zero(), Zero());
    } else {
      MulXLinear(u, v);
      MulFromRight(x, MulX(u), MulX(v), i + 1);
      XorLaws(Zero(), Zero(), Zero());
      XorSwap(Select(x[i], u), Select(x[i], v), MulFrom(x, MulX(u), i + 1), MulFrom(x, MulX(v), i + 1));
    }
  }

  lemma {:induction false} MulFromShift(x: Elem, v: Elem, i: nat)
    requires i <= 128
    ensures MulFrom(x, MulX(v), i) == MulX(MulFrom(x, v, i))
    decreases 128 - i, x
  {
    MulXLinear(Zero(), Zero());
    if i < 128 {
      MulFromShift(x, MulX(v), i + 1);
      MulXLinear(Select(x[i], v), MulFrom(x, MulX(v), i + 1));
    }
  }

  /** Multiplication distributes over addition on both sides. */
  lemma Distributes(x: Elem, y: Elem, z: Elem)
    ensures Mul(Xor(x, y), z) == Xor(Mul(x, z), Mul(y, z))
    ensures Mul(z, Xor(x, y)) == Xor(Mul(z, x), Mul(z, y))
  {
    MulFromLeft(x, y, z, 0);
    MulFromRight(z, x, y, 0);
  }

  lemma {:induction false} ZeroFactor(x: Elem, v: Elem, i: nat)
    requires i <= 128
    ensures MulFrom(Zero(), v, i) == Zero() && MulFrom(x, Zero(), i) == Zero()
    decreases 128 - i, x
  {
    XorLaws(Zero(), Zero(), Zero());
    if i < 128 {
      MulXLinear(Zero(), Zero());
      ZeroFactor(x, MulX(v), i + 1);
      ZeroFactor(x, v, i + 1);
    }
  }

  // ── products of single bits ──────────────────────────────────────────────

  lemma UnitShift(n: nat)
    requires n < 127
    ensures MulX(Unit(n)) == Unit(n + 1)
  {
  }

  lemma {:induction false} UnitPower(n: nat)
    requires n < 128
    ensures Unit(n) == MulXn(Unit(0), n)
  {
    if n > 0 {
      UnitPower(n - 1);
      MulXnLast(Unit(0), n - 1);
      UnitShift(n - 1);
    }
  }

  lemma {:induction false} MulXnLast(v: Elem, n: nat)
    ensures MulXn(v, n + 1) == MulX(MulXn(v, n))
    decreases n
  {
    if n > 0 { MulXnLast(MulX(v), n - 1); }
  }

  lemma {:induction false} MulXnSum(v: Elem, a: nat, b: nat)
    ensures MulXn(MulXn(v, a), b) == MulXn(v, a + b)
    decreases a
  {
    if a > 0 { MulXnSum(MulX(v), a - 1, b); }
  }

  /** Past its one bit, a unit contributes nothing; before it, only shifts. */
  lemma {:induction false} UnitFactor(n: nat, v: Elem, i: nat)
    requires i <= 128 && n < 128
    ensures MulFrom(Unit(n), v, i) == if i <= n then MulXn(v, n - i) else Zero()
    decreases 128 - i
  {
    if i < 128 {
      UnitFactor(n, MulX(v), i + 1);
      XorLaws(v, v, v);
      XorLaws(MulFrom(Unit(n), MulX(v), i + 1), v, v);
    }
  }

  lemma UnitsCommute(m: nat, n: nat)
    requires m < 128 && n < 128
    ensures Mul(Unit(m), Unit(n)) == Mul(Unit(n), Unit(m))
  {
    UnitFactor(m, Unit(n), 0);
    UnitFactor(n, Unit(m), 0);
    UnitPower(m);
    UnitPower(n);
    MulXnSum(Unit(0), m, n);
    MulXnSum(Unit(0), n, m);
  }

  // ── every element is a sum of units ──────────────────────────────────────

  /** The first `n` bits of `x`. */
  function Low(x: Elem, n: nat): Elem {
    seq(128, i requires 0 <= i < 128 => i < n && x[i])
  }

  lemma LowNext(x: Elem, n: nat)
    requires n < 128
    ensures Low(x, n + 1) == if x[n] then Xor(Low(x, n), Unit(n)) else Low(x, n)
    ensures Low(x, 0) == Zero() && Low(x, 128) == x
  {
  }

  lemma {:induction false} UnitCommutes(m: nat, y: Elem, n: nat)
    requires m < 128 && n <= 128
    ensures Mul(Unit(m), Low(y, n)) == Mul(Low(y, n), Unit(m))
  {
    if n == 0 {
      LowNext(y, 0);
      ZeroFactor(Unit(m), Unit(m), 0);
    } else {
      UnitCommutes(m, y, n - 1);
      LowNext(y, n - 1);
      Distributes(Low(y, n - 1), Unit(n - 1), Unit(m));
      UnitsCommute(m, n - 1);
    }
  }

  lemma {:induction false} LowCommutes(x: Elem, n: nat, y: Elem)
    requires n <= 128
    ensures Mul(Low(x, n), y) == Mul(y, Low(x, n))
  {
    if n == 0 {
      LowNext(x, 0);
      ZeroFactor(y, y, 0);
    } else {
      LowCommutes(x, n - 1, y);
      LowNext(x, n - 1);
      Distributes(Low(x, n - 1), Unit(n - 1), y);
      UnitCommutes(n - 1, y, 128);
      LowNext(y, 0);
    }
  }

  /** Multiplication commutes. */
  lemma Commutes(x: Elem, y: Elem)
    ensures Mul(x, y) == Mul(y, x)
  {
    LowNext(x, 0);
    LowCommutes(x, 128, y);
  }

  lemma MulXFactor(v: Elem, z: Elem)
    ensures Mul(MulX(v), z) == MulX(Mul(v, z))
  {
    Commutes(MulX(v), z);
    Commutes(v, z);
    MulFromShift(z, v, 0);
  }

  lemma SelectFactor(b: bool, v: Elem, z: Elem)
    ensures Mul(Select(b, v), z) == Select(b, Mul(v, z))
  {
    ZeroFactor(z, z, 0);
  }

  lemma {:induction false} AssociatesFrom(x: Elem, v: Elem, z: Elem, i: nat)
    requires i <= 128
    ensures Mul(MulFrom(x, v, i), z) == MulFrom(x, Mul(v, z), i)
    decreases 128 - i, x
  {
    if i == 128 {
      ZeroFactor(z, z, 0);
    } else {
      var rest := MulFrom(x, MulX(v), i + 1);
      Distributes(Select(x[i], v), rest, z);
      AssociatesFrom(x, MulX(v), z, i + 1);
      MulXFactor(v, z);
      SelectFactor(x[i], v, z);
    }
  }

  /** Multiplication associates. */
  lemma Associates(x: Elem, y: Elem, z: Elem)
    ensures Mul(Mul(x, y), z) == Mul(x, Mul(y, z))
  {
    AssociatesFrom(x, y, z, 0);
  }

  lemma OneFactor(y: Elem)
    ensures Mul(Unit(0), y) == y && Mul(y, Unit(0)) == y
  {
    UnitFactor(0, y, 0);
    Commutes(y, Unit(0));
  }

  // ── the hash polynomial ──────────────────────────────────────────────────

  function Power(h: Elem, n: nat): Elem {
    if n == 0 then Unit(0) else Mul(h, Power(h, n - 1))
  }

  /** Absorbing blocks one at a time: add, then multiply by `h`. */
  function Horner(h: Elem, x: Elem, blocks: seq<Elem>): Elem {
    if blocks == [] then x else Mul(Xor(Horner(h, x, blocks[..|blocks| - 1]), blocks[|blocks| - 1]), h)
  }

  /** `blocks[0] h^n + blocks[1] h^(n-1) + ... + blocks[n-1] h`. */
  function Polynomial(h: Elem, blocks: seq<Elem>): Elem {
    if blocks == [] then Zero()
    else Xor(Mul(blocks[0], Power(h, |blocks|)), Polynomial(h, blocks[1..]))
  }

  /** Multiplying by one more `h` raises the power in a block's term. */
  lemma TermNext(h: Elem, b: Elem, n: nat)
    ensures Mul(Mul(b, Power(h, n)), h) == Mul(b, Power(h, n + 1))
  {
    Associates(b, Power(h, n), h);
    Commutes(h, Power(h, n));
  }

  lemma FirstPower(h: Elem, n: nat)
    requires n == 1
    ensures Power(h, n) == h
  {
    assert Power(h, n) == Mul(h, Power(h, n - 1));
    OneFactor(h);
  }

  lemma LastTerm(h: Elem, b: Elem)
    ensures Polynomial(h, [b]) == Mul(b, h)
  {
    var rest: seq<Elem> := [];
    assert [b] + rest == [b];
    PolynomialFirst(h, b, rest);
    FirstPower(h, |rest| + 1);
    XorLaws(Mul(b, h), b, b);
  }

  lemma Regroup(a: Elem, p: Elem, b: Elem, h: Elem)
    ensures Mul(Xor(Xor(a, p), b), h) == Xor(Mul(a, h), Mul(Xor(p, b), h))
  {
    XorLaws(a, p, b);
    Distributes(a, Xor(p, b), h);
  }

  lemma PolynomialFirst(h: Elem, b: Elem, rest: seq<Elem>)
    ensures Polynomial(h, [b] + rest) == Xor(Mul(b, Power(h, |rest| + 1)), Polynomial(h, rest))
  {
  }

  /** One more block is added to what is there, and all of it multiplied by `h`. */
  lemma {:induction false} PolynomialNext(h: Elem, blocks: seq<Elem>, b: Elem)
    ensures Polynomial(h, blocks + [b]) == Mul(Xor(Polynomial(h, blocks), b), h)
    decreases |blocks|
  {
    if blocks == [] {
      assert blocks + [b] == [b];
      XorLaws(b, b, b);
      LastTerm(h, b);
    } else {
      var first, rest := blocks[0], blocks[1..];
      assert blocks + [b] == [first] + (rest + [b]) && blocks == [first] + rest;
      PolynomialNext(h, rest, b);
      PolynomialFirst(h, first, rest + [b]);
      PolynomialFirst(h, first, rest);
      TermNext(h, first, |rest| + 1);
      Regroup(Mul(first, Power(h, |rest| + 1)), Polynomial(h, rest), b, h);
    }
  }

  lemma HornerLast(h: Elem, x: Elem, front: seq<Elem>, last: Elem)
    ensures Horner(h, x, front + [last]) == Mul(Xor(Horner(h, x, front), last), h)
  {
  }

  /** The absorb loop computes the polynomial. */
  lemma {:induction false} HornerIsPolynomial(h: Elem, blocks: seq<Elem>)
    ensures Horner(h, Zero(), blocks) == Polynomial(h, blocks)
    decreases |blocks|
  {
    if blocks != [] {
      var front, last := blocks[..|blocks| - 1], blocks[|blocks| - 1];
      HornerIsPolynomial(h, front);
      PolynomialNext(h, front, last);
      assert front + [last] == blocks;
      HornerLast(h, Zero(), front, last);
    }
  }
}
