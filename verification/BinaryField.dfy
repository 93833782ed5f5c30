/**
 Fields of characteristic two as the BN_GF2m routines present them: an element is its bits in the polynomial
 basis, and adding is exclusive or of the bits. Everything else about the field is a hypothesis.
 */
module BinaryField {

  /** Operations on elements; `bit(a, i)` is the coefficient of x^i in a. */
  datatype Field<!F> = Field(zero: F, one: F, add: (F, F) -> F, mul: (F, F) -> F, inv: F -> F, bit: (F, nat) -> bool)
  {
    function Sq(a: F): F {
      mul(a, a)
    }

    /** field_div. */
    function Div(a: F, b: F): F {
      mul(a, inv(b))
    }

    function Add3(a: F, b: F, c: F): F {
      add(add(a, b), c)
    }

    function Add4(a: F, b: F, c: F, d: F): F {
      add(add(add(a, b), c), d)
    }
  }

  /** Elements are strings of bits, and addition is bitwise. */
  ghost predicate BitwiseAdd<F(!new)>(f: Field<F>) {
    && (forall i: nat :: !f.bit(f.zero, i))
    && (forall a, b, i: nat :: f.bit(f.add(a, b), i) == (f.bit(a, i) != f.bit(b, i)))
    && (forall a, b :: Agree(f, a, b) ==> a == b)
  }

  ghost predicate Agree<F(!new)>(f: Field<F>, a: F, b: F) {
    forall i: nat :: f.bit(a, i) == f.bit(b, i)
  }

  /** The laws at three elements: a name of its own, so that nothing unfolds them but a proof that asks. */
  ghost predicate MulLawsAt<F>(f: Field<F>, a: F, b: F, c: F) {
    && f.mul(a, f.one) == a
    && f.mul(a, b) == f.mul(b, a)
    && f.mul(f.mul(a, b), c) == f.mul(a, f.mul(b, c))
    && f.mul(f.add(a, b), c) == f.add(f.mul(a, c), f.mul(b, c))
    && (a != f.zero ==> f.mul(a, f.inv(a)) == f.one)
  }

  ghost predicate MulLaws<F(!new)>(f: Field<F>) {
    f.one != f.zero && forall a, b, c :: MulLawsAt(f, a, b, c)
  }

  ghost predicate IsField<F(!new)>(f: Field<F>) {
    BitwiseAdd(f) && MulLaws(f)
  }

  // ---------- addition ----------

  /** Sums are compared bit by bit. */
  lemma SameBits<F(!new)>(f: Field<F>, a: F, b: F)
    requires BitwiseAdd(f) && forall i: nat :: f.bit(a, i) == f.bit(b, i)
    ensures a == b
  {
    assert Agree(f, a, b);
  }

  lemma AddZero<F(!new)>(f: Field<F>, a: F)
    requires IsField(f)
    ensures f.add(a, f.zero) == a == f.add(f.zero, a) && f.add(a, a) == f.zero
  {
    hide MulLaws;
    SameBits(f, f.add(a, f.zero), a);
    SameBits(f, f.add(f.zero, a), a);
    SameBits(f, f.add(a, a), f.zero);
  }

  lemma AddCommute<F(!new)>(f: Field<F>, a: F, b: F)
    requires IsField(f)
    ensures f.add(a, b) == f.add(b, a)
  {
    hide MulLaws;
    SameBits(f, f.add(a, b), f.add(b, a));
  }

  /** a + b = 0 exactly when a = b. */
  lemma AddIsZero<F(!new)>(f: Field<F>, a: F, b: F)
    requires IsField(f)
    ensures f.add(a, b) == f.zero <==> a == b
  {
    AddZero(f, a);
    hide MulLaws;
    if f.add(a, b) == f.zero {
      forall i: nat
        ensures f.bit(a, i) == f.bit(b, i)
      {
        assert !f.bit(f.add(a, b), i);
      }
      SameBits(f, a, b);
    }
  }

  /** A term added twice is gone. */
  lemma AddTwice<F(!new)>(f: Field<F>, a: F, b: F)
    requires IsField(f)
    ensures f.add(f.add(a, b), b) == a && f.add(b, f.add(b, a)) == a
  {
    hide MulLaws;
    SameBits(f, f.add(f.add(a, b), b), a);
    SameBits(f, f.add(b, f.add(b, a)), a);
  }

  // ---------- multiplication ----------

  lemma MulCommute<F(!new)>(f: Field<F>, a: F, b: F)
    requires IsField(f)
    ensures f.mul(a, b) == f.mul(b, a)
  {
    hide BitwiseAdd;
    assert MulLawsAt(f, a, b, a);
  }

  lemma MulAssoc<F(!new)>(f: Field<F>, a: F, b: F, c: F)
    requires IsField(f)
    ensures f.mul(f.mul(a, b), c) == f.mul(a, f.mul(b, c))
  {
    hide BitwiseAdd;
    assert MulLawsAt(f, a, b, c);
  }

  lemma Dist<F(!new)>(f: Field<F>, a: F, b: F, c: F)
    requires IsField(f)
    ensures f.mul(f.add(a, b), c) == f.add(f.mul(a, c), f.mul(b, c))
    ensures f.mul(c, f.add(a, b)) == f.add(f.mul(c, a), f.mul(c, b))
  {
    hide BitwiseAdd;
    assert MulLawsAt(f, a, b, c);
    MulCommute(f, f.add(a, b), c);
    MulCommute(f, a, c);
    MulCommute(f, b, c);
  }

  lemma MulOne<F(!new)>(f: Field<F>, a: F)
    requires IsField(f)
    ensures f.mul(a, f.one) == a == f.mul(f.one, a) && f.one != f.zero
  {
    hide BitwiseAdd;
    assert MulLawsAt(f, a, a, a);
    MulCommute(f, a, f.one);
  }

  lemma MulZero<F(!new)>(f: Field<F>, a: F)
    requires IsField(f)
    ensures f.mul(f.zero, a) == f.zero == f.mul(a, f.zero)
  {
    AddZero(f, f.zero);
    Dist(f, f.zero, f.zero, a);
    AddZero(f, f.mul(f.zero, a));
    MulCommute(f, f.zero, a);
  }

  lemma Inverse<F(!new)>(f: Field<F>, a: F)
    requires IsField(f) && a != f.zero
    ensures f.mul(a, f.inv(a)) == f.one == f.mul(f.inv(a), a)
  {
    hide BitwiseAdd;
    assert MulLawsAt(f, a, a, a);
    MulCommute(f, a, f.inv(a));
  }

  /** Division undoes multiplication. */
  lemma DivMul<F(!new)>(f: Field<F>, a: F, b: F)
    requires IsField(f) && b != f.zero
    ensures f.mul(f.Div(a, b), b) == a && f.Div(f.mul(a, b), b) == a
  {
    hide IsField;
    MulAssoc(f, a, f.inv(b), b);
    MulAssoc(f, a, b, f.inv(b));
    Inverse(f, b);
    MulOne(f, a);
  }

  lemma Cancel<F(!new)>(f: Field<F>, a: F, b: F, c: F)
    requires IsField(f) && c != f.zero && f.mul(a, c) == f.mul(b, c)
    ensures a == b
  {
    hide IsField;
    DivMul(f, a, c);
    DivMul(f, b, c);
  }

  lemma NonzeroProduct<F(!new)>(f: Field<F>, a: F, b: F)
    requires IsField(f)
    ensures f.mul(a, b) == f.zero <==> a == f.zero || b == f.zero
  {
    hide IsField;
    MulZero(f, a);
    MulZero(f, b);
    if f.mul(a, b) == f.zero && b != f.zero {
      Cancel(f, a, f.zero, b);
    }
  }

  /** (a b)(c d) = (a c)(b d). */
  lemma Mul4<F(!new)>(f: Field<F>, a: F, b: F, c: F, d: F)
    requires IsField(f)
    ensures f.mul(f.mul(a, b), f.mul(c, d)) == f.mul(f.mul(a, c), f.mul(b, d))
  {
    hide IsField;
    MulAssoc(f, a, b, f.mul(c, d));
    MulAssoc(f, b, c, d);
    MulCommute(f, b, c);
    MulAssoc(f, c, b, d);
    MulAssoc(f, a, c, f.mul(b, d));
  }

  /** Squaring is additive. */
  lemma Frobenius<F(!new)>(f: Field<F>, a: F, b: F)
    requires IsField(f)
    ensures f.Sq(f.add(a, b)) == f.add(f.Sq(a), f.Sq(b))
  {
    Dist(f, a, b, f.add(a, b));
    Dist(f, a, b, a);
    Dist(f, a, b, b);
    MulCommute(f, a, b);
    hide MulLaws;
    SameBits(f, f.add(f.add(f.mul(a, a), f.mul(a, b)), f.add(f.mul(b, a), f.mul(b, b))), f.add(f.Sq(a), f.Sq(b)));
  }
}
