/** Polynomials over GF(2), the reference the table arithmetic of the ICE cipher is measured against.
    A polynomial is the finite set of exponents whose coefficient is 1, so addition is symmetric
    difference and a product's coefficient is the parity of the number of ways to reach the exponent. */
module Gf2Polynomials {

  type Poly = set<nat>

  const ONE: Poly := {0}

  function Add(p: Poly, q: Poly): Poly {
    (p - q) + (q - p)
  }

  function Shift(p: Poly, n: nat): Poly {
    set i | i in p :: i + n
  }

  /** The exponents of p that meet a term of q in a term of degree k. */
  function Meeting(p: Poly, q: Poly, k: nat): Poly {
    set i | i in p && i <= k && k - i in q
  }

  function Sums(p: Poly, q: Poly): Poly {
    set i, j | i in p && j in q :: i + j
  }

  function Mul(p: Poly, q: Poly): Poly {
    set k | k in Sums(p, q) && |Meeting(p, q, k)| % 2 == 1
  }

  function Pow(p: Poly, n: nat): Poly {
    if n == 0 then ONE else Mul(p, Pow(p, n - 1))
  }

  /** p and q leave the same remainder on division by m. */
  ghost predicate Congruent(p: Poly, q: Poly, m: Poly) {
    exists k: Poly :: Add(p, q) == Mul(k, m)
  }

  predicate Below(p: Poly, n: nat) {
    forall i <- p :: i < n
  }

  predicate HasDegree(p: Poly, n: nat) {
    n in p && Below(p, n + 1)
  }

  // ----- products -----

  lemma InMul(p: Poly, q: Poly, k: nat)
    ensures k in Mul(p, q) <==> |Meeting(p, q, k)| % 2 == 1
  {
    if |Meeting(p, q, k)| % 2 == 1 {
      var i :| i in Meeting(p, q, k);
      assert i + (k - i) in Sums(p, q);
    }
  }

  lemma AddParity(p: Poly, q: Poly)
    ensures |Add(p, q)| % 2 == (|p| + |q|) % 2
  {
    assert p == (p - q) + (p * q) && q == (q - p) + (p * q);
    assert |p| == |p - q| + |p * q| && |q| == |q - p| + |p * q|;
  }

  lemma MulAddRightAt(p: Poly, q: Poly, r: Poly, k: nat)
    ensures k in Mul(p, Add(q, r)) <==> (k in Mul(p, q)) != (k in Mul(p, r))
  {
    InMul(p, Add(q, r), k); InMul(p, q, k); InMul(p, r, k);
    assert Meeting(p, Add(q, r), k) == Add(Meeting(p, q, k), Meeting(p, r, k));
    AddParity(Meeting(p, q, k), Meeting(p, r, k));
  }

  lemma MulAddRight(p: Poly, q: Poly, r: Poly)
    ensures Mul(p, Add(q, r)) == Add(Mul(p, q), Mul(p, r))
  {
    forall k: nat
      ensures k in Mul(p, Add(q, r)) <==> k in Add(Mul(p, q), Mul(p, r))
    {
      MulAddRightAt(p, q, r, k);
    }
  }

  lemma MulAddLeftAt(p: Poly, q: Poly, r: Poly, k: nat)
    ensures k in Mul(Add(p, q), r) <==> (k in Mul(p, r)) != (k in Mul(q, r))
  {
    InMul(Add(p, q), r, k); InMul(p, r, k); InMul(q, r, k);
    assert Meeting(Add(p, q), r, k) == Add(Meeting(p, r, k), Meeting(q, r, k));
    AddParity(Meeting(p, r, k), Meeting(q, r, k));
  }

  lemma MulAddLeft(p: Poly, q: Poly, r: Poly)
    ensures Mul(Add(p, q), r) == Add(Mul(p, r), Mul(q, r))
  {
    forall k: nat
      ensures k in Mul(Add(p, q), r) <==> k in Add(Mul(p, r), Mul(q, r))
    {
      MulAddLeftAt(p, q, r, k);
    }
  }

  lemma MulShift(p: Poly, q: Poly, n: nat)
    ensures Mul(p, Shift(q, n)) == Shift(Mul(p, q), n)
  {
    forall k: nat
      ensures k in Mul(p, Shift(q, n)) <==> k in Shift(Mul(p, q), n)
    {
      InMul(p, Shift(q, n), k);
      if k >= n {
        InMul(p, q, k - n);
        assert Meeting(p, Shift(q, n), k) == Meeting(p, q, k - n);
        assert k in Shift(Mul(p, q), n) <==> k - n in Mul(p, q);
      } else {
        assert Meeting(p, Shift(q, n), k) == {};
      }
    }
  }

  lemma MulMonomial(p: Poly, n: nat)
    ensures Mul(p, {n}) == Shift(p, n) == Mul({n}, p)
  {
    forall k: nat
      ensures k in Mul(p, {n}) <==> k in Shift(p, n)
      ensures k in Mul({n}, p) <==> k in Shift(p, n)
    {
      InMul(p, {n}, k); InMul({n}, p, k);
      var meets := k >= n && k - n in p;
      assert Meeting(p, {n}, k) == if meets then {k - n} else {};
      assert Meeting({n}, p, k) == if meets then {n} else {};
    }
  }

  lemma MulZero(p: Poly)
    ensures Mul(p, {}) == {} == Mul({}, p)
  {
  }

  lemma MulOne(p: Poly)
    ensures Mul(p, ONE) == p == Mul(ONE, p)
  {
    MulMonomial(p, 0);
    assert Shift(p, 0) == p;
  }

  /** A nonzero polynomial is a monomial plus a polynomial with one term less. */
  lemma Peel(p: Poly, n: nat)
    requires n in p
    ensures p == Add(p - {n}, {n}) && |p - {n}| < |p|
  {
  }

  lemma {:induction false} MulCommutes(p: Poly, q: Poly)
    ensures Mul(p, q) == Mul(q, p)
    decreases |q|
  {
    if q == {} {
      MulZero(p);
    } else {
      var n :| n in q;
      Peel(q, n);
      MulCommutes(p, q - {n});
      MulAddRight(p, q - {n}, {n});
      MulAddLeft(q - {n}, {n}, p);
      MulMonomial(p, n);
    }
  }

  lemma {:induction false} MulAssociates(p: Poly, q: Poly, r: Poly)
    ensures Mul(Mul(p, q), r) == Mul(p, Mul(q, r))
    decreases |r|
  {
    if r == {} {
      MulZero(Mul(p, q)); MulZero(q); MulZero(p);
    } else {
      var n :| n in r;
      var s := r - {n};
      Peel(r, n);
      MulAssociates(p, q, s);
      MulAddRight(Mul(p, q), s, {n});
      MulAddRight(q, s, {n});
      MulAddRight(p, Mul(q, s), Mul(q, {n}));
      MulMonomial(Mul(p, q), n);
      MulMonomial(q, n);
      MulShift(p, q, n);
    }
  }

  // ----- congruence -----

  lemma CongruentBy(p: Poly, q: Poly, m: Poly, k: Poly)
    requires Add(p, q) == Mul(k, m)
    ensures Congruent(p, q, m)
  {
  }

  lemma CongruentReflexive(p: Poly, m: Poly)
    ensures Congruent(p, p, m)
  {
    MulZero(m);
    assert Add(p, p) == Mul({}, m);
  }

  lemma CongruentSymmetric(p: Poly, q: Poly, m: Poly)
    requires Congruent(p, q, m)
    ensures Congruent(q, p, m)
  {
    assert Add(p, q) == Add(q, p);
  }

  lemma CongruentAdd(p: Poly, p': Poly, q: Poly, q': Poly, m: Poly)
    requires Congruent(p, p', m) && Congruent(q, q', m)
    ensures Congruent(Add(p, q), Add(p', q'), m)
  {
    var j :| Add(p, p') == Mul(j, m);
    var k :| Add(q, q') == Mul(k, m);
    MulAddLeft(j, k, m);
    assert Add(Add(p, q), Add(p', q')) == Add(Add(p, p'), Add(q, q'));
    CongruentBy(Add(p, q), Add(p', q'), m, Add(j, k));
  }

  lemma CongruentTransitive(p: Poly, q: Poly, r: Poly, m: Poly)
    requires Congruent(p, q, m) && Congruent(q, r, m)
    ensures Congruent(p, r, m)
  {
    var j :| Add(p, q) == Mul(j, m);
    var k :| Add(q, r) == Mul(k, m);
    MulAddLeft(j, k, m);
    assert Add(p, r) == Add(Add(p, q), Add(q, r));
    CongruentBy(p, r, m, Add(j, k));
  }

  lemma AddCancels(p: Poly, q: Poly)
    ensures Add(p, Add(p, q)) == q
  {
    assert forall i :: i in Add(p, Add(p, q)) <==> i in q;
  }

  lemma CongruentPlusModulus(p: Poly, m: Poly)
    ensures Congruent(p, Add(p, m), m)
  {
    MulOne(m);
    AddCancels(p, m);
    CongruentBy(p, Add(p, m), m, ONE);
  }

  lemma CongruentMulLeft(p: Poly, q: Poly, q': Poly, m: Poly)
    requires Congruent(q, q', m)
    ensures Congruent(Mul(p, q), Mul(p, q'), m)
  {
    var k :| Add(q, q') == Mul(k, m);
    MulAddRight(p, q, q');
    MulAssociates(p, k, m);
    CongruentBy(Mul(p, q), Mul(p, q'), m, Mul(p, k));
  }

  lemma CongruentMul(p: Poly, p': Poly, q: Poly, q': Poly, m: Poly)
    requires Congruent(p, p', m) && Congruent(q, q', m)
    ensures Congruent(Mul(p, q), Mul(p', q'), m)
  {
    CongruentMulLeft(p, q, q', m);
    CongruentMulLeft(q', p, p', m);
    MulCommutes(p, q'); MulCommutes(p', q');
    CongruentTransitive(Mul(p, q), Mul(p, q'), Mul(p', q'), m);
  }

  lemma {:induction false} CongruentPow(p: Poly, q: Poly, n: nat, m: Poly)
    requires Congruent(p, q, m)
    ensures Congruent(Pow(p, n), Pow(q, n), m)
  {
    if n == 0 {
      CongruentReflexive(ONE, m);
    } else {
      CongruentPow(p, q, n - 1, m);
      CongruentMul(p, q, Pow(p, n - 1), Pow(q, n - 1), m);
    }
  }

  // ----- remainders are unique -----

  lemma {:induction false} HasTop(p: Poly) returns (d: nat)
    requires p != {}
    ensures HasDegree(p, d)
    decreases |p|
  {
    var n :| n in p;
    assert forall i <- p :: i == n || i in p - {n};
    if p - {n} == {} {
      d := n;
    } else {
      var e := HasTop(p - {n});
      d := if e < n then n else e;
    }
  }

  /** A nonzero multiple of a polynomial of degree n has a term of degree n or more. */
  lemma MultipleReachesDegree(k: Poly, m: Poly, n: nat) returns (d: nat)
    requires HasDegree(m, n) && k != {}
    ensures d >= n && d in Mul(k, m)
  {
    var e := HasTop(k);
    d := e + n;
    assert Meeting(k, m, d) == {e};
    InMul(k, m, d);
  }

  /** Division by m leaves at most one remainder of lower degree. */
  lemma RemainderUnique(p: Poly, q: Poly, m: Poly, n: nat)
    requires HasDegree(m, n) && Below(p, n) && Below(q, n)
    requires Congruent(p, q, m)
    ensures p == q
  {
    var k :| Add(p, q) == Mul(k, m);
    if k == {} {
      MulZero(m);
      assert Add(p, q) == {};
      assert forall i :: i in p <==> i in q;
    } else {
      var d := MultipleReachesDegree(k, m, n);
      assert false;
    }
  }

  // ----- powers -----

  lemma {:induction false} PowAdd(p: Poly, a: nat, b: nat)
    ensures Pow(p, a + b) == Mul(Pow(p, a), Pow(p, b))
  {
    if a == 0 {
      MulOne(Pow(p, b));
    } else {
      calc {
        Pow(p, a + b);
        Mul(p, Pow(p, a - 1 + b));
        { PowAdd(p, a - 1, b); }
        Mul(p, Mul(Pow(p, a - 1), Pow(p, b)));
        { MulAssociates(p, Pow(p, a - 1), Pow(p, b)); }
        Mul(Mul(p, Pow(p, a - 1)), Pow(p, b));
        Mul(Pow(p, a), Pow(p, b));
      }
    }
  }

  lemma PowSum(p: Poly, a: nat, b: nat, c: nat)
    requires c == a + b
    ensures Pow(p, c) == Mul(Pow(p, a), Pow(p, b))
  {
    PowAdd(p, a, b);
  }

  lemma {:induction false} PowMul(p: Poly, a: nat, b: nat)
    ensures Pow(p, a * b) == Pow(Pow(p, a), b)
    decreases b
  {
    if b == 0 {
    } else {
      PowMul(p, a, b - 1);
      PowSum(p, a, a * (b - 1), a * b);
    }
  }

  // ----- squaring is additive, so raising to 256 multiplies every exponent by 256 -----

  function Spread(p: Poly, s: nat): Poly {
    set i | i in p :: i * s
  }

  lemma SquareOfSum(p: Poly, q: Poly)
    ensures Mul(Add(p, q), Add(p, q)) == Add(Mul(p, p), Mul(q, q))
  {
    MulAddRight(Add(p, q), p, q);
    MulAddLeft(p, q, p);
    MulAddLeft(p, q, q);
    MulCommutes(p, q);
  }

  lemma SpreadPeels(p: Poly, n: nat, s: nat)
    requires n in p && s > 0
    ensures Spread(p, s) == Add(Spread(p - {n}, s), {n * s})
  {
    forall k: nat
      ensures k in Spread(p, s) <==> k in Add(Spread(p - {n}, s), {n * s})
    {
      forall i: nat | i * s == n * s
        ensures i == n
      {
        assert (i - n) * s == 0;
      }
      if k in Spread(p, s) {
        var i :| i in p && k == i * s;
        assert i == n || i in p - {n};
      }
    }
  }

  lemma {:induction false} SquareSpreads(p: Poly)
    ensures Mul(p, p) == Spread(p, 2)
    decreases |p|
  {
    if p == {} {
      MulZero(p);
    } else {
      var n :| n in p;
      var q := p - {n};
      Peel(p, n);
      SquareSpreads(q);
      SquareOfSum(q, {n});
      MulMonomial({n}, n);
      assert Shift({n}, n) == {n * 2};
      SpreadPeels(p, n, 2);
    }
  }

  lemma SpreadTwice(p: Poly, s: nat)
    ensures Spread(Spread(p, s), 2) == Spread(p, s * 2)
  {
    forall k: nat
      ensures k in Spread(Spread(p, s), 2) <==> k in Spread(p, s * 2)
    {
      if k in Spread(p, s * 2) {
        var i :| i in p && k == i * (s * 2);
        assert i * s in Spread(p, s) && k == (i * s) * 2;
      }
      if k in Spread(Spread(p, s), 2) {
        var j :| j in Spread(p, s) && k == j * 2;
        var i :| i in p && j == i * s;
        assert k == i * (s * 2);
      }
    }
  }

  function TwoTo(e: nat): nat {
    if e == 0 then 1 else TwoTo(e - 1) * 2
  }

  lemma {:induction false} PowTwoToSpreads(p: Poly, e: nat)
    ensures Pow(p, TwoTo(e)) == Spread(p, TwoTo(e))
  {
    if e == 0 {
      MulOne(p);
      assert Pow(p, 1) == Mul(p, Pow(p, 0));
      assert Spread(p, 1) == p;
    } else {
      var s := TwoTo(e - 1);
      PowTwoToSpreads(p, e - 1);
      PowAdd(p, s, s);
      SquareSpreads(Spread(p, s));
      SpreadTwice(p, s);
    }
  }

  lemma {:induction false} PowMonomial(s: nat, n: nat)
    ensures Pow({s}, n) == {n * s}
  {
    if n == 0 {
    } else {
      PowMonomial(s, n - 1);
      MulMonomial({s}, (n - 1) * s);
      assert Shift({s}, (n - 1) * s) == {s + (n - 1) * s};
      assert s + (n - 1) * s == n * s;
    }
  }

  /** If x^s and x agree modulo m, replacing x by x^s changes no polynomial modulo m. */
  lemma {:induction false} SpreadIsIdentity(p: Poly, s: nat, m: Poly)
    requires s > 0 && Congruent({s}, {1}, m)
    ensures Congruent(Spread(p, s), p, m)
    decreases |p|
  {
    if p == {} {
      CongruentReflexive(p, m);
    } else {
      var n :| n in p;
      Peel(p, n);
      SpreadIsIdentity(p - {n}, s, m);
      CongruentPow({s}, {1}, n, m);
      PowMonomial(s, n);
      PowMonomial(1, n);
      SpreadPeels(p, n, s);
      CongruentAdd(Spread(p - {n}, s), p - {n}, {n * s}, {n}, m);
    }
  }
}
