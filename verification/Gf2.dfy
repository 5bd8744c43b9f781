/**
 Polynomials over GF(2), written as bit strings with the highest power first,
 and division by a generator whose leading coefficient is one.

 `Remainder` is schoolbook long division: while the dividend is longer than a remainder,
 subtract the generator if the leading bit is set and drop that bit. `IsRemainder` is
 the definition that does not mention any algorithm, and `RemainderIsTheRemainder` says they agree.
 */
module Gf2 {

  type Bits = seq<bool>

  function Zeros(n: nat): Bits {
    seq(n, _ => false)
  }

  function Xor(a: Bits, b: Bits): Bits
    requires |a| == |b|
  {
    seq(|a|, i requires 0 <= i < |a| => a[i] != b[i])
  }

  function Scale(c: bool, g: Bits): Bits {
    seq(|g|, i requires 0 <= i < |g| => c && g[i])
  }

  lemma XorConcat(a: Bits, b: Bits, c: Bits, d: Bits)
    requires |a| == |c| && |b| == |d|
    ensures Xor(a + b, c + d) == Xor(a, c) + Xor(b, d)
  {
  }

  lemma XorSelf(a: Bits)
    ensures Xor(a, a) == Zeros(|a|)
  {
  }

  ghost predicate IsGenerator(g: Bits) {
    |g| >= 1 && g[0]
  }

  /** The product q(x) * g(x). */
  function Product(q: Bits, g: Bits): (p: Bits)
    requires |g| >= 1
    ensures |p| == |q| + |g| - 1
  {
    if q == [] then Zeros(|g| - 1)
    else Xor(Scale(q[0], g) + Zeros(|q| - 1), [false] + Product(q[1..], g))
  }

  /** One row of long division: cancel the leading bit of d and drop it. */
  function DivisionRow(g: Bits, d: Bits): (r: Bits)
    requires IsGenerator(g) && |d| >= |g|
    ensures |r| == |d| - 1
  {
    Xor(d[..|g|], Scale(d[0], g))[1..] + d[|g|..]
  }

  function Remainder(g: Bits, d: Bits): (r: Bits)
    requires IsGenerator(g) && |d| >= |g| - 1
    ensures |r| == |g| - 1
    decreases |d|
  {
    if |d| == |g| - 1 then d else Remainder(g, DivisionRow(g, d))
  }

  function Quotient(g: Bits, d: Bits): (q: Bits)
    requires IsGenerator(g) && |d| >= |g| - 1
    ensures |q| == |d| - (|g| - 1)
    decreases |d|
  {
    if |d| == |g| - 1 then [] else [d[0]] + Quotient(g, DivisionRow(g, d))
  }

  /** d == q * g + r with r of lower degree than g, for some q. */
  ghost predicate IsRemainder(g: Bits, d: Bits, r: Bits)
    requires IsGenerator(g) && |d| >= |g| - 1
  {
    |r| == |g| - 1 && exists q: Bits :: IsDivision(g, d, q, r)
  }

  ghost predicate IsDivision(g: Bits, d: Bits, q: Bits, r: Bits)
    requires IsGenerator(g) && |d| >= |g| - 1
  {
    && |r| == |g| - 1
    && |q| == |d| - |r|
    && d == Xor(Product(q, g), Zeros(|q|) + r)
  }

  lemma {:induction false} LongDivision(g: Bits, d: Bits)
    requires IsGenerator(g) && |d| >= |g| - 1
    ensures IsDivision(g, d, Quotient(g, d), Remainder(g, d))
    decreases |d|
  {
    var r := Remainder(g, d);
    if |d| > |g| - 1 {
      var row := DivisionRow(g, d);
      LongDivision(g, row);
      DivisionStep(g, d, Quotient(g, row), r);
    }
  }

  lemma DivisionStep(g: Bits, d: Bits, q: Bits, r: Bits)
    requires IsGenerator(g) && |d| >= |g|
    requires IsDivision(g, DivisionRow(g, d), q, r)
    ensures IsDivision(g, d, [d[0]] + q, r)
  {
    var q' := [d[0]] + q;
    assert q'[1..] == q;
    var p := Product(q', g);
    var sum := Xor(p, Zeros(|q'|) + r);
    forall i | 0 <= i < |d|
      ensures d[i] == sum[i]
    {
      if i > 0 {
        RowAt(g, d, i - 1);
        assert DivisionRow(g, d)[i - 1] == (Product(q, g)[i - 1] != (Zeros(|q|) + r)[i - 1]);
      }
    }
    assert d == sum;
  }

  /** A dividend has only one remainder and only one quotient. */
  lemma {:induction false} DivisionIsUnique(g: Bits, d: Bits, q1: Bits, r1: Bits, q2: Bits, r2: Bits)
    requires IsGenerator(g) && |d| >= |g| - 1
    requires IsDivision(g, d, q1, r1) && IsDivision(g, d, q2, r2)
    ensures q1 == q2 && r1 == r2
    decreases |d|
  {
    if q1 == [] {
      assert d == r1 && d == r2;
    } else {
      assert d[0] == q1[0] && d[0] == q2[0];
      var row := Xor(d, Scale(q1[0], g) + Zeros(|q1| - 1))[1..];
      NextDivision(g, d, q1, r1, row);
      NextDivision(g, d, q2, r2, row);
      DivisionIsUnique(g, row, q1[1..], r1, q2[1..], r2);
      assert q1 == [q1[0]] + q1[1..] && q2 == [q2[0]] + q2[1..];
    }
  }

  lemma NextDivision(g: Bits, d: Bits, q: Bits, r: Bits, row: Bits)
    requires IsGenerator(g) && |d| >= |g|
    requires IsDivision(g, d, q, r)
    requires row == Xor(d, Scale(q[0], g) + Zeros(|q| - 1))[1..]
    ensures IsDivision(g, row, q[1..], r)
  {
    var p := Product(q[1..], g);
    var sum := Xor(p, Zeros(|q| - 1) + r);
    forall i | 0 <= i < |row|
      ensures row[i] == sum[i]
    {
      assert d[i + 1] == (Product(q, g)[i + 1] != (Zeros(|q|) + r)[i + 1]);
    }
    assert row == sum;
  }

  /** Long division finds the remainder, and nothing else is one. */
  lemma RemainderIsTheRemainder(g: Bits, d: Bits, r: Bits)
    requires IsGenerator(g) && |d| >= |g| - 1
    ensures IsRemainder(g, d, r) <==> r == Remainder(g, d)
  {
    LongDivision(g, d);
    if IsRemainder(g, d, r) {
      var q: Bits :| IsDivision(g, d, q, r);
      DivisionIsUnique(g, d, q, r, Quotient(g, d), Remainder(g, d));
    }
  }

  // ---------- division is linear, and can be done piece by piece ----------

  lemma {:induction false} RemainderLinear(g: Bits, a: Bits, b: Bits)
    requires IsGenerator(g) && |a| == |b| >= |g| - 1
    ensures Remainder(g, Xor(a, b)) == Xor(Remainder(g, a), Remainder(g, b))
    decreases |a|
  {
    if |a| >= |g| {
      var ra, rb := DivisionRow(g, a), DivisionRow(g, b);
      RemainderLinear(g, ra, rb);
      RowLinear(g, a, b);
    }
  }

  lemma RowLinear(g: Bits, a: Bits, b: Bits)
    requires IsGenerator(g) && |a| == |b| >= |g|
    ensures DivisionRow(g, Xor(a, b)) == Xor(DivisionRow(g, a), DivisionRow(g, b))
  {
    var lhs, rhs := DivisionRow(g, Xor(a, b)), Xor(DivisionRow(g, a), DivisionRow(g, b));
    forall i | 0 <= i < |lhs|
      ensures lhs[i] == rhs[i]
    {
      RowAt(g, a, i);
      RowAt(g, b, i);
      RowAt(g, Xor(a, b), i);
    }
    assert lhs == rhs;
  }

  lemma RowAt(g: Bits, d: Bits, i: nat)
    requires IsGenerator(g) && |d| >= |g| && i < |d| - 1
    ensures DivisionRow(g, d)[i] == (d[i + 1] != (i + 1 < |g| && d[0] && g[i + 1]))
  {
    if i + 1 < |g| {
      assert DivisionRow(g, d)[i] == Xor(d[..|g|], Scale(d[0], g))[i + 1];
    } else {
      assert DivisionRow(g, d)[i] == d[|g|..][i + 1 - |g|];
    }
  }

  lemma {:induction false} RemainderOfConcat(g: Bits, d: Bits, e: Bits)
    requires IsGenerator(g) && |d| >= |g| - 1
    ensures Remainder(g, d + e) == Remainder(g, Remainder(g, d) + e)
    decreases |d|
  {
    if |d| >= |g| {
      var row := DivisionRow(g, d);
      assert DivisionRow(g, d + e) == row + e by {
        assert (d + e)[..|g|] == d[..|g|];
        assert (d + e)[|g|..] == d[|g|..] + e;
      }
      RemainderOfConcat(g, row, e);
    }
  }

  lemma {:induction false} RemainderOfShort(g: Bits, n: nat, r: Bits)
    requires IsGenerator(g) && |r| == |g| - 1
    ensures Remainder(g, Zeros(n) + r) == r
    decreases n
  {
    var d := Zeros(n) + r;
    if n == 0 {
      assert d == r;
    } else {
      var rest := Zeros(n - 1) + r;
      forall i | 0 <= i < |rest|
        ensures DivisionRow(g, d)[i] == rest[i]
      {
        RowAt(g, d, i);
      }
      assert DivisionRow(g, d) == rest;
      RemainderOfShort(g, n - 1, r);
    }
  }
}
