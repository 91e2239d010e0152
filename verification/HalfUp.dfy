/** Exact half-up multiplication and division in units of `u`: the integer meaning of every wad, ray and
    percent operation, and how far each is from the exact product or quotient. */
module HalfUp {
  import opened Arithmetic

  function Mul(u: nat, x: nat, a: nat): (y: nat)
    requires u > 0
  {
    QuotientNonnegative(x * a + u / 2, u);
    (x * a + u / 2) / u
  }

  function Div(u: nat, x: nat, a: nat): (y: nat)
    requires a > 0
  {
    QuotientNonnegative(x * u + a / 2, a);
    (x * u + a / 2) / a
  }

  ghost predicate Unit(u: nat) {
    u > 0 && u % 2 == 0
  }

  /** Mul is the nearest integer to x * a / u, ties upward; no other integer is. */
  lemma MulNearest(u: nat, x: nat, a: nat, y: nat)
    requires Unit(u)
    ensures y == Mul(u, x, a) <==> 0 < 2 * (y * u - x * a) + u <= 2 * u
  {
    var n := x * a + u / 2;
    QuotientBounds(n, u);
    if y * u <= n < y * u + u {
      QuotientUnique(n, u, y);
    }
  }

  /** Div is the nearest integer to x * u / a, ties upward; no other integer is. */
  lemma DivNearest(u: nat, x: nat, a: nat, y: nat)
    requires a > 0
    ensures y == Div(u, x, a) <==> 0 < 2 * (y * a - x * u) + a <= 2 * a
  {
    var n := x * u + a / 2;
    QuotientBounds(n, a);
    if y * a <= n < y * a + a {
      QuotientUnique(n, a, y);
    }
  }

  lemma MulError(u: nat, x: nat, a: nat)
    requires Unit(u)
    ensures 0 < 2 * (Mul(u, x, a) * u - x * a) + u <= 2 * u
  {
    MulNearest(u, x, a, Mul(u, x, a));
  }

  lemma DivError(u: nat, x: nat, a: nat)
    requires a > 0
    ensures 0 <= 2 * (Div(u, x, a) * a - x * u) + a <= 2 * a
  {
    DivNearest(u, x, a, Div(u, x, a));
  }

  lemma MulMonotone(u: nat, x: nat, y: nat, a: nat)
    requires u > 0 && x <= y
    ensures Mul(u, x, a) <= Mul(u, y, a)
  {
    MulOrder(x, y, a);
    QuotientOrder(x * a + u / 2, y * a + u / 2, u);
  }

  lemma DivMonotone(u: nat, x: nat, y: nat, a: nat)
    requires a > 0 && x <= y
    ensures Div(u, x, a) <= Div(u, y, a)
  {
    MulOrder(x, y, u);
    QuotientOrder(x * u + a / 2, y * u + a / 2, a);
  }

  /** From the unit upward, dividing undoes multiplying. */
  lemma DivUndoesMul(u: nat, x: nat, a: nat)
    requires Unit(u) && a >= u
    ensures Div(u, Mul(u, x, a), a) == x
  {
    var y := Mul(u, x, a);
    MulNearest(u, x, a, y);
    if a == u {
      MulNearest(u, x, a, x);
    } else {
      DivNearest(u, y, a, x);
    }
  }

  /** Up to the unit, multiplying undoes dividing. */
  lemma MulUndoesDiv(u: nat, x: nat, a: nat)
    requires Unit(u) && 0 < a <= u
    ensures Mul(u, Div(u, x, a), a) == x
  {
    var y := Div(u, x, a);
    DivNearest(u, x, a, y);
    if a == u {
      DivNearest(u, x, u, x);
      MulNearest(u, x, u, x);
    } else {
      MulNearest(u, y, a, x);
    }
  }

  /** Past the unit, the round trip through a division errs by at most a / 2u + 1/2. */
  lemma MulAfterDivError(u: nat, x: nat, a: nat)
    requires Unit(u) && a > 0
    ensures 2 * u * Abs(Mul(u, Div(u, x, a), a) - x) <= a + u
  {
    var y := Div(u, x, a);
    var z := Mul(u, y, a);
    DivError(u, x, a);
    MulError(u, y, a);
    ErrorsCompose(u, z - x, z * u - y * a, y * a - x * u, a);
  }

  /** Below the unit, the round trip through a multiplication errs by at most u / 2a + 1/2. */
  lemma DivAfterMulError(u: nat, x: nat, a: nat)
    requires Unit(u) && a > 0
    ensures 2 * a * Abs(Div(u, Mul(u, x, a), a) - x) <= a + u
  {
    var y := Mul(u, x, a);
    var z := Div(u, y, a);
    MulError(u, x, a);
    DivError(u, y, a);
    ErrorsCompose(a, z - x, z * a - y * u, y * u - x * a, u);
  }

  // A distance e in units of d, made of a rounding in units of d and one in units of c.
  lemma ErrorsCompose(d: nat, e: int, first: int, second: int, c: nat)
    requires e * d == first + second
    requires 0 <= 2 * first + d <= 2 * d
    requires 0 <= 2 * second + c <= 2 * c
    ensures 2 * d * Abs(e) <= c + d
  {
    if e < 0 {
      assert d * Abs(e) == -(e * d);
    } else {
      assert d * Abs(e) == e * d;
    }
    assert 2 * d * Abs(e) == 2 * (d * Abs(e));
  }

  lemma MulByUnit(u: nat, a: nat)
    requires u > 0
    ensures Mul(u, u, a) == a && Mul(u, a, u) == a
  {
    assert u * a == a * u;
    QuotientUnique(a * u + u / 2, u, a);
  }

  lemma DivBySelf(u: nat, a: nat)
    requires a > 0
    ensures Div(u, a, a) == u
  {
    QuotientUnique(a * u + a / 2, a, u);
  }

  /** Dividing undoes multiplying for every x exactly from the unit upward. */
  lemma DivUndoesMulIff(u: nat, a: nat)
    requires Unit(u) && a > 0
    ensures (forall x: nat :: Div(u, Mul(u, x, a), a) == x) <==> a >= u
  {
    if a >= u {
      forall x: nat ensures Div(u, Mul(u, x, a), a) == x { DivUndoesMul(u, x, a); }
    } else if forall x: nat :: Div(u, Mul(u, x, a), a) == x {
      InvertibleMulGrows(u, a, u);
      MulByUnit(u, a);
    }
  }

  lemma {:induction false} InvertibleMulGrows(u: nat, a: nat, n: nat)
    requires u > 0 && a > 0
    requires forall x: nat :: Div(u, Mul(u, x, a), a) == x
    ensures Mul(u, n, a) >= n
  {
    if n > 0 {
      InvertibleMulGrows(u, a, n - 1);
      MulMonotone(u, n - 1, n, a);
      assert Div(u, Mul(u, n - 1, a), a) != Div(u, Mul(u, n, a), a);
    }
  }

  /** Multiplying undoes dividing for every x exactly up to the unit. */
  lemma MulUndoesDivIff(u: nat, a: nat)
    requires Unit(u) && a > 0
    ensures (forall x: nat :: Mul(u, Div(u, x, a), a) == x) <==> a <= u
  {
    if a <= u {
      forall x: nat ensures Mul(u, Div(u, x, a), a) == x { MulUndoesDiv(u, x, a); }
    } else if forall x: nat :: Mul(u, Div(u, x, a), a) == x {
      InvertibleDivGrows(u, a, a);
      DivBySelf(u, a);
    }
  }

  lemma {:induction false} InvertibleDivGrows(u: nat, a: nat, n: nat)
    requires u > 0 && a > 0
    requires forall x: nat :: Mul(u, Div(u, x, a), a) == x
    ensures Div(u, n, a) >= n
  {
    if n > 0 {
      InvertibleDivGrows(u, a, n - 1);
      DivMonotone(u, n - 1, n, a);
      assert Mul(u, Div(u, n - 1, a), a) != Mul(u, Div(u, n, a), a);
    }
  }
}
