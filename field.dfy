/**
 * The magnetostatic field of a set of infinite straight wires that cross the
 * simulation plane at right angles. Each wire adds the Biot–Savart field
 * mu0 I / (2 pi R) along the counter-clockwise tangent of the circle through
 * the query point; the total field is the sum over all wires.
 *
 * Arithmetic is over the reals, so the square root of the source disappears:
 * the contribution B (-ry/R, rx/R) with B = mu0 I / (2 pi R) is written as
 * mu0 I (-ry, rx) / (2 pi R^2), and SqrtFormAgrees proves the two equal.
 */
module Field {

  /** Vacuum permeability in T m / A (the CODATA 2018 value). */
  const Mu0: real := 1.25663706212e-6

  /** The number pi, to the digits of a double. */
  const Pi: real := 3.141592653589793

  /** A point of the plane, or a planar vector such as a field value. */
  datatype Vec = Vec(x: real, y: real)

  const Zero := Vec(0.0, 0.0)

  function Plus(a: Vec, b: Vec): Vec
  {
    Vec(a.x + b.x, a.y + b.y)
  }

  function Neg(a: Vec): Vec
  {
    Vec(-a.x, -a.y)
  }

  /** A wire: where it crosses the plane and its signed current in amperes. */
  datatype Wire = Wire(x: real, y: real, current: real)

  /** The displacement (rx, ry) from the wire to the point p. */
  function Displacement(w: Wire, p: Vec): Vec
  {
    Vec(p.x - w.x, p.y - w.y)
  }

  /** The source's R2 = rx^2 + ry^2. */
  function SquaredDistance(w: Wire, p: Vec): real
  {
    var r := Displacement(w, p);
    r.x * r.x + r.y * r.y
  }

  /**
   * The field that wire w contributes at p; nothing when p lies on the wire.
   * Away from it this is s (-ry, rx) with s = mu0 I / (2 pi R^2), the
   * source's B / R.
   */
  function Contribution(w: Wire, p: Vec): Vec
  {
    var r := Displacement(w, p);
    var r2 := SquaredDistance(w, p);
    if r2 == 0.0 then Zero
    else
      var s := Mu0 * w.current / (2.0 * Pi) / r2;
      Vec(-r.y * s, r.x * s)
  }

  /** The superposed field of all wires ws at p (the specification of FieldAt). */
  function FieldOf(ws: seq<Wire>, p: Vec): Vec
    decreases |ws|
  {
    if ws == [] then Zero else Plus(Contribution(ws[0], p), FieldOf(ws[1..], p))
  }

  /** The same wires with every current reversed. */
  function ReverseCurrents(ws: seq<Wire>): seq<Wire>
    decreases |ws|
  {
    if ws == [] then [] else [ws[0].(current := -ws[0].current)] + ReverseCurrents(ws[1..])
  }

  /** Accumulates the field of ws at p one wire at a time (a wire at p adds nothing). */
  method FieldAt(ws: seq<Wire>, p: Vec) returns (b: Vec)
    ensures b == FieldOf(ws, p)
  {
    var sumX, sumY := 0.0, 0.0;
    for i := 0 to |ws|
      invariant Vec(sumX, sumY) == FieldOf(ws[..i], p)
    {
      assert ws[..i + 1] == ws[..i] + [ws[i]];
      FieldOfAppend(ws[..i], ws[i], p);
      var c := Contribution(ws[i], p);
      sumX := sumX + c.x;
      sumY := sumY + c.y;
    }
    assert ws[..|ws|] == ws;
    b := Vec(sumX, sumY);
  }

  /** Fills two grids with the field at every grid point (X[i, j], Y[i, j]). */
  method FieldGrid(ws: seq<Wire>, X: array2<real>, Y: array2<real>) returns (gridX: array2<real>, gridY: array2<real>)
    requires X.Length0 == Y.Length0 && X.Length1 == Y.Length1
    ensures fresh(gridX) && fresh(gridY)
    ensures gridX.Length0 == gridY.Length0 == X.Length0 && gridX.Length1 == gridY.Length1 == X.Length1
    ensures forall i, j :: 0 <= i < X.Length0 && 0 <= j < X.Length1 ==>
              Vec(gridX[i, j], gridY[i, j]) == FieldOf(ws, Vec(X[i, j], Y[i, j]))
  {
    gridX := new real[X.Length0, X.Length1];
    gridY := new real[X.Length0, X.Length1];
    for i := 0 to X.Length0
      invariant forall i', j :: 0 <= i' < i && 0 <= j < X.Length1 ==>
                  Vec(gridX[i', j], gridY[i', j]) == FieldOf(ws, Vec(X[i', j], Y[i', j]))
    {
      for j := 0 to X.Length1
        invariant forall i', j' :: 0 <= i' < i && 0 <= j' < X.Length1 ==>
                    Vec(gridX[i', j'], gridY[i', j']) == FieldOf(ws, Vec(X[i', j'], Y[i', j']))
        invariant forall j' :: 0 <= j' < j ==>
                    Vec(gridX[i, j'], gridY[i, j']) == FieldOf(ws, Vec(X[i, j'], Y[i, j']))
      {
        var b := FieldAt(ws, Vec(X[i, j], Y[i, j]));
        gridX[i, j], gridY[i, j] := b.x, b.y;
      }
    }
  }

  /** With no wires the field is zero everywhere. */
  lemma FieldOfEmpty(p: Vec)
    ensures FieldOf([], p) == Zero
  {
  }

  /** Superposition: one more wire adds exactly its own contribution. */
  lemma {:induction false} FieldOfAppend(ws: seq<Wire>, w: Wire, p: Vec)
    ensures FieldOf(ws + [w], p) == Plus(FieldOf(ws, p), Contribution(w, p))
    decreases |ws|
  {
    if ws != [] {
      assert (ws + [w])[0] == ws[0] && (ws + [w])[1..] == ws[1..] + [w];
      assert FieldOf(ws + [w], p) == Plus(Contribution(ws[0], p), FieldOf(ws[1..] + [w], p));
      FieldOfAppend(ws[1..], w, p);
    }
  }

  /** Superposition: the field of two groups of wires is the sum of their fields. */
  lemma {:induction false} FieldOfConcat(a: seq<Wire>, b: seq<Wire>, p: Vec)
    ensures FieldOf(a + b, p) == Plus(FieldOf(a, p), FieldOf(b, p))
    decreases |a|
  {
    if a == [] {
      assert a + b == b;
    } else {
      assert (a + b)[0] == a[0] && (a + b)[1..] == a[1..] + b;
      assert FieldOf(a + b, p) == Plus(Contribution(a[0], p), FieldOf(a[1..] + b, p));
      FieldOfConcat(a[1..], b, p);
    }
  }

  /** A wire through the query point is skipped: the field is that of the others. */
  lemma CoincidentWireIgnored(ws: seq<Wire>, i: nat, p: Vec)
    requires i < |ws| && SquaredDistance(ws[i], p) == 0.0
    ensures Contribution(ws[i], p) == Zero
    ensures FieldOf(ws, p) == FieldOf(ws[..i] + ws[i + 1..], p)
  {
    var front, back := ws[..i], ws[i + 1..];
    assert Contribution(ws[i], p) == Zero;
    assert ws == front + ([ws[i]] + back);
    FieldOfConcat(front, [ws[i]] + back, p);
    assert FieldOf([ws[i]] + back, p) == FieldOf(back, p) by {
      assert ([ws[i]] + back)[0] == ws[i] && ([ws[i]] + back)[1..] == back;
    }
    FieldOfConcat(front, back, p);
  }


  /** The quotient a / d is the one x with d x == a. */
  lemma DivUnique(a: real, d: real, x: real)
    requires d != 0.0 && d * x == a
    ensures x == a / d
  {
    var q := a / d;
    assert d * q == a;
    assert d * (x - q) == 0.0;
  }

  /** A product of reals vanishes only when a factor does. */
  lemma ProductZero(a: real, b: real)
    requires a * b == 0.0
    ensures a == 0.0 || b == 0.0
  {
  }

  /** The product of a real with itself is never negative. */
  lemma ProductSelf(a: real, b: real)
    requires a == b
    ensures a * b >= 0.0
  {
  }

  /**
   * The squared distance is never negative, and over the reals the source's
   * test R2 == 0 holds exactly when the point lies on the wire.
   */
  lemma SkipExactlyAtWire(w: Wire, p: Vec)
    ensures SquaredDistance(w, p) >= 0.0
    ensures SquaredDistance(w, p) == 0.0 <==> Displacement(w, p) == Zero
  {
    var r := Displacement(w, p);
    ProductSelf(r.x, r.x);
    ProductSelf(r.y, r.y);
    if SquaredDistance(w, p) == 0.0 {
      ProductZero(r.x, r.x);
      ProductZero(r.y, r.y);
    }
  }

  /** Each contribution is perpendicular to the displacement from its wire. */
  lemma ContributionPerpendicular(w: Wire, p: Vec)
    ensures var b, r := Contribution(w, p), Displacement(w, p);
            b.x * r.x + b.y * r.y == 0.0
  {
    var r, r2 := Displacement(w, p), SquaredDistance(w, p);
    if r2 != 0.0 {
      var s := Mu0 * w.current / (2.0 * Pi) / r2;
      assert Contribution(w, p) == Vec(-r.y * s, r.x * s);
      assert -r.y * s * r.x + r.x * s * r.y == 0.0;
    }
  }

  /**
   * The cross product of displacement and contribution is mu0 I / (2 pi) off
   * the wire: the field turns the displacement by +90 degrees for positive
   * current (counter-clockwise circulation) and by -90 degrees for negative.
   */
  lemma ContributionCirculation(w: Wire, p: Vec)
    requires SquaredDistance(w, p) != 0.0
    ensures var b, r := Contribution(w, p), Displacement(w, p);
            r.x * b.y - r.y * b.x == Mu0 * w.current / (2.0 * Pi)
  {
    var r, r2 := Displacement(w, p), SquaredDistance(w, p);
    var k := Mu0 * w.current / (2.0 * Pi);
    var s := k / r2;
    assert r2 * s == k;
    assert Contribution(w, p) == Vec(-r.y * s, r.x * s);
    assert r.x * (r.x * s) - r.y * (-r.y * s) == r2 * s;
  }

  /** Positive current circulates counter-clockwise, negative clockwise. */
  lemma ContributionCounterClockwise(w: Wire, p: Vec)
    requires SquaredDistance(w, p) != 0.0
    ensures var b, r := Contribution(w, p), Displacement(w, p);
            (w.current > 0.0 ==> r.x * b.y - r.y * b.x > 0.0) &&
            (w.current < 0.0 ==> r.x * b.y - r.y * b.x < 0.0)
  {
    ContributionCirculation(w, p);
  }

  /** The magnitude is mu0 |I| / (2 pi R): |B|^2 R^2 == (mu0 I / (2 pi))^2. */
  lemma ContributionMagnitude(w: Wire, p: Vec)
    requires SquaredDistance(w, p) != 0.0
    ensures var b, k := Contribution(w, p), Mu0 * w.current / (2.0 * Pi);
            (b.x * b.x + b.y * b.y) * SquaredDistance(w, p) == k * k
  {
    var r, r2 := Displacement(w, p), SquaredDistance(w, p);
    var k := Mu0 * w.current / (2.0 * Pi);
    var s := Mu0 * w.current / (2.0 * Pi) / r2;
    assert s * r2 == k;
    assert Contribution(w, p) == Vec(-r.y * s, r.x * s);
    assert (-r.y * s) * (-r.y * s) + (r.x * s) * (r.x * s) == s * s * r2;
    assert s * s * r2 * r2 == (s * r2) * (s * r2);
  }

  /**
   * The sqrt-free contribution agrees with the source's form B (-ry/R, rx/R),
   * B = mu0 I / (2 pi R), for the root R of a non-zero squared distance.
   */
  lemma SqrtFormAgrees(w: Wire, p: Vec, R: real)
    requires R > 0.0 && R * R == SquaredDistance(w, p)
    ensures var r, B := Displacement(w, p), Mu0 * w.current / (2.0 * Pi * R);
            Contribution(w, p) == Vec(B * (-r.y / R), B * (r.x / R))
  {
    var r, r2 := Displacement(w, p), SquaredDistance(w, p);
    var a := Mu0 * w.current;
    RootNonZero(R, r2);
    var s := a / (2.0 * Pi) / r2;
    assert Contribution(w, p) == Vec(-r.y * s, r.x * s);
    RootForm(a, R, r2, -r.y);
    RootForm(a, R, r2, r.x);
  }

  /** A positive root has a non-zero square. */
  lemma RootNonZero(R: real, r2: real)
    requires R > 0.0 && R * R == r2
    ensures r2 != 0.0
  {
    if r2 == 0.0 {
      ProductZero(R, R);
    }
  }

  /** With R^2 == r2: (a / (2 pi R)) (n / R) == n (a / (2 pi) / r2). */
  lemma RootForm(a: real, R: real, r2: real, n: real)
    requires R != 0.0 && r2 != 0.0 && R * R == r2
    ensures (a / (2.0 * Pi * R)) * (n / R) == n * (a / (2.0 * Pi) / r2)
  {
    var k := a / (2.0 * Pi);
    var B := a / (2.0 * Pi * R);
    RootFactor(a, R);
    var s := k / r2;
    assert r2 * s == k;
    RotatedOverRoot(k, B, s, R, n);
  }

  /** Taking the root R out of the denominator: R (a / (2 pi R)) == a / (2 pi). */
  lemma RootFactor(a: real, R: real)
    requires R != 0.0
    ensures R * (a / (2.0 * Pi * R)) == a / (2.0 * Pi)
  {
    var B := a / (2.0 * Pi * R);
    assert (2.0 * Pi * R) * B == a;
    assert (2.0 * Pi) * (R * B) == a;
  }

  /** With R B == k and R^2 s == k: B (n / R) == n s. */
  lemma RotatedOverRoot(k: real, B: real, s: real, R: real, n: real)
    requires R != 0.0 && R * B == k && (R * R) * s == k
    ensures B * (n / R) == n * s
  {
    var m := n / R;
    assert R * m == n;
    assert R * (R * s) == R * B;
    assert R * s == B by {
      assert R * (R * s - B) == 0.0;
    }
    assert B * m == R * s * m == s * (R * m) == s * n;
  }

  /** Negating the numerator negates the quotient. */
  lemma NegQuotient(k: real, d: real)
    requires d != 0.0
    ensures (-k) / d == -(k / d)
  {
    DivUnique(-k, d, -(k / d));
  }

  /** Reversing a wire's current reverses its contribution. */
  lemma ContributionOdd(w: Wire, p: Vec)
    ensures Contribution(w.(current := -w.current), p) == Neg(Contribution(w, p))
  {
    var w' := w.(current := -w.current);
    var r, r2 := Displacement(w, p), SquaredDistance(w, p);
    assert Displacement(w', p) == r && SquaredDistance(w', p) == r2;
    if r2 != 0.0 {
      var k := Mu0 * w.current / (2.0 * Pi);
      var s := k / r2;
      assert Mu0 * w'.current / (2.0 * Pi) == -k;
      NegQuotient(k, r2);
      assert Contribution(w, p) == Vec(-r.y * s, r.x * s);
      assert Contribution(w', p) == Vec(-r.y * -s, r.x * -s);
    }
  }

  /** Reversing the currents of a list with one more wire appends that wire reversed. */
  lemma {:induction false} ReverseCurrentsAppend(ws: seq<Wire>, w: Wire)
    ensures ReverseCurrents(ws + [w]) == ReverseCurrents(ws) + [w.(current := -w.current)]
    decreases |ws|
  {
    if ws == [] {
      assert [w][1..] == [];
    } else {
      assert (ws + [w])[1..] == ws[1..] + [w];
      ReverseCurrentsAppend(ws[1..], w);
    }
  }

  /** Reversing every current reverses the total field. */
  lemma {:induction false} FieldOfReversed(ws: seq<Wire>, p: Vec)
    ensures FieldOf(ReverseCurrents(ws), p) == Neg(FieldOf(ws, p))
    decreases |ws|
  {
    if ws != [] {
      var front, w := ws[..|ws| - 1], ws[|ws| - 1];
      var w' := w.(current := -w.current);
      assert ws == front + [w];
      ReverseCurrentsAppend(front, w);
      FieldOfReversed(front, p);
      FieldOfAppend(front, w, p);
      FieldOfAppend(ReverseCurrents(front), w', p);
      ContributionOdd(w, p);
    }
  }

  /** The field of a single wire is its contribution. */
  lemma FieldOfSingle(w: Wire, p: Vec)
    ensures FieldOf([w], p) == Contribution(w, p)
  {
    assert [w][1..] == [];
  }

  /** One wire of 10 A at the origin gives (0, mu0 10 / (2 pi)) at (1, 0). */
  lemma SingleWireExample()
    ensures FieldOf([Wire(0.0, 0.0, 10.0)], Vec(1.0, 0.0)) == Vec(0.0, Mu0 * 10.0 / (2.0 * Pi))
  {
    var w, p := Wire(0.0, 0.0, 10.0), Vec(1.0, 0.0);
    var k := Mu0 * 10.0 / (2.0 * Pi);
    FieldOfSingle(w, p);
    assert Displacement(w, p) == Vec(1.0, 0.0);
    assert SquaredDistance(w, p) == 1.0;
    assert k / 1.0 == k;
    assert Contribution(w, p) == Vec(-0.0 * k, 1.0 * k);
  }
}
