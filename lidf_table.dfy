/**
 * The tabulated inverse-CDF engine of the isotropic leaf angle distributions
 * (src/leaf_angle_distribution.cpp, lidfInit and the zenith half of
 * IsotropicLidfLeafAngleDistribution::sampleNormal), as specification
 * functions over `seq<real>` and the lemmas that say what they promise.
 *
 * A table of n > 2 entries holds the leaf inclination distribution function F
 * on the uniform grid k / (n - 1) * pi / 2, with the two ends pinned to 0 and 1.
 * Sampling inverts it: find the first entry not below u0 (std::lower_bound),
 * then interpolate the fractional table index linearly inside the bracket.
 */
module LidfTable {

  /** Maps a (fractional) table index x of an n-entry table to its zenith angle. */
  function IndexToAngle(x: real, n: int, pi: real): real
    requires n > 1
  {
    x / (n - 1) as real * (pi / 2.0)
  }

  /** The zenith angle of grid point k, where lidfInit evaluates F. */
  function GridAngle(k: int, n: int, pi: real): real
    requires n > 1
  {
    IndexToAngle(k as real, n, pi)
  }

  /** Entry k of the table lidfInit builds: both ends pinned, F in between. */
  function Entry(F: real -> real, pi: real, n: int, k: int): real
    requires n > 1
  {
    if k == 0 then 0.0
    else if k == n - 1 then 1.0
    else F(GridAngle(k, n, pi))
  }

  /** The whole table lidfInit leaves behind for resolution n. */
  function Tabulate(F: real -> real, pi: real, n: int): (t: seq<real>)
    requires n > 2
    ensures |t| == n && PinnedEnds(t)
  {
    seq(n, k => Entry(F, pi, n, k))
  }

  /** First entry 0, last entry 1: what lidfInit forces whatever F gives. */
  predicate PinnedEnds(t: seq<real>) {
    |t| >= 2 && t[0] == 0.0 && t[|t| - 1] == 1.0
  }

  /** Non-decreasing, the invariant a valid leaf inclination CDF gives its table. */
  predicate Sorted(t: seq<real>) {
    forall i, j :: 0 <= i <= j < |t| ==> t[i] <= t[j]
  }

  /**
   * The precondition std::lower_bound places on its range: every entry not
   * below x comes after every entry below x.
   */
  predicate Partitioned(t: seq<real>, x: real) {
    forall i, j :: 0 <= i < j < |t| && x <= t[i] ==> x <= t[j]
  }

  /** F is a distribution function on [0, hi]: non-decreasing, with values in [0, 1]. */
  ghost predicate IsCdfOn(F: real -> real, hi: real) {
    (forall a, b :: 0.0 <= a <= b <= hi ==> F(a) <= F(b)) &&
    (forall a :: 0.0 <= a <= hi ==> 0.0 <= F(a) <= 1.0)
  }

  /**
   * Reference definition of std::lower_bound: the index of the first entry
   * that is not below x, or |t| when there is none.
   */
  function FirstAtLeast(t: seq<real>, x: real): (i: nat)
    ensures i <= |t|
    ensures forall j :: 0 <= j < i ==> t[j] < x
    ensures i < |t| ==> x <= t[i]
  {
    if t == [] || x <= t[0] then 0 else 1 + FirstAtLeast(t[1..], x)
  }

  /**
   * Index i brackets u0 in t: the entry just before i is below u0 and entry i
   * is not. The sampler's two boundary branches are i == 0 and i == |t|.
   */
  predicate IsBracket(t: seq<real>, i: int, u0: real) {
    0 <= i <= |t| &&
    (0 < i ==> t[i - 1] < u0) &&
    (i < |t| ==> u0 <= t[i])
  }

  /**
   * The interpolation branch: fac = (u0 - t[k0]) / (t[k1] - t[k0]) and the
   * fractional index (1 - fac) * k0 + fac * k1 with k1 = k0 + 1. The bracket
   * makes the divisor strictly positive and puts the index in (k0, k1].
   */
  function FractionalIndex(t: seq<real>, k0: nat, u0: real): (x: real)
    requires k0 + 1 < |t|
    requires t[k0] < u0 <= t[k0 + 1]
    ensures k0 as real < x <= (k0 + 1) as real
    ensures x == (k0 + 1) as real <==> u0 == t[k0 + 1]
  {
    var k1 := k0 + 1;
    var fac := (u0 - t[k0]) / (t[k1] - t[k0]);
    FacInUnitInterval(u0 - t[k0], t[k1] - t[k0]);
    (1.0 - fac) * k0 as real + fac * k1 as real
  }

  lemma FacInUnitInterval(num: real, den: real)
    requires 0.0 < num <= den
    ensures 0.0 < num / den <= 1.0
    ensures num / den == 1.0 <==> num == den
  {
  }

  /** The zenith angle the sampler returns once the search has found bracket i. */
  function ZenithAt(t: seq<real>, i: int, u0: real, pi: real): (theta: real)
    requires |t| >= 2 && pi > 0.0
    requires IsBracket(t, i, u0)
    ensures 0.0 <= theta <= pi / 2.0
    ensures theta == 0.0 <==> i == 0
  {
    if i == 0 then 0.0
    else if i == |t| then pi / 2.0
    else
      var x := FractionalIndex(t, i - 1, u0);
      AngleBounds(x, |t|, pi);
      IndexToAngle(x, |t|, pi)
  }

  /**
   * The interpolation branch as the sampler evaluates it, with the divisions
   * in the source's order, is ZenithAt on the bracket k0 + 1.
   */
  lemma InterpolatedZenith(t: seq<real>, i: int, u0: real, pi: real, n: int, k0: nat, k1: nat, lidf0: real, lidf1: real,
                           fac: real, theta: real)
    requires pi > 0.0 && n == |t| && k0 == i - 1 && k1 == i && 0 < i < n
    requires lidf0 == t[k0] && lidf1 == t[k1] && lidf0 < u0 <= lidf1
    requires fac == (u0 - lidf0) / (lidf1 - lidf0)
    requires theta == ((1.0 - fac) * k0 as real + fac * k1 as real) / (n - 1) as real * (pi / 2.0)
    ensures theta == ZenithAt(t, i, u0, pi)
  {
    assert FractionalIndex(t, k0, u0) == (1.0 - fac) * k0 as real + fac * k1 as real;
  }

  /** The zenith angle for u0 on a table std::lower_bound may search. */
  function Zenith(t: seq<real>, u0: real, pi: real): (theta: real)
    requires |t| >= 2 && pi > 0.0
    ensures 0.0 <= theta <= pi / 2.0
  {
    ZenithAt(t, FirstAtLeast(t, u0), u0, pi)
  }

  lemma AngleBounds(x: real, n: int, pi: real)
    requires n > 1 && pi > 0.0 && 0.0 <= x <= (n - 1) as real
    ensures 0.0 <= IndexToAngle(x, n, pi) <= pi / 2.0
    ensures 0.0 < x ==> 0.0 < IndexToAngle(x, n, pi)
    ensures x < (n - 1) as real ==> IndexToAngle(x, n, pi) < pi / 2.0
  {
    var m, h := (n - 1) as real, pi / 2.0;
    var q := x / m;
    assert IndexToAngle(x, n, pi) == q * h;
    DivInUnit(x, m);
    ScaleInUnit(q, h);
    if x < m {
      assert q < 1.0;
      assert q * h < h;
    }
  }

  lemma DivInUnit(x: real, m: real)
    requires 0.0 < m && 0.0 <= x <= m
    ensures 0.0 <= x / m <= 1.0
    ensures 0.0 < x ==> 0.0 < x / m
    ensures x < m ==> x / m < 1.0
  {
  }

  lemma ScaleInUnit(q: real, h: real)
    requires 0.0 < h && 0.0 <= q <= 1.0
    ensures 0.0 <= q * h <= h
    ensures 0.0 < q ==> 0.0 < q * h
    ensures q < 1.0 ==> q * h < h
  {
  }

  lemma IndexToAngleMonotone(x: real, y: real, n: int, pi: real)
    requires n > 1 && pi > 0.0 && x <= y
    ensures IndexToAngle(x, n, pi) <= IndexToAngle(y, n, pi)
  {
    var m := (n - 1) as real;
    assert x / m <= y / m;
  }

  // ---------------------------------------------------------------------------
  // The search
  // ---------------------------------------------------------------------------

  /**
   * std::lower_bound over the table, written as the library runs it: halve a
   * count, step past the probe when it is below x. On any table the result
   * brackets x, so the interpolation never divides by zero; on a range that
   * meets lower_bound's precondition it is the first entry not below x.
   */
  method LowerBound(a: array<real>, x: real) returns (i: nat)
    ensures IsBracket(a[..], i, x)
    ensures Partitioned(a[..], x) ==> i == FirstAtLeast(a[..], x)
  {
    var first: nat, count: nat := 0, a.Length;
    while count > 0
      invariant first + count <= a.Length
      invariant 0 < first ==> a[first - 1] < x
      invariant first + count < a.Length ==> x <= a[first + count]
      invariant Partitioned(a[..], x) ==> forall j :: 0 <= j < first ==> a[j] < x
    {
      var step := count / 2;
      var it := first + step;
      if a[it] < x {
        first := it + 1;
        count := count - step - 1;
      } else {
        count := step;
      }
    }
    i := first;
    if Partitioned(a[..], x) {
      BracketUnique(a[..], i, x);
    }
  }

  /** On a partitioned table exactly one index brackets x: the lower bound. */
  lemma BracketUnique(t: seq<real>, i: int, x: real)
    requires Partitioned(t, x) && IsBracket(t, i, x)
    ensures i == FirstAtLeast(t, x)
  {
  }

  lemma SortedIsPartitioned(t: seq<real>, x: real)
    requires Sorted(t)
    ensures Partitioned(t, x)
  {
  }

  // ---------------------------------------------------------------------------
  // What the sampler promises
  // ---------------------------------------------------------------------------

  /**
   * On a table with pinned ends and u0 in [0, 1), whatever bracket the search
   * found: the past-the-end branch is never taken, theta stays strictly below
   * pi/2, and theta is 0 only for u0 = 0. This holds for any F, sorted or not.
   */
  lemma ZenithAtRange(t: seq<real>, i: int, u0: real, pi: real)
    requires PinnedEnds(t) && pi > 0.0
    requires IsBracket(t, i, u0)
    requires 0.0 <= u0 < 1.0
    ensures i < |t|
    ensures 0.0 <= ZenithAt(t, i, u0, pi) < pi / 2.0
    ensures ZenithAt(t, i, u0, pi) == 0.0 ==> u0 == 0.0
  {
    var n := |t|;
    if i > 0 {
      var x := FractionalIndex(t, i - 1, u0);
      if i == n - 1 {
        assert u0 != t[n - 1];
      }
      AngleBounds(x, n, pi);
    }
  }

  /**
   * For the reference zenith `Zenith`, which brackets u0 with FirstAtLeast,
   * both directions hold: theta is 0 exactly when u0 is 0, and otherwise lies
   * strictly inside (0, pi/2). The sampler equals `Zenith` on partitioned
   * tables, so this carries over to it on every sorted table.
   */
  lemma ZenithRange(t: seq<real>, u0: real, pi: real)
    requires PinnedEnds(t) && pi > 0.0
    requires 0.0 <= u0 < 1.0
    ensures FirstAtLeast(t, u0) < |t|
    ensures 0.0 <= Zenith(t, u0, pi) < pi / 2.0
    ensures Zenith(t, u0, pi) == 0.0 <==> u0 == 0.0
  {
    ZenithAtRange(t, FirstAtLeast(t, u0), u0, pi);
  }

  /**
   * Round trip at a table entry: sampling with u0 = t[k], where the table
   * rises into k (or k is the first entry), gives fac = 1 and exactly the grid
   * angle of k.
   */
  lemma {:induction false} ZenithRoundTrip(t: seq<real>, k: nat, pi: real)
    requires |t| >= 2 && pi > 0.0 && Sorted(t)
    requires k < |t|
    requires k == 0 || t[k - 1] < t[k]
    ensures Zenith(t, t[k], pi) == GridAngle(k, |t|, pi)
  {
    forall j | 0 <= j < k
      ensures t[j] < t[k]
    {
      assert t[j] <= t[k - 1];
    }
    BracketUnique(t, k, t[k]);
    if k > 0 {
      var x := FractionalIndex(t, k - 1, t[k]);
      assert x == k as real;
    }
  }

  /**
   * The draw u0 = 1 on a sorted table with pinned ends gives pi/2 exactly when
   * the entry before the last is below 1; when F already reaches 1 inside the
   * grid, the search stops earlier and theta stays below pi/2.
   */
  lemma ZenithAtOne(t: seq<real>, pi: real)
    requires PinnedEnds(t) && Sorted(t) && |t| > 2 && pi > 0.0
    ensures Zenith(t, 1.0, pi) == pi / 2.0 <==> t[|t| - 2] < 1.0
  {
    if t[|t| - 2] < 1.0 {
      ZenithAtOneRising(t, pi);
    } else {
      ZenithAtOneFlat(t, pi);
    }
  }

  lemma ZenithAtOneRising(t: seq<real>, pi: real)
    requires PinnedEnds(t) && Sorted(t) && |t| > 2 && pi > 0.0
    requires t[|t| - 2] < 1.0
    ensures Zenith(t, 1.0, pi) == pi / 2.0
  {
    var n := |t|;
    ZenithRoundTrip(t, n - 1, pi);
    assert GridAngle(n - 1, n, pi) == 1.0 * (pi / 2.0);
  }

  lemma ZenithAtOneFlat(t: seq<real>, pi: real)
    requires |t| > 2 && pi > 0.0
    requires 1.0 <= t[|t| - 2]
    ensures Zenith(t, 1.0, pi) < pi / 2.0
  {
    var n, i := |t|, FirstAtLeast(t, 1.0);
    assert i <= n - 2;
    if i > 0 {
      var x := FractionalIndex(t, i - 1, 1.0);
      AngleBounds(x, n, pi);
    }
  }

  /** lower_bound moves right as the key grows, on any table. */
  lemma FirstAtLeastMonotone(t: seq<real>, x: real, y: real)
    requires x <= y
    ensures FirstAtLeast(t, x) <= FirstAtLeast(t, y)
  {
  }

  /** Inside one bracket the fractional index grows with u0. */
  lemma FractionalIndexMonotone(t: seq<real>, k0: nat, u: real, v: real)
    requires k0 + 1 < |t|
    requires t[k0] < u <= v <= t[k0 + 1]
    ensures FractionalIndex(t, k0, u) <= FractionalIndex(t, k0, v)
  {
    var d := t[k0 + 1] - t[k0];
    assert (u - t[k0]) / d <= (v - t[k0]) / d;
  }

  /**
   * The reference zenith `Zenith` is a non-decreasing function of u0 on any
   * table: the inverse of a CDF. The sampler equals `Zenith` on partitioned
   * tables, so it is non-decreasing in u0 on every sorted table.
   */
  lemma {:induction false} ZenithMonotone(t: seq<real>, u: real, v: real, pi: real)
    requires |t| >= 2 && pi > 0.0 && u <= v
    ensures Zenith(t, u, pi) <= Zenith(t, v, pi)
  {
    var iu, iv := FirstAtLeast(t, u), FirstAtLeast(t, v);
    FirstAtLeastMonotone(t, u, v);
    if 0 < iu && iv < |t| {
      var xu := FractionalIndex(t, iu - 1, u);
      var xv := FractionalIndex(t, iv - 1, v);
      if iu == iv {
        FractionalIndexMonotone(t, iu - 1, u, v);
      } else {
        assert xu <= iu as real <= (iv - 1) as real < xv;
      }
      IndexToAngleMonotone(xu, xv, |t|, pi);
    }
  }

  /**
   * The zenith block of sampleNormal on the table a: std::lower_bound, the
   * two boundary branches, and otherwise the interpolated fractional index
   * scaled to an angle. The table is only read.
   */
  method SampleZenith(a: array<real>, u0: real, pi: real) returns (theta: real)
    requires a.Length > 2 && pi > 0.0
    ensures 0.0 <= theta <= pi / 2.0
    ensures PinnedEnds(a[..]) && 0.0 <= u0 < 1.0 ==> theta < pi / 2.0 && (theta == 0.0 ==> u0 == 0.0)
    ensures Partitioned(a[..], u0) ==> theta == Zenith(a[..], u0, pi)
    ensures exists i :: IsBracket(a[..], i, u0) && theta == ZenithAt(a[..], i, u0, pi)
  {
    var i := LowerBound(a, u0);
    ghost var t := a[..];
    if i == 0 || i == a.Length {
      theta := if i == 0 then 0.0 else pi / 2.0;
      assert theta == ZenithAt(t, i, u0, pi);
    } else {
      var k0 := i - 1;
      var k1 := k0 + 1;
      var lidf0 := a[k0];
      var lidf1 := a[k1];
      var fac := (u0 - lidf0) / (lidf1 - lidf0);
      theta := ((1.0 - fac) * k0 as real + fac * k1 as real) / (a.Length - 1) as real * (pi / 2.0);
      InterpolatedZenith(t, i, u0, pi, a.Length, k0, k1, lidf0, lidf1, fac, theta);
    }
    if PinnedEnds(t) && 0.0 <= u0 < 1.0 {
      ZenithAtRange(t, i, u0, pi);
    }
    assert IsBracket(a[..], i, u0) && theta == ZenithAt(a[..], i, u0, pi);
  }

  // ---------------------------------------------------------------------------
  // What the table builder promises
  // ---------------------------------------------------------------------------

  lemma GridAngleInRange(k: int, n: int, pi: real)
    requires n > 1 && pi > 0.0 && 0 <= k <= n - 1
    ensures 0.0 <= GridAngle(k, n, pi) <= pi / 2.0
  {
    AngleBounds(k as real, n, pi);
  }

  /** A distribution function on [0, pi/2] yields a sorted table with pinned ends. */
  lemma TabulateSorted(F: real -> real, pi: real, n: int)
    requires n > 2 && pi > 0.0 && IsCdfOn(F, pi / 2.0)
    ensures Sorted(Tabulate(F, pi, n))
  {
    var t := Tabulate(F, pi, n);
    forall i, j | 0 <= i <= j < n
      ensures t[i] <= t[j]
    {
      GridAngleInRange(i, n, pi);
      GridAngleInRange(j, n, pi);
      IndexToAngleMonotone(i as real, j as real, n, pi);
    }
  }

  /**
   * F is consulted only at the interior grid angles: two laws that agree there
   * give the same table, whatever they give at 0 and pi/2.
   */
  lemma TabulateIgnoresEndpoints(F: real -> real, G: real -> real, pi: real, n: int)
    requires n > 2
    requires forall k :: 0 < k < n - 1 ==> F(GridAngle(k, n, pi)) == G(GridAngle(k, n, pi))
    ensures Tabulate(F, pi, n) == Tabulate(G, pi, n)
  {
    var s, t := Tabulate(F, pi, n), Tabulate(G, pi, n);
    forall k | 0 <= k < n
      ensures s[k] == t[k]
    {
    }
  }

  /**
   * Inverse CDF at the grid: on the table of a distribution function F, drawing
   * u0 = F(theta_k) at an interior grid angle where the table rises returns
   * theta_k itself.
   */
  lemma InverseAtGrid(F: real -> real, pi: real, n: int, k: nat)
    requires n > 2 && pi > 0.0 && IsCdfOn(F, pi / 2.0)
    requires 0 < k < n - 1
    requires Tabulate(F, pi, n)[k - 1] < F(GridAngle(k, n, pi))
    ensures Zenith(Tabulate(F, pi, n), F(GridAngle(k, n, pi)), pi) == GridAngle(k, n, pi)
  {
    var t := Tabulate(F, pi, n);
    TabulateSorted(F, pi, n);
    assert t[k] == F(GridAngle(k, n, pi));
    ZenithRoundTrip(t, k, pi);
  }
}
