/**
 * The leaf angle distribution classes of
 * include/leaf-disk-gen/leaf_angle_distribution.hpp and the tabulated sampler
 * of src/leaf_angle_distribution.cpp.
 *
 * The C++ hierarchy puts the table and its final sampler in the isotropic base
 * class and lets each law supply the pure-virtual `lidf`. Here the base is the
 * class IsotropicLidf, which holds the law as a function value; the concrete
 * tabulated laws own one IsotropicLidf built with their own law.
 */
module LeafAngleDistribution {
  import opened LidfTable
  import opened MathLib

  /** The resolution lidfInit defaults to and every tabulated constructor passes. */
  const TableSize: int := 256

  /**
   * IsotropicLidfLeafAngleDistribution: the table `lidf_` (private, filled by
   * lidfInit, read only by the const sampler) and the law it tabulates.
   */
  class IsotropicLidf {
    /** The pure-virtual `lidf` of the concrete law. */
    const lidf: real -> real
    /** The library's pi; M_pi_2 is pi / 2. */
    const pi: real
    /** `lidf_`. */
    var table: array<real>

    ghost predicate Valid()
      reads this, table
    {
      pi > 0.0 && table.Length > 2 && table[..] == Tabulate(lidf, pi, table.Length)
    }

    constructor (lidf: real -> real, pi: real, n: int)
      requires pi > 0.0 && n > 2
      ensures this.lidf == lidf && this.pi == pi
      ensures Valid() && fresh(table) && table.Length == n
    {
      this.lidf := lidf;
      this.pi := pi;
      table := new real[0];
      new;
      LidfInit(n);
    }

    /**
     * lidfInit: size the table to n, evaluate the law at the interior grid
     * angles, then overwrite both ends with 0 and 1.
     */
    method LidfInit(n: int)
      requires n > 2
      modifies this
      ensures fresh(table) && table.Length == n
      ensures table[..] == Tabulate(lidf, pi, n)
    {
      var t := new real[n];
      for k := 1 to n - 1
        invariant forall j :: 1 <= j < k ==> t[j] == lidf(GridAngle(j, n, pi))
      {
        t[k] := lidf(GridAngle(k, n, pi));
      }
      t[0] := 0.0;
      t[n - 1] := 1.0;
      table := t;
      assert forall k :: 0 <= k < n ==> table[k] == Entry(lidf, pi, n, k);
    }

    /**
     * sampleNormal up to the angles, for the draws u0 and u1: the zenith theta
     * from the table, and the azimuth phi = 2 pi u1. The sampler only reads
     * the table.
     */
    method SampleNormal(u0: real, u1: real) returns (theta: real, phi: real)
      requires Valid()
      ensures 0.0 <= theta <= pi / 2.0
      ensures 0.0 <= u0 < 1.0 ==> theta < pi / 2.0 && (theta == 0.0 ==> u0 == 0.0)
      ensures Partitioned(table[..], u0) ==> theta == Zenith(table[..], u0, pi)
      ensures phi == 2.0 * pi * u1
    {
      theta := SampleZenith(table, u0, pi);
      phi := 2.0 * pi * u1;
    }
  }

  /** TrigonometricLeafAngleDistribution::Type, in declaration order. */
  datatype TrigType = Planophile | Erectophile | Plagiophile | Extremophile | Spherical

  /** The value of each enumerator. */
  function Code(t: TrigType): nat {
    match t
    case Planophile => 0
    case Erectophile => 1
    case Plagiophile => 2
    case Extremophile => 3
    case Spherical => 4
  }

  /**
   * The case a stored type value selects in the lidf switch: codes 1 to 4
   * their enumerator, every other value the `default` label, which shares
   * Planophile's case.
   */
  function SwitchCase(code: int): (t: TrigType)
    ensures 0 <= code < 5 ==> Code(t) == code
    ensures t == Planophile <==> !(1 <= code < 5)
  {
    if code == 1 then Erectophile
    else if code == 2 then Plagiophile
    else if code == 3 then Extremophile
    else if code == 4 then Spherical
    else Planophile
  }

  lemma SwitchCaseOfCode(t: TrigType)
    ensures SwitchCase(Code(t)) == t
  {
  }

  /**
   * TrigonometricLeafAngleDistribution::lidf: the switch on the stored type
   * value `code` selects the closed-form law of its case. Where sin 0 = 0 and
   * cos 0 = 1 every law starts at 0.
   */
  function TrigonometricLidf(m: Math, code: int, theta: real): (f: real)
    requires PositivePi(m)
    ensures theta == 0.0 && m.sin(0.0) == 0.0 && m.cos(0.0) == 1.0 ==> f == 0.0
  {
    var halfPi := m.pi / 2.0;
    match SwitchCase(code)
    case Planophile => (theta + m.sin(2.0 * theta) / 2.0) / halfPi
    case Erectophile => (theta - m.sin(2.0 * theta) / 2.0) / halfPi
    case Plagiophile => (theta - m.sin(4.0 * theta) / 4.0) / halfPi
    case Extremophile => (theta + m.sin(4.0 * theta) / 4.0) / halfPi
    case Spherical => 1.0 - m.cos(theta)
  }

  /** The law of one type, stored as its value, as the function the base class tabulates. */
  function TrigonometricLaw(m: Math, t: TrigType): real -> real
    requires PositivePi(m)
  {
    theta => TrigonometricLidf(m, Code(t), theta)
  }

  /**
   * With the exact values of sin and cos at 0, pi/2, pi and 2 pi, every
   * closed-form law starts at 0 and ends at 1: the values lidfInit pins.
   * This holds for every stored value, the ones the default label catches
   * included.
   */
  lemma TrigonometricLidfEndpoints(m: Math, code: int)
    requires PositivePi(m)
    requires m.sin(0.0) == 0.0 && m.cos(0.0) == 1.0
    requires m.sin(m.pi) == 0.0 && m.sin(2.0 * m.pi) == 0.0 && m.cos(m.pi / 2.0) == 0.0
    ensures TrigonometricLidf(m, code, 0.0) == 0.0
    ensures TrigonometricLidf(m, code, m.pi / 2.0) == 1.0
  {
    var halfPi := m.pi / 2.0;
    assert 2.0 * halfPi == m.pi && 4.0 * halfPi == 2.0 * m.pi;
    match SwitchCase(code)
    case Spherical =>
    case _ =>
      assert halfPi / halfPi == 1.0;
  }

  /** TrigonometricLeafAngleDistribution. */
  class TrigonometricDistribution {
    const trigType: TrigType
    const base: IsotropicLidf

    /** Stores the type and builds the table of its law with 256 entries. */
    constructor (trigType: TrigType, m: Math)
      requires PositivePi(m)
      ensures this.trigType == trigType
      ensures fresh(base) && fresh(base.table) && base.Valid()
      ensures base.lidf == TrigonometricLaw(m, trigType) && base.pi == m.pi
      ensures base.table.Length == TableSize
    {
      this.trigType := trigType;
      base := new IsotropicLidf(TrigonometricLaw(m, trigType), m.pi, TableSize);
    }
  }

  /**
   * VerhoefBimodalLeafAngleDistribution. Its law is the result of a
   * fixed-point iteration in the coefficients a and b, passed in as `solve`.
   * The constructor does not check |a| + |b| <= 1; only the factory does.
   */
  class VerhoefBimodalDistribution {
    const a: real
    const b: real
    const base: IsotropicLidf

    constructor (a: real, b: real, solve: (real, real, real) -> real, m: Math)
      requires PositivePi(m)
      ensures this.a == a && this.b == b
      ensures fresh(base) && fresh(base.table) && base.Valid()
      ensures base.lidf == VerhoefLaw(solve, a, b) && base.pi == m.pi
      ensures base.table.Length == TableSize
    {
      this.a := a;
      this.b := b;
      base := new IsotropicLidf(VerhoefLaw(solve, a, b), m.pi, TableSize);
    }
  }

  function VerhoefLaw(solve: (real, real, real) -> real, a: real, b: real): real -> real {
    theta => solve(a, b, theta)
  }

  /** TrowbridgeReitzLeafAngleDistribution: two roughness values, stored as given. */
  class TrowbridgeReitzDistribution {
    const alphax: real
    const alphay: real

    constructor Default()
      ensures alphax == 1.0 && alphay == 1.0
    {
      alphax, alphay := 1.0, 1.0;
    }

    constructor (alphax: real, alphay: real)
      ensures this.alphax == alphax && this.alphay == alphay
    {
      this.alphax, this.alphay := alphax, alphay;
    }
  }

  /** BeckmannLeafAngleDistribution: two roughness values, stored as given. */
  class BeckmannDistribution {
    const alphax: real
    const alphay: real

    constructor Default()
      ensures alphax == 1.0 && alphay == 1.0
    {
      alphax, alphay := 1.0, 1.0;
    }

    constructor (alphax: real, alphay: real)
      ensures this.alphax == alphax && this.alphay == alphay
    {
      this.alphax, this.alphay := alphax, alphay;
    }
  }
}
