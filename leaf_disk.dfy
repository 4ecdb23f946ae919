/**
 * The leaf disk of include/leaf-disk-gen/leaf_disk.hpp and its two writers in
 * src/leaf_disk.cpp.
 *
 * A disk is a plain record (position, unit normal, radius) with two
 * closed-form area helpers. The writers stream text; here they return what
 * they would print, record by record: the OBJ writer a list of vertex and
 * face records, the GList writer the 16 numbers of its matrix. The
 * orthonormal basis `tbn` that Mat3::build_onb derives from the normal is an
 * input, and so are pi, sin and cos.
 */
module LeafDisk {
  import opened MathLib

  datatype Vec3 = Vec3(x: real, y: real, z: real)

  /** v[j]. */
  function Component(v: Vec3, j: nat): real
    requires j < 3
  {
    if j == 0 then v.x else if j == 1 then v.y else v.z
  }

  function Dot(a: Vec3, b: Vec3): real {
    a.x * b.x + a.y * b.y + a.z * b.z
  }

  function Neg(v: Vec3): Vec3 {
    Vec3(-v.x, -v.y, -v.z)
  }

  function Add(a: Vec3, b: Vec3): Vec3 {
    Vec3(a.x + b.x, a.y + b.y, a.z + b.z)
  }

  function Sub(a: Vec3, b: Vec3): Vec3 {
    Vec3(a.x - b.x, a.y - b.y, a.z - b.z)
  }

  function Scale(c: real, v: Vec3): Vec3 {
    Vec3(c * v.x, c * v.y, c * v.z)
  }

  predicate IsUnit(v: Vec3) {
    Dot(v, v) == 1.0
  }

  /** A 3 x 3 matrix by rows; Entry(m, j, i) is m[j][i]. */
  datatype Mat3 = Mat3(row0: Vec3, row1: Vec3, row2: Vec3)

  function Row(m: Mat3, j: nat): Vec3
    requires j < 3
  {
    if j == 0 then m.row0 else if j == 1 then m.row1 else m.row2
  }

  function Entry(m: Mat3, j: nat, i: nat): real
    requires j < 3 && i < 3
  {
    Component(Row(m, j), i)
  }

  /** transpose(m)[i]: the i-th column. */
  function Column(m: Mat3, i: nat): Vec3
    requires i < 3
  {
    Vec3(Entry(m, 0, i), Entry(m, 1, i), Entry(m, 2, i))
  }

  // ---------------------------------------------------------------------------
  // The disk and its areas
  // ---------------------------------------------------------------------------

  datatype Disk = Disk(pos: Vec3, normal: Vec3, radius: real)

  /** The member initialisers: at the origin, facing +z, of radius 1. */
  const DefaultDisk: Disk := Disk(Vec3(0.0, 0.0, 0.0), Vec3(0.0, 0.0, 1.0), 1.0)

  /** computeArea: pi r^2, never negative, and nothing for a disk of radius zero. */
  function Area(d: Disk, pi: real): (a: real)
    ensures pi >= 0.0 ==> a >= 0.0
    ensures d.radius == 0.0 ==> a == 0.0
  {
    assert d.radius * d.radius >= 0.0;
    assert d.radius == 0.0 ==> pi * (d.radius * d.radius) == pi * 0.0;
    pi * (d.radius * d.radius)
  }

  /**
   * computeProjectedArea: the area seen along dir, scaled by |normal . dir|;
   * never negative, and nothing when the disk is seen edge-on.
   */
  function ProjectedArea(d: Disk, dir: Vec3, pi: real): (a: real)
    ensures pi >= 0.0 ==> a >= 0.0
    ensures Dot(d.normal, dir) == 0.0 ==> a == 0.0
  {
    Area(d, pi) * Abs(Dot(d.normal, dir))
  }

  /** The default disk has a unit normal and the area of the unit circle. */
  lemma DefaultDiskShape(pi: real)
    ensures IsUnit(DefaultDisk.normal)
    ensures Area(DefaultDisk, pi) == pi
    ensures ProjectedArea(DefaultDisk, Vec3(0.0, 0.0, 1.0), pi) == pi
  {
    DefaultNormal();
    DefaultArea(pi);
    ScaleByOne(Area(DefaultDisk, pi), Abs(Dot(DefaultDisk.normal, Vec3(0.0, 0.0, 1.0))));
  }

  lemma DefaultNormal()
    ensures IsUnit(DefaultDisk.normal) && Abs(Dot(DefaultDisk.normal, Vec3(0.0, 0.0, 1.0))) == 1.0
  {
    var up := Vec3(0.0, 0.0, 1.0);
    assert Dot(up, up) == 0.0 * 0.0 + 0.0 * 0.0 + 1.0 * 1.0;
  }

  lemma DefaultArea(pi: real)
    ensures Area(DefaultDisk, pi) == pi
  {
    assert Area(DefaultDisk, pi) == pi * (1.0 * 1.0);
  }

  lemma ScaleByOne(a: real, b: real)
    requires b == 1.0
    ensures a * b == a
  {
  }

  /** The area is never negative and depends on the radius alone. */
  lemma AreaNonNegative(d: Disk, e: Disk, pi: real)
    requires pi >= 0.0
    ensures Area(d, pi) >= 0.0
    ensures d.radius == e.radius ==> Area(d, pi) == Area(e, pi)
  {
    assert d.radius * d.radius >= 0.0;
  }

  /** The projected area is never negative and does not see the sign of dir. */
  lemma ProjectedAreaSymmetric(d: Disk, dir: Vec3, pi: real)
    requires pi >= 0.0
    ensures ProjectedArea(d, dir, pi) >= 0.0
    ensures ProjectedArea(d, Neg(dir), pi) == ProjectedArea(d, dir, pi)
  {
    AreaNonNegative(d, d, pi);
    DotNeg(d.normal, dir);
  }

  lemma DotNeg(a: Vec3, b: Vec3)
    ensures Dot(a, Neg(b)) == -Dot(a, b)
  {
    assert a.x * -b.x == -(a.x * b.x) && a.y * -b.y == -(a.y * b.y) && a.z * -b.z == -(a.z * b.z);
  }

  /** Cauchy-Schwarz for unit vectors. */
  lemma UnitDotBound(a: Vec3, b: Vec3)
    requires IsUnit(a) && IsUnit(b)
    ensures -1.0 <= Dot(a, b) <= 1.0
  {
    var dm, dp := Sub(a, b), Add(a, b);
    assert Dot(dm, dm) == Dot(a, a) - 2.0 * Dot(a, b) + Dot(b, b);
    assert Dot(dp, dp) == Dot(a, a) + 2.0 * Dot(a, b) + Dot(b, b);
    assert Dot(dm, dm) >= 0.0 && Dot(dp, dp) >= 0.0;
  }

  lemma ScaleAtMost(a: real, t: real)
    requires a >= 0.0 && 0.0 <= t <= 1.0
    ensures 0.0 <= a * t <= a
  {
    assert a * t <= a * 1.0;
  }

  /** For a unit normal and a unit direction the projected area never exceeds the area. */
  lemma ProjectedAreaAtMostArea(d: Disk, dir: Vec3, pi: real)
    requires pi >= 0.0 && IsUnit(d.normal) && IsUnit(dir)
    ensures 0.0 <= ProjectedArea(d, dir, pi) <= Area(d, pi)
  {
    UnitDotBound(d.normal, dir);
    AreaNonNegative(d, d, pi);
    var a, t := Area(d, pi), Abs(Dot(d.normal, dir));
    ScaleAtMost(a, t);
    assert ProjectedArea(d, dir, pi) == a * t;
  }

  /**
   * For a unit normal the projected area is the whole area face-on, from
   * either side, and vanishes edge-on.
   */
  lemma ProjectedAreaFaceOnEdgeOn(d: Disk, dir: Vec3, pi: real)
    requires IsUnit(d.normal)
    ensures dir == d.normal || dir == Neg(d.normal) ==> ProjectedArea(d, dir, pi) == Area(d, pi)
    ensures Dot(d.normal, dir) == 0.0 ==> ProjectedArea(d, dir, pi) == 0.0
  {
    if dir == Neg(d.normal) {
      DotNeg(d.normal, d.normal);
    }
  }

  // ---------------------------------------------------------------------------
  // OBJ output
  // ---------------------------------------------------------------------------

  /** unsigned int: values below 2^32, arithmetic modulo 2^32. */
  const U32: int := 0x1_0000_0000

  type Unsigned = x: int | 0 <= x < U32

  function Wrap(x: int): Unsigned {
    x % U32
  }

  /** A line of the OBJ file: `v x y z`, or `f a b c` with 1-based indices. */
  datatype ObjRecord = Vertex(p: Vec3) | Face(v0: int, v1: int, v2: int)

  /** The ring resolution writeObj uses: at least three vertices. */
  function ClampRes(verRes: Unsigned): (res: Unsigned)
    ensures res >= 3
    ensures verRes >= 3 ==> res == verRes
    ensures verRes < 3 ==> res == 3
  {
    if verRes < 3 then 3 else verRes
  }

  /** The angle of ring vertex j: j / res * 2 pi. */
  function RingAngle(j: nat, res: nat, pi: real): real
    requires res > 0
  {
    j as real / res as real * 2.0 * pi
  }

  /** pos + r c hatu + r s hatv, hatu and hatv the first two columns of tbn. */
  function CircleCombination(d: Disk, tbn: Mat3, c: real, s: real): Vec3 {
    Add(Add(Scale(d.radius * c, Column(tbn, 0)), Scale(d.radius * s, Column(tbn, 1))), d.pos)
  }

  /**
   * Ring vertex j: the circle point at angle phi_j in the plane of hatu and
   * hatv. A disk of radius zero puts every ring vertex on its centre, and the
   * first ring vertex lies r along hatu from the centre.
   */
  function RingVertex(d: Disk, tbn: Mat3, m: Math, j: nat, res: nat): (v: Vec3)
    requires res > 0
    ensures d.radius == 0.0 ==> v == d.pos
    ensures j == 0 && m.cos(0.0) == 1.0 && m.sin(0.0) == 0.0 ==> v == Add(Scale(d.radius, Column(tbn, 0)), d.pos)
  {
    var phi := RingAngle(j, res, m.pi);
    CircleAtZeroRadius(d, tbn, m.cos(phi), m.sin(phi));
    assert j == 0 ==> phi == 0.0;
    CircleAtZeroAngle(d, tbn, m.cos(phi), m.sin(phi));
    CircleCombination(d, tbn, m.cos(phi), m.sin(phi))
  }

  lemma CircleAtZeroRadius(d: Disk, tbn: Mat3, c: real, s: real)
    ensures d.radius == 0.0 ==> CircleCombination(d, tbn, c, s) == d.pos
  {
    if d.radius == 0.0 {
      var u, v := Scale(d.radius * c, Column(tbn, 0)), Scale(d.radius * s, Column(tbn, 1));
      ScaleByZero(d.radius * c, Column(tbn, 0), u);
      ScaleByZero(d.radius * s, Column(tbn, 1), v);
    }
  }

  lemma ScaleByZero(k: real, w: Vec3, u: Vec3)
    requires k == 0.0 && u == Scale(k, w)
    ensures u == Vec3(0.0, 0.0, 0.0)
  {
  }

  lemma CircleAtZeroAngle(d: Disk, tbn: Mat3, c: real, s: real)
    ensures c == 1.0 && s == 0.0 ==> CircleCombination(d, tbn, c, s) == Add(Scale(d.radius, Column(tbn, 0)), d.pos)
  {
    if c == 1.0 && s == 0.0 {
      assert d.radius * c == d.radius && d.radius * s == 0.0;
    }
  }

  /**
   * Face j of the fan, as printed: the centre vertex, ring vertex j and ring
   * vertex j + 1 (wrapping to 0), in 1-based numbering after the off vertices
   * of earlier disks, all in unsigned arithmetic.
   */
  function FanFace(off: Unsigned, res: Unsigned, j: nat): (f: ObjRecord)
    requires res > 0
    ensures f.Face?
    ensures f.v1 != f.v2 <==> res > 1
  {
    var a, b := j % res, (j + 1) % res;
    SuccessorsDiffer(j, res);
    WrapDistinct(off + 2, a, b);
    Face(Wrap(off + 1), Wrap(off + 2 + a), Wrap(off + 2 + b))
  }

  /** Modulo more than one, consecutive numbers leave different remainders. */
  lemma SuccessorsDiffer(j: int, res: int)
    requires res > 0
    ensures j % res != (j + 1) % res <==> res > 1
  {
    var q, a := j / res, j % res;
    if res > 1 {
      if a + 1 < res {
        ModUnique(j + 1, res, q, a + 1);
      } else {
        MulSucc(q, res);
        ModUnique(j + 1, res, q + 1, 0);
      }
    }
  }

  /** The remainder is the only one in [0, m) that leaves a multiple of m. */
  lemma ModUnique(x: int, m: int, q: int, r: int)
    requires m > 0 && 0 <= r < m && x == q * m + r
    ensures x % m == r
  {
    var q', r' := x / m, x % m;
    assert x == q' * m + r';
    if q' < q {
      MulSucc(q', m);
      MulMonotone(q' + 1, q, m);
    } else if q < q' {
      MulSucc(q, m);
      MulMonotone(q + 1, q', m);
    }
  }

  /** Two offsets below 2^32 apart stay apart in unsigned arithmetic. */
  lemma WrapDistinct(x: int, a: int, b: int)
    requires 0 <= a < U32 && 0 <= b < U32
    ensures Wrap(x + a) == Wrap(x + b) <==> a == b
  {
  }

  /** A call's indices stay below 2^32: the highest one it prints is off + res + 1. */
  predicate NoWrap(off: int, res: int) {
    0 <= off && 0 < res && off + res + 1 < U32
  }

  /**
   * LeafDisk::writeObj. The in/out ver_offset is the parameter verOffset and
   * the result newOffset. The records are the centre vertex, the res ring
   * vertices and the res fan faces, res being verRes clamped to at least 3.
   */
  method WriteObj(d: Disk, tbn: Mat3, m: Math, verOffset: Unsigned, verRes: Unsigned)
    returns (records: seq<ObjRecord>, newOffset: Unsigned)
    ensures var res := ClampRes(verRes);
      && |records| == 2 * res + 1
      && records[0] == Vertex(d.pos)
      && (forall j :: 0 <= j < res ==> records[1 + j] == Vertex(RingVertex(d, tbn, m, j, res)))
      && (forall j :: 0 <= j < res ==> records[res + 1 + j] == FanFace(verOffset, res, j))
      && newOffset == Wrap(verOffset + res + 1)
  {
    var res: int := verRes;
    if res < 3 {
      res := 3;
    }
    var ring := WriteRing(d, tbn, m, res);
    var fan := WriteFan(verOffset, res);
    records := [Vertex(d.pos)] + ring + fan;
    ObjRecordsOf(d, tbn, m, verOffset, res, ring, fan, records);
    newOffset := Wrap(verOffset + Wrap(res + 1));
    assert newOffset == Wrap(verOffset + res + 1) by {
      WrapSum(verOffset, res + 1);
    }
  }

  /** The centre, then the ring, then the fan: where each record of one call sits. */
  lemma ObjRecordsOf(d: Disk, tbn: Mat3, m: Math, off: Unsigned, res: Unsigned,
                     ring: seq<ObjRecord>, fan: seq<ObjRecord>, recs: seq<ObjRecord>)
    requires res > 0 && |ring| == res && |fan| == res
    requires forall j :: 0 <= j < res ==> ring[j] == Vertex(RingVertex(d, tbn, m, j, res))
    requires forall j :: 0 <= j < res ==> fan[j] == FanFace(off, res, j)
    requires recs == [Vertex(d.pos)] + ring + fan
    ensures |recs| == 2 * res + 1 && recs[0] == Vertex(d.pos)
    ensures forall j :: 0 <= j < res ==> recs[1 + j] == Vertex(RingVertex(d, tbn, m, j, res))
    ensures forall j :: 0 <= j < res ==> recs[res + 1 + j] == FanFace(off, res, j)
  {
    forall j | 0 <= j < res
      ensures recs[1 + j] == ring[j] && recs[res + 1 + j] == fan[j]
    {
    }
  }

  /** The vertex loop of writeObj: ring vertex j at angle j / res * 2 pi, for j < res. */
  method WriteRing(d: Disk, tbn: Mat3, m: Math, res: Unsigned) returns (ring: seq<ObjRecord>)
    requires res > 0
    ensures |ring| == res
    ensures forall j :: 0 <= j < res ==> ring[j] == Vertex(RingVertex(d, tbn, m, j, res))
  {
    ring := [];
    for j := 0 to res
      invariant |ring| == j
      invariant forall i :: 0 <= i < j ==> ring[i] == Vertex(RingVertex(d, tbn, m, i, res))
    {
      var phi := j as real / res as real * 2.0 * m.pi;
      var ver := Add(Add(Scale(d.radius * m.cos(phi), Column(tbn, 0)), Scale(d.radius * m.sin(phi), Column(tbn, 1))), d.pos);
      RingVertexAsComputed(d, tbn, m, j, res, phi, ver);
      ring := ring + [Vertex(ver)];
    }
  }

  /** The triangle loop of writeObj: face j of the fan, in unsigned arithmetic, for j < res. */
  method WriteFan(verOffset: Unsigned, res: Unsigned) returns (fan: seq<ObjRecord>)
    requires res > 0
    ensures |fan| == res
    ensures forall j :: 0 <= j < res ==> fan[j] == FanFace(verOffset, res, j)
  {
    fan := [];
    for j := 0 to res
      invariant |fan| == j
      invariant forall i :: 0 <= i < j ==> fan[i] == FanFace(verOffset, res, i)
    {
      var face := WriteFace(verOffset, res, j);
      fan := fan + [face];
    }
  }

  /** One pass of the triangle loop: the unsigned indices v0, v1, v2, printed plus one. */
  method WriteFace(verOffset: Unsigned, res: Unsigned, j: nat) returns (face: ObjRecord)
    requires 0 < res && j < res
    ensures face == FanFace(verOffset, res, j)
  {
    var a, b := (j + 0) % res, (j + 1) % res;
    var v0: Unsigned := Wrap(0 + verOffset);
    var v1: Unsigned := Wrap(1 + a + verOffset);
    var v2: Unsigned := Wrap(1 + b + verOffset);
    face := Face(Wrap(v0 + 1), Wrap(v1 + 1), Wrap(v2 + 1));
    FaceAsPrinted(verOffset, res, j, a, b, v0, v1, v2);
  }

  /** The loop's computation of ring vertex j is RingVertex. */
  lemma RingVertexAsComputed(d: Disk, tbn: Mat3, m: Math, j: nat, res: nat, phi: real, ver: Vec3)
    requires res > 0
    requires phi == j as real / res as real * 2.0 * m.pi
    requires ver == Add(Add(Scale(d.radius * m.cos(phi), Column(tbn, 0)), Scale(d.radius * m.sin(phi), Column(tbn, 1))), d.pos)
    ensures ver == RingVertex(d, tbn, m, j, res)
  {
    assert phi == RingAngle(j, res, m.pi);
  }

  lemma WrapSmall(x: int)
    requires 0 <= x < U32
    ensures Wrap(x) == x
  {
  }

  lemma ModSmall(a: int, b: int)
    requires 0 <= a < b
    ensures a % b == a
  {
  }

  lemma ModNext(j: int, res: int)
    requires 0 <= j < res
    ensures (j + 1) % res == if j + 1 < res then j + 1 else 0
  {
    if j + 1 < res {
      ModSmall(j + 1, res);
    }
  }

  /**
   * Without wrap-around the printed indices are the 1-based positions
   * themselves: the centre is off + 1 and ring vertex i is off + 2 + i.
   */
  lemma FanFaceExact(off: Unsigned, res: Unsigned, j: nat)
    requires NoWrap(off, res) && j < res
    ensures FanFace(off, res, j) == Face(off + 1, off + 2 + j, off + 2 + (if j + 1 < res then j + 1 else 0))
  {
    ModSmall(j, res);
    ModNext(j, res);
    WrapSmall(off + 1);
    WrapSmall(off + 2 + j);
    WrapSmall(off + 2 + (if j + 1 < res then j + 1 else 0));
  }

  /**
   * The source's unsigned computation of face j, v_i = Wrap(...) printed as
   * Wrap(v_i + 1), gives the indices of FanFace(off, res, j).
   */
  lemma FaceAsPrinted(off: Unsigned, res: Unsigned, j: nat, a: int, b: int, v0: int, v1: int, v2: int)
    requires 0 < res && j < res && a == (j + 0) % res && b == (j + 1) % res
    requires v0 == Wrap(0 + off) && v1 == Wrap(1 + a + off) && v2 == Wrap(1 + b + off)
    ensures Face(Wrap(v0 + 1), Wrap(v1 + 1), Wrap(v2 + 1)) == FanFace(off, res, j)
  {
    ModSmall(j, res);
    ModSmall(j + 0, res);
    PrintedFace(off, a, j % res, b, v0, v1, v2, FanFace(off, res, j));
  }

  /** The face with ring indices a and b, as printed: each index wrapped, then 1 added and wrapped again. */
  lemma PrintedFace(off: Unsigned, a: nat, a': nat, b: nat, v0: int, v1: int, v2: int, face: ObjRecord)
    requires a == a' && face == Face(Wrap(off + 1), Wrap(off + 2 + a'), Wrap(off + 2 + b))
    requires v0 == Wrap(0 + off) && v1 == Wrap(1 + a + off) && v2 == Wrap(1 + b + off)
    ensures Face(Wrap(v0 + 1), Wrap(v1 + 1), Wrap(v2 + 1)) == face
  {
    WrapSucc(off);
    PrintedIndex(off, a, v1);
    PrintedIndex(off, b, v2);
  }

  /** A ring index printed as Wrap(1 + a + off) + 1, wrapped again. */
  lemma PrintedIndex(off: int, a: int, v: int)
    requires off >= 0 && a >= 0 && v == Wrap(1 + a + off)
    ensures Wrap(v + 1) == Wrap(off + 2 + a)
  {
    WrapSucc(1 + a + off);
  }

  lemma WrapSucc(x: int)
    requires x >= 0
    ensures Wrap(Wrap(x) + 1) == Wrap(x + 1)
  {
  }

  lemma WrapSum(a: int, b: int)
    requires a >= 0 && b >= 0
    ensures Wrap(a + Wrap(b)) == Wrap(a + b)
  {
  }

  /** The number of vertex records in recs: what a writer adds to ver_offset. */
  function VertexCount(recs: seq<ObjRecord>): nat {
    if recs == [] then 0
    else VertexCount(recs[..|recs| - 1]) + (if recs[|recs| - 1].Vertex? then 1 else 0)
  }

  /**
   * Without wrap-around each face of the fan reads the centre (the first
   * vertex of this call, 1-based off + 1) and two ring vertices of this call,
   * all within off + 1 .. off + res + 1, and no two of its corners coincide.
   */
  lemma FanFaceInRange(off: Unsigned, res: Unsigned, j: nat)
    requires NoWrap(off, res) && res >= 2 && j < res
    ensures var f := FanFace(off, res, j);
      && f.v0 == off + 1
      && off + 2 <= f.v1 <= off + res + 1
      && off + 2 <= f.v2 <= off + res + 1
      && f.v0 != f.v1 && f.v1 != f.v2 && f.v2 != f.v0
  {
    FanFaceExact(off, res, j);
  }

  /**
   * The fan closes: each face ends at the ring vertex the next one starts
   * from, and the last face ends at the first ring vertex.
   */
  lemma {:induction false} FanCloses(off: Unsigned, res: Unsigned, j: nat)
    requires 0 < res && j < res
    ensures FanFace(off, res, j).v2 == FanFace(off, res, (j + 1) % res).v1
    ensures FanFace(off, res, res - 1).v2 == FanFace(off, res, 0).v1
  {
    ModNext(j, res);
    ModSmall((j + 1) % res, res);
    ModSmall(0, res);
    ModNext(res - 1, res);
  }

  /**
   * Every ring vertex, printed as Wrap(off + 2 + i), starts exactly one face,
   * face i, and ends exactly one, the face before it around the ring; without
   * wrap-around its index is off + 2 + i itself.
   */
  lemma RingVertexShared(off: Unsigned, res: Unsigned, i: nat, j: nat)
    requires 0 < res && i < res && j < res
    ensures FanFace(off, res, j).v1 == Wrap(off + 2 + i) <==> j == i
    ensures FanFace(off, res, j).v2 == Wrap(off + 2 + i) <==> j == (if i == 0 then res - 1 else i - 1)
    ensures NoWrap(off, res) ==> Wrap(off + 2 + i) == off + 2 + i
  {
    ModSmall(j, res);
    ModNext(j, res);
    WrapDistinct(off + 2, j, i);
    WrapDistinct(off + 2, (j + 1) % res, i);
    if NoWrap(off, res) {
      WrapSmall(off + 2 + i);
    }
  }

  /**
   * Two successive calls, the second starting from the offset the first
   * returned, print disjoint index ranges: every index of the first call lies
   * below every index of the second.
   */
  lemma SuccessiveCallsDisjoint(off: Unsigned, res: Unsigned, off': Unsigned, res': Unsigned, j: nat, j': nat)
    requires NoWrap(off, res) && res >= 2 && j < res
    requires off' == Wrap(off + res + 1) && NoWrap(off', res') && res' >= 2 && j' < res'
    ensures var f, f' := FanFace(off, res, j), FanFace(off', res', j');
      f.v0 < f'.v0 && f.v1 < f'.v0 && f.v2 < f'.v0 && off' == off + res + 1
  {
    WrapSmall(off + res + 1);
    FanFaceInRange(off, res, j);
    FanFaceInRange(off', res', j');
  }

  lemma MulMonotone(a: int, b: int, c: int)
    requires a <= b && c >= 0
    ensures a * c <= b * c
  {
  }

  lemma MulSucc(a: int, c: int)
    ensures (a + 1) * c == a * c + c
  {
  }

  /** Every face in recs prints indices within lo .. hi. */
  predicate FacesWithin(recs: seq<ObjRecord>, lo: int, hi: int) {
    forall k :: 0 <= k < |recs| && recs[k].Face? ==>
      lo <= recs[k].v0 <= hi && lo <= recs[k].v1 <= hi && lo <= recs[k].v2 <= hi
  }

  lemma {:induction false} VertexCountAppend(a: seq<ObjRecord>, b: seq<ObjRecord>)
    ensures VertexCount(a + b) == VertexCount(a) + VertexCount(b)
    decreases |b|
  {
    if b != [] {
      var b' := b[..|b| - 1];
      assert (a + b)[..|a + b| - 1] == a + b';
      VertexCountAppend(a, b');
    } else {
      assert a + b == a;
    }
  }

  /** A run of n vertex records followed only by faces holds n vertices. */
  lemma {:induction false} VertexCountOfRun(recs: seq<ObjRecord>, n: nat)
    requires n <= |recs|
    requires forall k :: 0 <= k < n ==> recs[k].Vertex?
    requires forall k :: n <= k < |recs| ==> recs[k].Face?
    ensures VertexCount(recs) == n
    decreases |recs|
  {
    if recs != [] {
      var init := recs[..|recs| - 1];
      if |recs| > n {
        VertexCountOfRun(init, n);
      } else {
        VertexCountOfRun(init, n - 1);
      }
    }
  }

  /**
   * What one writeObj call adds when its indices do not wrap: res + 1
   * vertices, and faces that read only those, at 1-based positions
   * off + 1 .. off + res + 1.
   */
  lemma ObjCallShape(recs: seq<ObjRecord>, d: Disk, tbn: Mat3, m: Math, off: Unsigned, res: Unsigned)
    requires res >= 3 && NoWrap(off, res)
    requires |recs| == 2 * res + 1 && recs[0] == Vertex(d.pos)
    requires forall j :: 0 <= j < res ==> recs[1 + j] == Vertex(RingVertex(d, tbn, m, j, res))
    requires forall j :: 0 <= j < res ==> recs[res + 1 + j] == FanFace(off, res, j)
    ensures VertexCount(recs) == res + 1
    ensures FacesWithin(recs, off + 1, off + res + 1)
  {
    forall k | 1 <= k < res + 1
      ensures recs[k].Vertex?
    {
      var j := k - 1;
      assert recs[1 + j] == Vertex(RingVertex(d, tbn, m, j, res));
    }
    forall k | res + 1 <= k < |recs|
      ensures recs[k] == FanFace(off, res, k - res - 1)
    {
      var j := k - res - 1;
      assert recs[res + 1 + j] == FanFace(off, res, j);
    }
    VertexCountOfRun(recs, res + 1);
    forall k | 0 <= k < |recs| && recs[k].Face?
      ensures off + 1 <= recs[k].v0 <= off + res + 1 && off + 1 <= recs[k].v1 <= off + res + 1
      ensures off + 1 <= recs[k].v2 <= off + res + 1
    {
      FanFaceInRange(off, res, k - res - 1);
    }
  }

  lemma FacesWithinAppend(a: seq<ObjRecord>, b: seq<ObjRecord>, lo: int, mid: int, hi: int)
    requires lo <= mid + 1 && mid <= hi
    requires FacesWithin(a, lo, mid) && FacesWithin(b, mid + 1, hi)
    ensures FacesWithin(a + b, lo, hi)
  {
    forall k | 0 <= k < |a + b| && (a + b)[k].Face?
      ensures lo <= (a + b)[k].v0 <= hi && lo <= (a + b)[k].v1 <= hi && lo <= (a + b)[k].v2 <= hi
    {
      if k >= |a| {
        assert (a + b)[k] == b[k - |a|];
      }
    }
  }

  /**
   * The leaf loop of src/main.cpp: several disks written to one OBJ file,
   * ver_offset starting at 0 and advanced only by the writer. While the
   * total vertex count stays below 2^32 the offset is the number of vertices
   * written so far, and every face index names one of them (indices are
   * 1-based).
   */
  method WriteObjFile(disks: seq<Disk>, tbns: seq<Mat3>, m: Math, verRes: Unsigned)
    returns (file: seq<ObjRecord>, verOffset: Unsigned)
    requires |tbns| == |disks|
    requires |disks| * (ClampRes(verRes) + 1) < U32
    ensures verOffset == VertexCount(file) == |disks| * (ClampRes(verRes) + 1)
    ensures FacesWithin(file, 1, VertexCount(file))
  {
    var res := ClampRes(verRes);
    file, verOffset := [], 0;
    for i := 0 to |disks|
      invariant verOffset == VertexCount(file) == i * (res + 1)
      invariant FacesWithin(file, 1, verOffset)
    {
      MulMonotone(i + 1, |disks|, res + 1);
      MulSucc(i, res + 1);
      var recs, newOffset := WriteObj(disks[i], tbns[i], m, verOffset, verRes);
      ObjCallShape(recs, disks[i], tbns[i], m, verOffset, res);
      VertexCountAppend(file, recs);
      FacesWithinAppend(file, recs, 1, verOffset, verOffset + res + 1);
      WrapSmall(verOffset + res + 1);
      file, verOffset := file + recs, newOffset;
    }
  }

  // ---------------------------------------------------------------------------
  // GList output
  // ---------------------------------------------------------------------------

  /** Row j of the affine matrix: radius tbn[j][0..2], then pos[j]. */
  function MatrixRow(d: Disk, tbn: Mat3, j: nat): seq<real>
    requires j < 3
  {
    [d.radius * Entry(tbn, j, 0), d.radius * Entry(tbn, j, 1), d.radius * Entry(tbn, j, 2), Component(d.pos, j)]
  }

  /** The first k rows of the affine matrix, one after the other. */
  function RowsUpTo(d: Disk, tbn: Mat3, k: nat): seq<real>
    requires k <= 3
  {
    if k == 0 then [] else RowsUpTo(d, tbn, k - 1) + MatrixRow(d, tbn, k - 1)
  }

  /** The affine matrix the static instance carries, row-major, ending in the row 0 0 0 1. */
  function GListMatrix(d: Disk, tbn: Mat3): seq<real> {
    RowsUpTo(d, tbn, 3) + [0.0, 0.0, 0.0, 1.0]
  }

  /** LeafDisk::writeGListInstance: the 16 numbers between the matrix tags. */
  method WriteGListInstance(d: Disk, tbn: Mat3) returns (nums: seq<real>)
    ensures nums == GListMatrix(d, tbn)
  {
    nums := [];
    for j := 0 to 3
      invariant nums == RowsUpTo(d, tbn, j)
    {
      var x0, x1, x2 := d.radius * Entry(tbn, j, 0), d.radius * Entry(tbn, j, 1), d.radius * Entry(tbn, j, 2);
      var x3 := Component(d.pos, j);
      ghost var row := MatrixRow(d, tbn, j);
      assert row[0] == x0 && row[1] == x1 && row[2] == x2 && row[3] == x3;
      nums := nums + [x0, x1, x2, x3];
    }
    nums := nums + [0.0, 0.0, 0.0, 1.0];
  }

  /** A row-major 4 x 4 affine matrix applied to the point p. */
  function ApplyAffine(mat: seq<real>, p: Vec3): Vec3
    requires |mat| == 16
  {
    Vec3(AffineRow(mat[0], mat[1], mat[2], mat[3], p),
         AffineRow(mat[4], mat[5], mat[6], mat[7], p),
         AffineRow(mat[8], mat[9], mat[10], mat[11], p))
  }

  /** One row m0 m1 m2 m3 of a row-major affine matrix applied to p. */
  function AffineRow(m0: real, m1: real, m2: real, m3: real, p: Vec3): real {
    m0 * p.x + m1 * p.y + m2 * p.z + m3
  }

  /**
   * Both writers place the disk alike: the GList matrix is an affine map whose
   * last row is 0 0 0 1, it takes the origin to the OBJ centre vertex and the
   * unit circle point at each ring angle to the OBJ ring vertex.
   */
  lemma WritersAgree(d: Disk, tbn: Mat3, m: Math, j: nat, res: nat)
    requires res > 0
    ensures var mat := GListMatrix(d, tbn);
      && |mat| == 16
      && mat[12..] == [0.0, 0.0, 0.0, 1.0]
      && ApplyAffine(mat, Vec3(0.0, 0.0, 0.0)) == d.pos
      && var phi := RingAngle(j, res, m.pi);
         ApplyAffine(mat, Vec3(m.cos(phi), m.sin(phi), 0.0)) == RingVertex(d, tbn, m, j, res)
  {
    var phi := RingAngle(j, res, m.pi);
    var c, s := m.cos(phi), m.sin(phi);
    GListDisplay(d, tbn);
    CirclePointImage(GListMatrix(d, tbn), d, tbn, c, s);
    OriginImage(GListMatrix(d, tbn), d, tbn);
    RingVertexAt(d, tbn, m, j, res, c, s);
  }

  /** Ring vertex j written with the cosine and sine of its angle in the columns of tbn. */
  lemma RingVertexAt(d: Disk, tbn: Mat3, m: Math, j: nat, res: nat, c: real, s: real)
    requires res > 0 && c == m.cos(RingAngle(j, res, m.pi)) && s == m.sin(RingAngle(j, res, m.pi))
    ensures RingVertex(d, tbn, m, j, res) == CircleCombination(d, tbn, c, s)
  {
  }

  /** A matrix laid out as the GList one takes the circle point (c, s, 0) to pos + r c hatu + r s hatv. */
  lemma CirclePointImage(mat: seq<real>, d: Disk, tbn: Mat3, c: real, s: real)
    requires GListLayout(mat, d, tbn)
    ensures ApplyAffine(mat, Vec3(c, s, 0.0)) == CircleCombination(d, tbn, c, s)
  {
    var q := Vec3(c, s, 0.0);
    CombinationCoordinates(d, tbn, c, s, CircleCombination(d, tbn, c, s));
    RowAtCirclePoint(d.radius, tbn.row0.x, tbn.row0.y, tbn.row0.z, d.pos.x, c, s,
                     mat[0], mat[1], mat[2], mat[3], q);
    RowAtCirclePoint(d.radius, tbn.row1.x, tbn.row1.y, tbn.row1.z, d.pos.y, c, s,
                     mat[4], mat[5], mat[6], mat[7], q);
    RowAtCirclePoint(d.radius, tbn.row2.x, tbn.row2.y, tbn.row2.z, d.pos.z, c, s,
                     mat[8], mat[9], mat[10], mat[11], q);
  }

  /** A matrix laid out as the GList one takes the origin to the disk centre. */
  lemma OriginImage(mat: seq<real>, d: Disk, tbn: Mat3)
    requires GListLayout(mat, d, tbn)
    ensures ApplyAffine(mat, Vec3(0.0, 0.0, 0.0)) == d.pos
  {
    var o := Vec3(0.0, 0.0, 0.0);
    RowAtOrigin(mat[0], mat[1], mat[2], mat[3], d.pos.x, o);
    RowAtOrigin(mat[4], mat[5], mat[6], mat[7], d.pos.y, o);
    RowAtOrigin(mat[8], mat[9], mat[10], mat[11], d.pos.z, o);
  }

  /** The first three rows of a row-major 4x4 matrix are the radius times tbn, then the centre. */
  ghost predicate GListLayout(mat: seq<real>, d: Disk, tbn: Mat3) {
    var r, t0, t1, t2, p := d.radius, tbn.row0, tbn.row1, tbn.row2, d.pos;
    && |mat| == 16
    && mat[0] == r * t0.x && mat[1] == r * t0.y && mat[2] == r * t0.z && mat[3] == p.x
    && mat[4] == r * t1.x && mat[5] == r * t1.y && mat[6] == r * t1.z && mat[7] == p.y
    && mat[8] == r * t2.x && mat[9] == r * t2.y && mat[10] == r * t2.z && mat[11] == p.z
  }

  /** The coordinates of pos + r c hatu + r s hatv, with hatu and hatv read off the rows of tbn. */
  lemma CombinationCoordinates(d: Disk, tbn: Mat3, c: real, s: real, v: Vec3)
    requires v == CircleCombination(d, tbn, c, s)
    ensures var r, t0, t1, t2, p := d.radius, tbn.row0, tbn.row1, tbn.row2, d.pos;
      v == Vec3(CircleRow(r, t0.x, t0.y, p.x, c, s),
                CircleRow(r, t1.x, t1.y, p.y, c, s),
                CircleRow(r, t2.x, t2.y, p.z, c, s))
  {
  }

  /** One coordinate of pos + r c hatu + r s hatv: r c a + r s b + p. */
  function CircleRow(r: real, a: real, b: real, p: real, x: real, y: real): real {
    (r * x) * a + (r * y) * b + p
  }

  /** The GList matrix written out entry by entry. */
  lemma GListDisplay(d: Disk, tbn: Mat3)
    ensures var mat, r, t0, t1, t2, p := GListMatrix(d, tbn), d.radius, tbn.row0, tbn.row1, tbn.row2, d.pos;
      && |mat| == 16 && mat[12..] == [0.0, 0.0, 0.0, 1.0]
      && mat[0] == r * t0.x && mat[1] == r * t0.y && mat[2] == r * t0.z && mat[3] == p.x
      && mat[4] == r * t1.x && mat[5] == r * t1.y && mat[6] == r * t1.z && mat[7] == p.y
      && mat[8] == r * t2.x && mat[9] == r * t2.y && mat[10] == r * t2.z && mat[11] == p.z
  {
    var p := d.pos;
    var a := MatrixRow(d, tbn, 0);
    var b := MatrixRow(d, tbn, 1);
    var c := MatrixRow(d, tbn, 2);
    GListRows(d, tbn);
    ConcatRows(a, b, c, [0.0, 0.0, 0.0, 1.0], GListMatrix(d, tbn));
    MatrixRowDisplay(d, tbn, 0, tbn.row0, p.x, a);
    MatrixRowDisplay(d, tbn, 1, tbn.row1, p.y, b);
    MatrixRowDisplay(d, tbn, 2, tbn.row2, p.z, c);
  }

  /** The GList matrix is the three rows of the affine map followed by 0 0 0 1. */
  lemma GListRows(d: Disk, tbn: Mat3)
    ensures GListMatrix(d, tbn) ==
      MatrixRow(d, tbn, 0) + MatrixRow(d, tbn, 1) + MatrixRow(d, tbn, 2) + [0.0, 0.0, 0.0, 1.0]
  {
    assert RowsUpTo(d, tbn, 1) == MatrixRow(d, tbn, 0);
    assert RowsUpTo(d, tbn, 2) == MatrixRow(d, tbn, 0) + MatrixRow(d, tbn, 1);
  }

  /** Four rows of four, one after the other, indexed row by row. */
  lemma ConcatRows(a: seq<real>, b: seq<real>, c: seq<real>, e: seq<real>, m: seq<real>)
    requires |a| == |b| == |c| == |e| == 4 && m == a + b + c + e
    ensures |m| == 16 && m[12..] == e
    ensures m[0] == a[0] && m[1] == a[1] && m[2] == a[2] && m[3] == a[3]
    ensures m[4] == b[0] && m[5] == b[1] && m[6] == b[2] && m[7] == b[3]
    ensures m[8] == c[0] && m[9] == c[1] && m[10] == c[2] && m[11] == c[3]
  {
    assert m[12..] == e;
  }

  /** Row j of the affine matrix is the radius times row j of tbn, then the j-th position coordinate. */
  lemma MatrixRowDisplay(d: Disk, tbn: Mat3, j: nat, t: Vec3, p: real, row: seq<real>)
    requires j < 3 && t == Row(tbn, j) && p == Component(d.pos, j) && row == MatrixRow(d, tbn, j)
    ensures |row| == 4
    ensures row[0] == d.radius * t.x && row[1] == d.radius * t.y && row[2] == d.radius * t.z && row[3] == p
  {
  }

  /** One matrix row r a, r b, r c, p applied to a circle point q = (x, y, 0). */
  lemma RowAtCirclePoint(r: real, a: real, b: real, c: real, p: real, x: real, y: real,
                         m0: real, m1: real, m2: real, m3: real, q: Vec3)
    requires m0 == r * a && m1 == r * b && m2 == r * c && m3 == p && q == Vec3(x, y, 0.0)
    ensures AffineRow(m0, m1, m2, m3, q) == CircleRow(r, a, b, p, x, y)
  {
    assert (r * a) * x == (r * x) * a && (r * b) * y == (r * y) * b;
  }

  /** Any matrix row applied to the origin leaves its last entry. */
  lemma RowAtOrigin(m0: real, m1: real, m2: real, m3: real, p: real, o: Vec3)
    requires m3 == p && o == Vec3(0.0, 0.0, 0.0)
    ensures AffineRow(m0, m1, m2, m3, o) == p
  {
  }
}
