# leaf-disk-gen in Dafny

leaf-disk-gen scatters circular leaf disks in a box. Each disk's normal is drawn
from a leaf angle distribution. The disks are written out as OBJ triangle fans
or as GList static instances. This project models three parts of that program
and proves what each one promises:

- **The tabulated inverse-CDF engine** of the isotropic leaf angle distributions
  (module `LidfTable`, and the class `IsotropicLidf` in module
  `LeafAngleDistribution`).
  - `lidfInit` fills a table of n > 2 entries with the law F on a uniform grid
    over [0, pi/2] and pins both ends to 0 and 1.
  - `sampleNormal` inverts that table. It runs `std::lower_bound` for the first
    entry not below the draw u0, handles two boundary branches, and otherwise
    interpolates the fractional table index.
  - The law is an arbitrary function `real -> real`. pi, sin and cos are
    uninterpreted values carried by the datatype `MathLib.Math`.
- **The distribution classes and the factory** `LeafAngleDistribution::fromString`
  (modules `LeafAngleDistribution` and `Factory`).
  - The factory reads whitespace-separated tokens from a string.
  - It matches names without regard to case.
  - It checks the numeric parameters, and either names the distribution to
    construct or fails with the error the source throws.
  - `std::stod` is a parameter `parse: string -> Option<real>`.
- **The leaf disk and its writers** (module `LeafDisk`).
  - The record itself: position, normal, radius, and its two area helpers.
  - `writeObj` returns the OBJ records it would print: one centre vertex, a
    ring of vertices and a closed triangle fan. Indices are 1-based and offset
    by the in/out vertex counter, in 32-bit unsigned arithmetic.
  - `writeGListInstance` returns the 16 numbers of its affine matrix.
  - The orthonormal basis `tbn` is an input.

The sampler, the table builder and the writers are methods. Each is proved
against a specification function (`Zenith`, `Tabulate`, `RingVertex`/`FanFace`,
`GListMatrix`), and the lemmas state what those functions promise.

Properties of the zenith sampler and of `writeObj` worth stating on their own:

- For u0 in [0, 1) the past-the-end branch (theta = pi/2) is never taken, since
  the last entry is pinned to 1. So theta is strictly below pi/2, for any law,
  sorted or not (`LidfTable.ZenithAtRange`).
- On a sorted table with pinned ends, u0 = 1 yields pi/2 exactly when the entry
  before the last is below 1. When the law already reaches 1 inside the grid,
  the search stops earlier and theta is below pi/2 (`LidfTable.ZenithAtOne`).
- The interpolation never divides by zero, on any table. The search always
  returns a bracket with `t[i-1] < u0 <= t[i]` (`LidfTable.LowerBound`), even
  when the table is unsorted.
- The doc comment of `writeObj` (include/leaf-disk-gen/leaf_disk.hpp:128-131)
  says each fan triangle is scaled so that its area equals that of the sector
  it represents. The code in src/leaf_disk.cpp places every ring vertex at
  exactly the radius, and so does the model.

## Model

| member | source | states |
|---|---|---|
| LidfTable.Tabulate | src/leaf_angle_distribution.cpp:42-53 | the table for resolution n has exactly n entries, the first 0 and the last 1 |
| LidfTable.FirstAtLeast | src/leaf_angle_distribution.cpp:67-71 | reference lower bound: every entry before the result is below x, and the entry at it (if any) is not |
| LidfTable.LowerBound | src/leaf_angle_distribution.cpp:67-71 | the count/step search returns a bracket of x on any table, and on a range partitioned by x it is the first entry not below x |
| LidfTable.BracketUnique | src/leaf_angle_distribution.cpp:67-71 | on a table partitioned by x the only bracket of x is the lower bound |
| LidfTable.SortedIsPartitioned | src/leaf_angle_distribution.cpp:67-71 | a sorted table meets lower_bound's precondition for every key |
| LidfTable.FacInUnitInterval | src/leaf_angle_distribution.cpp:85 | inside a bracket fac lies in (0, 1], and is 1 exactly when u0 equals the upper entry |
| LidfTable.FractionalIndex | src/leaf_angle_distribution.cpp:83-86 | the interpolated index lies in (k0, k0 + 1], and equals k0 + 1 exactly when u0 equals the upper entry |
| LidfTable.ZenithAt | src/leaf_angle_distribution.cpp:72-88 | the zenith angle for a bracket lies in [0, pi/2], and is 0 only for the first bracket: past the first entry, interpolation and the end alike give a positive angle |
| LidfTable.InterpolatedZenith | src/leaf_angle_distribution.cpp:78-88 | the source's expression, with its divisions in its order, is the interpolated zenith angle of the bracket |
| LidfTable.Zenith | src/leaf_angle_distribution.cpp:63-89 | the zenith angle for u0 lies in [0, pi/2] |
| LidfTable.AngleBounds | src/leaf_angle_distribution.cpp:86-88 | a fractional index in [0, n-1] maps into [0, pi/2], positive indices to positive angles and indices below n-1 below pi/2 |
| LidfTable.ZenithAtRange | src/leaf_angle_distribution.cpp:67-88 | on a pinned table and u0 in [0, 1), whatever bracket the search found, the past-the-end branch is not taken, theta < pi/2, and theta = 0 only for u0 = 0 |
| LidfTable.ZenithRange | src/leaf_angle_distribution.cpp:67-88 | on a pinned table and u0 in [0, 1), `Zenith` lies in [0, pi/2) and is 0 exactly when u0 = 0; through `SampleZenith` and `SortedIsPartitioned` the sampler does the same on every sorted pinned table |
| LidfTable.ZenithRoundTrip | src/leaf_angle_distribution.cpp:67-88 | on a sorted table, drawing u0 = t[k] where the table rises into k gives exactly the grid angle k/(n-1)·pi/2 |
| LidfTable.ZenithAtOne | src/leaf_angle_distribution.cpp:67-88 | on a sorted pinned table, u0 = 1 gives pi/2 exactly when the entry before the last is below 1 |
| LidfTable.ZenithAtOneRising | src/leaf_angle_distribution.cpp:78-88 | if the entry before the last is below 1, u0 = 1 interpolates to pi/2 |
| LidfTable.ZenithAtOneFlat | src/leaf_angle_distribution.cpp:67-88 | if the entry before the last is already 1, u0 = 1 stops inside the grid and theta < pi/2 |
| LidfTable.FirstAtLeastMonotone | src/leaf_angle_distribution.cpp:67-71 | the lower bound does not decrease as the key grows |
| LidfTable.FractionalIndexMonotone | src/leaf_angle_distribution.cpp:83-86 | inside one bracket the interpolated index does not decrease as u0 grows |
| LidfTable.ZenithMonotone | src/leaf_angle_distribution.cpp:63-89 | `Zenith` is non-decreasing in u0 on any table (an inverse distribution function); through `SampleZenith` and `SortedIsPartitioned` so is the sampler on every sorted table |
| LidfTable.SampleZenith | src/leaf_angle_distribution.cpp:63-89 | the zenith block as written gives theta in [0, pi/2], interpolated over a bracket of u0 in the table; on a pinned table and u0 in [0, 1) theta < pi/2 and theta = 0 only for u0 = 0; on a partitioned table it equals Zenith |
| LidfTable.GridAngleInRange | src/leaf_angle_distribution.cpp:46-49 | every grid angle lidfInit evaluates lies in [0, pi/2] |
| LidfTable.TabulateSorted | src/leaf_angle_distribution.cpp:42-53 | the table of a distribution function on [0, pi/2] is sorted |
| LidfTable.TabulateIgnoresEndpoints | src/leaf_angle_distribution.cpp:46-52 | the law is consulted only at the interior grid angles: laws that agree there give the same table |
| LidfTable.InverseAtGrid | src/leaf_angle_distribution.cpp:42-88 | on the table of a distribution function F, drawing u0 = F(theta_k) at an interior grid angle where the table rises returns theta_k |
| LeafAngleDistribution.IsotropicLidf.LidfInit | src/leaf_angle_distribution.cpp:42-53 | the loop leaves a fresh table of length n equal to Tabulate: ends 0 and 1, F at each interior grid angle |
| LeafAngleDistribution.IsotropicLidf.constructor | include/leaf-disk-gen/leaf_angle_distribution.hpp:85-112 | the base keeps the law and holds a valid table of the requested size |
| LeafAngleDistribution.IsotropicLidf.SampleNormal | src/leaf_angle_distribution.cpp:56-95 | the shared const sampler: theta in [0, pi/2], below pi/2 and 0 only for u0 = 0 when u0 is in [0, 1), Zenith of the table when the table is partitioned, and phi = 2 pi u1 |
| LeafAngleDistribution.SwitchCase | src/leaf_angle_distribution.cpp:110-130 | the case the lidf switch takes for a stored value: codes 0 to 4 select their own enumerator, and every value outside 1..4 falls to the Planophile case |
| LeafAngleDistribution.SwitchCaseOfCode | include/leaf-disk-gen/leaf_angle_distribution.hpp:125-151 | each enumerator's value selects that enumerator's case |
| LeafAngleDistribution.TrigonometricLidf | src/leaf_angle_distribution.cpp:108-134 | the switch on the stored type value, through `SwitchCase`, gives the closed-form law of its case (the default label shares Planophile's); where sin 0 = 0 and cos 0 = 1 every law is 0 at theta = 0 |
| LeafAngleDistribution.TrigonometricLidfEndpoints | src/leaf_angle_distribution.cpp:108-130 | with exact sin and cos, for every stored type value, the law gives 0 at 0 and 1 at pi/2 |
| LeafAngleDistribution.TrigonometricDistribution.constructor | include/leaf-disk-gen/leaf_angle_distribution.hpp:156-161 | stores the type and builds a valid 256-entry table of its law |
| LeafAngleDistribution.VerhoefBimodalDistribution.constructor | include/leaf-disk-gen/leaf_angle_distribution.hpp:215-219 | stores a and b unchecked and builds a valid 256-entry table of its law |
| LeafAngleDistribution.TrowbridgeReitzDistribution.Default | include/leaf-disk-gen/leaf_angle_distribution.hpp:249-275 | default roughness is 1 in both directions |
| LeafAngleDistribution.TrowbridgeReitzDistribution.constructor | include/leaf-disk-gen/leaf_angle_distribution.hpp:254-258 | stores both alphas unchanged, without validation |
| LeafAngleDistribution.BeckmannDistribution.Default | include/leaf-disk-gen/leaf_angle_distribution.hpp:288-314 | default roughness is 1 in both directions |
| LeafAngleDistribution.BeckmannDistribution.constructor | include/leaf-disk-gen/leaf_angle_distribution.hpp:293-297 | stores both alphas unchanged, without validation |
| Factory.TakeWord | src/leaf_angle_distribution.cpp:193-195 | one extraction takes the longest blank-free prefix of the stream (followed by a blank or the end), non-empty when the stream does not start with a blank |
| Factory.Tokens | src/leaf_angle_distribution.cpp:193-195 | every token extraction yields is non-empty and free of white space |
| Factory.FromTokens | src/leaf_angle_distribution.cpp:197-307 | every distribution the dispatch builds has valid parameters, and an unknown-name error carries the first token |
| Factory.FromString | src/leaf_angle_distribution.cpp:190-309 | the same for the whole string: valid parameters on success, and the unknown name is the first extracted token |
| Factory.UniformIgnoresRest | src/leaf_angle_distribution.cpp:197-200 | "Uniform" in any case gives the uniform law whatever follows |
| Factory.TrigonometricIff | src/leaf_angle_distribution.cpp:202-240 | "Trigonometric" gives type t iff the second token is t's name in some case; otherwise, a missing token included, the 'Trigonometric TYPE' error |
| Factory.VerhoefBimodalIff | src/leaf_angle_distribution.cpp:243-267 | "VerhoefBimodal" gives (a, b) iff both tokens are non-empty and parse to a and b with abs(a) + abs(b) <= 1; otherwise its usage error |
| Factory.AlphaLawIff | src/leaf_angle_distribution.cpp:269-300 | "TrowbridgeReitz"/"Beckmann" succeed iff both alpha tokens are non-empty, parse and are positive, the name picks the variant, and the usage error repeats the name as typed |
| Factory.MissingArgument | src/leaf_angle_distribution.cpp:243-300 | with fewer than two argument tokens, "VerhoefBimodal" gives its usage error and "TrowbridgeReitz"/"Beckmann" the alpha usage error naming the token as typed, because stod throws on the empty token (lines 251-252, 278-279) |
| Factory.UnknownNameIff | src/leaf_angle_distribution.cpp:301-307 | the result is the unknown-name error for the token exactly when it is none of the five law names |
| Factory.BlankIsUnknown | src/leaf_angle_distribution.cpp:193-307 | a blank or empty argument string is the unknown name "" |
| Factory.CiEquals | src/leaf_angle_distribution.cpp:197-198 | ci_string equality: every string is equal up to case to itself |
| Factory.CiEqualsFolded | src/leaf_angle_distribution.cpp:197-198 | two strings are equal up to case exactly when their lower-case forms are equal |
| Factory.CaseInsensitive | src/leaf_angle_distribution.cpp:197-206 | token triples whose names fold alike and whose numbers parse alike succeed together, with the same distribution |
| Factory.TakeWordOf | src/leaf_angle_distribution.cpp:195 | a word followed by a blank or the end is exactly what one extraction takes |
| Factory.TokensOfCons | src/leaf_angle_distribution.cpp:193-195 | a word followed by a blank or the end is the next token |
| Factory.TokensOfJoin | src/leaf_angle_distribution.cpp:193-195 | extraction reads back the words of a blank-separated string |
| Factory.TokensOfBlank | src/leaf_angle_distribution.cpp:193-195 | a blank stream yields no token |
| Factory.FromStringOfJoin | src/leaf_angle_distribution.cpp:190-309 | the factory on a blank-separated string dispatches on its first three words |
| Factory.RoundTripTokens | src/leaf_angle_distribution.cpp:197-307 | dispatching on the words that name d gives d back when its parameters are valid, otherwise that law's usage error, provided stod reads each number d writes back as itself |
| Factory.RoundTrip | src/leaf_angle_distribution.cpp:190-309 | writing a distribution out and reading it back gives it back when valid, otherwise that law's usage error, provided each number d writes is a blank-free word that stod reads back as itself |
| Factory.RoundTripInstance | src/leaf_angle_distribution.cpp:243-267 | the words VerhoefBimodal 0.5 0.25 build VerhoefBimodal(0.5, 0.25) wherever stod reads the two numbers as themselves |
| LeafDisk.DefaultDiskShape | include/leaf-disk-gen/leaf_disk.hpp:54-64 | the default disk (origin, +z, radius 1) has a unit normal, area pi, and projected area pi along its normal |
| LeafDisk.Area | include/leaf-disk-gen/leaf_disk.hpp:76-79 | pi r^2 is never negative and is zero for a disk of radius zero |
| LeafDisk.ProjectedArea | include/leaf-disk-gen/leaf_disk.hpp:84-87 | the projected area is never negative and is zero when the disk is seen edge-on |
| LeafDisk.AreaNonNegative | include/leaf-disk-gen/leaf_disk.hpp:76-79 | the area is never negative and depends only on the radius |
| LeafDisk.ProjectedAreaSymmetric | include/leaf-disk-gen/leaf_disk.hpp:84-87 | the projected area is never negative and is unchanged when dir is negated |
| LeafDisk.ProjectedAreaAtMostArea | include/leaf-disk-gen/leaf_disk.hpp:84-87 | for a unit normal and unit dir the projected area lies between 0 and the area |
| LeafDisk.ProjectedAreaFaceOnEdgeOn | include/leaf-disk-gen/leaf_disk.hpp:84-87 | for a unit normal the projected area is the whole area along plus or minus the normal, and 0 edge-on |
| LeafDisk.ClampRes | src/leaf_disk.cpp:77-79 | the ring resolution is at least 3, and equals ver_res when that is already at least 3 |
| LeafDisk.WriteObj | src/leaf_disk.cpp:57-108 | 2·res + 1 records: the centre vertex, ring vertex j at angle j/res·2pi, then face j as printed in unsigned arithmetic; the new offset is old + res + 1 modulo 2^32 |
| LeafDisk.RingVertexAsComputed | src/leaf_disk.cpp:82-88 | the loop's phi and ver are ring vertex j |
| LeafDisk.RingVertex | src/leaf_disk.cpp:83-88 | ring vertex j is the circle point at angle j/res 2 pi in the plane of the first two columns of tbn; a disk of radius zero puts it on the centre, and vertex 0 lies r along the first column |
| LeafDisk.FanFace | src/leaf_disk.cpp:96-103 | face j joins the centre with ring vertices j and j+1 around the ring; its two ring corners differ exactly when the ring has more than one vertex, even with wrap-around |
| LeafDisk.WriteRing | src/leaf_disk.cpp:81-93 | the first loop writes res vertices, the j-th being ring vertex j |
| LeafDisk.WriteFan | src/leaf_disk.cpp:95-104 | the second loop writes res faces, the j-th being fan face j |
| LeafDisk.WriteFace | src/leaf_disk.cpp:97-103 | one pass of the second loop, in unsigned arithmetic, prints fan face j |
| LeafDisk.ObjRecordsOf | src/leaf_disk.cpp:69-104 | centre, ring and fan laid end to end put ring vertex j at position 1 + j and face j at res + 1 + j |
| LeafDisk.FaceAsPrinted | src/leaf_disk.cpp:96-104 | v0, v1, v2 computed modulo 2^32 from (j + 0) % res and (j + 1) % res, printed plus one and wrapped, are fan face j |
| LeafDisk.FanFaceExact | src/leaf_disk.cpp:96-104 | without wrap-around face j is (off+1, off+2+j, off+2+((j+1) mod res)) |
| LeafDisk.FanFaceInRange | src/leaf_disk.cpp:96-104 | without wrap-around every face reads the centre and two ring vertices of this call, within off+1 .. off+res+1, with three distinct corners |
| LeafDisk.FanCloses | src/leaf_disk.cpp:98-99 | for every offset, wrap-around included, face j ends where face j+1 starts, and the last face ends at the first ring vertex |
| LeafDisk.RingVertexShared | src/leaf_disk.cpp:96-104 | for every offset, wrap-around included, ring vertex i (printed as Wrap(off + 2 + i), which is off + 2 + i without wrap) starts exactly face i and ends exactly the face before it around the ring |
| LeafDisk.SuccessiveCallsDisjoint | src/leaf_disk.cpp:107 | the offset grows by res + 1, and every index of one call lies below every index of the next call |
| LeafDisk.ObjCallShape | src/leaf_disk.cpp:69-104 | one call writes res + 1 vertices, and its faces read only positions off+1 .. off+res+1 |
| LeafDisk.WriteObjFile | src/main.cpp:222-236 | the per-leaf writeObj loop, from offset 0 (src/main.cpp:124): the offset equals the number of vertices written, and every face index names one of them |
| LeafDisk.WriteGListInstance | src/leaf_disk.cpp:34-54 | the 16 numbers are the rows radius·tbn[j][0..2], pos[j] for j = 0, 1, 2, then 0 0 0 1 |
| LeafDisk.WritersAgree | src/leaf_disk.cpp:44-53 | the GList matrix has 16 entries and last row 0 0 0 1, and maps the origin to the OBJ centre and the unit-circle point at each ring angle to the OBJ ring vertex |
| LeafDisk.GListDisplay | src/leaf_disk.cpp:44-53 | the GList matrix has 16 entries: row j holds radius·tbn[j][0..2] then pos[j], and the last row is 0 0 0 1 |
| LeafDisk.CirclePointImage | src/leaf_disk.cpp:44-49 | a matrix laid out as the GList one maps (cos phi, sin phi, 0) to pos + r cos phi hatu + r sin phi hatv, the OBJ ring vertex formula |
| LeafDisk.OriginImage | src/leaf_disk.cpp:44-49 | a matrix laid out as the GList one maps the origin to the disk centre |

## Left out

- The Verhoef bimodal law's fixed-point solve is an unbounded loop over doubles with sin. Its law is the function parameter `solve` of `VerhoefBimodalDistribution`.
- The closed-form trigonometric laws are stated (`TrigonometricLidf`) but not proved monotone, because sin and cos are uninterpreted.
- The uniform, Trowbridge-Reitz and Beckmann samplers are left out. They are floating-point numerics over library calls (hemisphere sampling, sqrt, copysign, a Gaussian).
- LeafAngleDistribution.IsotropicLidf.SampleNormal: stops at the angles theta and phi. It does not build the direction (sin theta cos phi, sin theta sin phi, cos theta), which is floating-point trigonometry.
- The random source (PCG32 in include/leaf-disk-gen/common.hpp) is left out. The two draws u0 and u1 are parameters of the sampler.
- src/main.cpp is not part of this model beyond its loop of `writeObj` calls (`LeafDisk.WriteObjFile`): option parsing, file handling, the leaf count and the random placement of each disk are left out.
- `Mat3::build_onb` is an input: `tbn`, an orthonormal basis whose first two columns span the disk.
- Stream formatting of numbers and the `v`/`f` and XML tags are left out. The writers return records and numbers instead of characters.
- Floating point is left out. All arithmetic is over exact reals, so rounding, NaN and infinities are not modelled. A token that `std::stod` reads as NaN or infinity is whatever `parse` returns.
- `std::stod` on a non-empty token is the abstract partial function `parse` (`Factory.Stod`); on the empty token it always fails. Prefix parsing of tokens such as "0.5x" is whatever `parse` says.
- `pr::ci_string` comparison is modelled as ASCII lower-case folding of equal-length strings. Truncation of a token at an embedded NUL by `c_str()` is not modelled.
- Factory.FromString: only the first three extractions are modelled. Later tokens are never read by the source either, and the stream state after them is not modelled.
- LeafDisk.WriteObj: indices wrap modulo 2^32 as in the source. Fan closure and ring-vertex sharing hold for every offset; the range and disjointness properties are stated only for calls whose indices stay below 2^32 (`NoWrap`).
- The default member initializers `type_ = eTypePlanophile` and `a_ = b_ = 0` (include/leaf-disk-gen/leaf_angle_distribution.hpp:201, 231-236) are not modelled: every constructor overwrites them, so no object ever shows them.
- LeafDisk.WriteObjFile: models the per-leaf loop of src/main.cpp:222-236, which calls `writeObj` once per disk with one counter `obj_ver_offset` that starts at 0 (src/main.cpp:124). The disks and their bases are inputs. It requires that the whole file stays below 2^32 vertices.
- The default argument `ver_res = 12` of `writeObj` (include/leaf-disk-gen/leaf_disk.hpp:135) is not modelled: `WriteObj` always takes the resolution explicitly, as its only caller does (src/main.cpp:125 passes 10).
- The rescaling of each fan triangle to the area of its sector, which the doc comment at include/leaf-disk-gen/leaf_disk.hpp:128-131 describes, is not stated: src/leaf_disk.cpp does not implement it.
