# Verified model of a distributed N-body and halo-analysis code

This project models the exact and distributed core of a cosmological N-body code in Dafny and proves what that code
promises about it. `dafny verify dfyconfig.toml` checks every file.

Six parts are modelled.

1. **Exact periodic mass center** (`PeriodicCenter`, `CenterScan`, `CenterTheory`, `TorusObjective`, `Quadratics`,
   `CenterRounding`, `Binary64`, `BinaryBox`). Binary64 coordinates and weights are decoded to integers, a sweep over the
   sorted antipodes updates S and Q incrementally, and the best stationary mean is rounded to nearest even. The main
   theorem, on `Axis`, is about the recorded binary64 samples themselves: the result is the correctly rounded unique
   minimizer, over all real points of the circle, of the weighted sum of squared torus distances of the x, the y or the z
   coordinates, and the only failure on populated samples is a minimum that is not unique. Existence of a stationary
   candidate is proved without compactness: the objective lies above every interval's parabola vertex on that interval and
   reaches every vertex value somewhere.
2. **Exact dyadic predicates and rank** (`Limbs`, `ExactDyadic`, `LinearRank`, `DisplacementSpan`). Arrays of 64-bit limbs
   with carry and borrow loops, the 100-limb signed accumulator, the collinearity and coplanarity predicates, and the
   incremental displacement span, whose rank is the linear rank of everything fed in.
3. **Particle migration** (`MeshCells`, `SlabLayout`, `ParticleStores`, `DomainDecomposition`, `ExchangeBuffer`,
   `BoundedMigration`). The rounded cell of a binary64 coordinate, the slab table and ownership, the three partition paths
   over live rank stores whose arrays are modified in place, and the round-chunked exchange as a state machine over ranks,
   directed edges and receive buffers. The outcome of a partition is one exact verdict (`Verdict`), every failure leaves
   all arrays and mass representations as they were, what is published carries over exactly what was given, field by field
   (`Carried`), all paths publish the same stores, and the exchange never deadlocks, can always be carried to its end, and
   delivers exactly what was routed.
4. **Distributed identifier checks** (`GlobalIdCheck`, `CanonicalBuckets`). The ring-streamed intersection test, with every
   rank's own sent and received counters, and the hash-bucket canonicalization that decides equality of global sets, for any
   hash.
5. **Geometry accelerators** (`HaloVmax`, `RadiusComparison`, `PairBins`, `CellGrid`, `PairCounting`, `PeriodicBox`,
   `SlabVisibility`, `GhostExchange`). Each is proved equal to the simple thing it replaces: the real square root and the
   brute-force maximum over exact torus distances of binary64 coordinates, the exact comparison of a distance with a radius
   behind its interval filter, the all-pairs count, and the visibility test of all pairs whose slabs are close enough.
6. **Buffered membership table** (`MembershipTable`). Batched and direct writes are one append-only catalog.

`Powers` and `Collections` hold the arithmetic and sequence facts the parts share.

## Conventions

- A binary64 value is a sign and a raw magnitude pattern; its exact value is an integer in units of 2^-1074, and patterns
  from 2047*2^52 on are not finite. The exact parts never use floating-point arithmetic.
- The partition works on binary64 fields: coordinates are wrapped and cells are computed with the rounding of the code. The
  ghost routing and the pair counts take coordinates as the real numbers of units they stand for; whole turns of the box are
  counted by the recursive function `Turns`.
- The cell of a coordinate is an abstract function of a topology; `TopologyOf` puts the rounded cells in use there, and only
  what depends on their arithmetic asks for it (`Measured`).
- A rank is an index into a sequence; in the partition it is an object with a live array of particles, and different ranks
  share no array. A collective that lets all ranks continue or all stop is one decision over that sequence.
- The exchange protocol has one step per rank action: a rank posts a round, a matched message is transferred, or a rank ends
  its wait. Messages on one edge are matched in the order posted (section 3.5 of MPI 3.1). Progress is proved even if no
  send is ever buffered by the transport; safety is proved even if every send is.
- Errors of the source that can happen are values of an outcome type; those it calls logic errors are kept as branches and
  proved unreachable.

## Where the code promises less than it may seem

- Only the route-all path looks for identifiers repeated between ranks. The retain-all and the sparse path publish stores
  whose identifiers repeat across ranks exactly when the stores given to them did (`PublishedDistinct`);
  `RepetitionIsPublished` gives two valid stores that share identifier 7 and are published. `Verdict` is the exact outcome of
  a partition: after valid input, and apart from a mass disagreement, it publishes exactly when there is one rank, or every
  store is retainable, or, on a canonical and sorted world, no rank would own two particles of one identifier, or otherwise
  identifiers are globally unique. The ghost exchange after such a partition is rejected exactly when some rank would hold
  two particles of one identifier (`RepetitionDecides`).
- Stable-identifier order is published on several ranks, but a single rank wraps coordinates in place and keeps the order:
  the published stores are sorted exactly when there are several ranks or the one store was sorted (`OrderIsPublished`, from
  `WrappedOrder`), and `DescendingIsPublished` gives a valid store with identifiers 9 and 7 that one rank publishes as it is.
- The bounds a rank publishes need not contain every particle it owns, because the cell size and the quotient are rounded
  (`OutsideOwner`); they do when the cell size and all plane positions are values (`ValuesGiveExactCells`, `OwnerBounds`).
- Pruning by whole planes can lose a ghost whose owner's bounds do not contain it: `PrunedThoughVisible` and `GhostIsMissed`
  give a slab that sees a particle at the search radius and is not sent it. Nothing is lost of a coordinate exactly when no
  slab is nearer to it than the gap in planes (`NothingPrunedExactly`); coordinates inside their owner's slab meet that
  (`InsideNothingPruned`, `NothingMissed`), so in a mesh with exact cells no ghost is ever missed (`ExactCellsMissNothing`).
- Wrapping can merge a negative coordinate with one that is not whole boxes away (`WrapMerges`); nonnegative coordinates are
  never merged (`WrapDecides`).
- When a pair count overflows, the worker split does not matter: failure occurs exactly when the total does not fit
  (`CountAuto`).

## Model

| member | source | states |
|---|---|---|
| `PeriodicCenter.PeriodicIntrinsicCenterAccumulator.Add` | src/analysis/halo_derived_properties.cpp:501-513 | a sample is refused exactly when its weight is not finite and positive or a wrapped coordinate would not be finite; otherwise the wrapped sample is appended and populated samples stay populated |
| `PeriodicCenter.PeriodicIntrinsicCenterAccumulator.CommonShifts` | src/analysis/halo_derived_properties.cpp:528-539 | the removed powers of two never exceed the trailing zeros of any weight or coordinate, one factor of two stays in the box, and no larger powers could be removed |
| `PeriodicCenter.PeriodicIntrinsicCenterAccumulator.Axis` | src/analysis/halo_derived_properties.cpp:515-618 | on all populated samples and positive boxes, for axis 0 about the x coordinates, for axis 1 about y and for axis 2 about z: a result is the correctly rounded, folded unique minimizer over all real points of the circle of the exact weighted sum of squared torus distances, and the only failure is non-uniqueness, reported exactly when no unique minimizer exists |
| `PeriodicCenter.PeriodicIntrinsicCenterAccumulator.RoundedResult` | src/analysis/halo_derived_properties.cpp:616-617 | rounding the minimizer never overflows and never leaves the box; the box edge becomes 0 |
| `PeriodicCenter.DecodeIsExact` | src/analysis/halo_derived_properties.cpp:547-550 | decoded coordinates and weights are exact multiples: nothing is lost by removing common zero bits |
| `PeriodicCenter.BoxIsExact` | src/analysis/halo_derived_properties.cpp:540-541 | the integer box is exact and even, so half the box and every antipode are integers |
| `PeriodicCenter.DecodingRescales` | src/analysis/halo_derived_properties.cpp:528-550 | minimizers of the recorded binary64 problem and of the integer problem correspond one to one |
| `BinaryBox.WrapIsRemainder` | include/cosmo_nbody/math/periodic_box.hpp:27-41 | wrapping shifts by a whole number of boxes; a nonnegative coordinate comes out exactly, a negative one rounds at the one final addition, to nearest even, with the box edge folded to 0 |
| `BinaryBox.WrapDecides` | include/cosmo_nbody/math/periodic_box.hpp:27-41 | coordinates whole boxes apart wrap to the same point, and nonnegative ones wrap to the same point exactly then |
| `BinaryBox.WrapMerges` | include/cosmo_nbody/math/periodic_box.hpp:34-40 | a negative coordinate can be rounded onto the point of one that is not whole boxes away: minus one unit and zero in a box of 2^55 units |
| `BinaryBox.SubtractIsExact` | include/cosmo_nbody/math/periodic_box.hpp:204-209 | once the high coordinate is at least half the box, subtracting the half box is exact, so the threshold comparison is a comparison of exact numbers |
| `BinaryBox.HalfIsNearest` | include/cosmo_nbody/math/periodic_box.hpp:209 | half of the box is rounded to the nearest value |
| `BinaryBox.ShortestRoute` | include/cosmo_nbody/math/periodic_box.hpp:190-235 | the route is direct, across the boundary or on the cut locus exactly as twice the direct way compares with the box, whether the half box is a value or the exact squares decide; endpoints that are not canonical are refused |
| `BinaryBox.SignedSquares.AddDirect` | include/cosmo_nbody/math/periodic_box.hpp:147-157 | the two accumulators grow by exactly the square of the direct way |
| `BinaryBox.SignedSquares.AddAcross` | include/cosmo_nbody/math/periodic_box.hpp:159-176 | the two accumulators grow by exactly the square of the way across the boundary |
| `BinaryBox.SignedSquares.AddDistance` | include/cosmo_nbody/math/periodic_box.hpp:236-275 | the two accumulators grow by exactly the squared torus distance of the represented endpoints |
| `BinaryBox.AxisIsLeast` | include/cosmo_nbody/math/periodic_box.hpp:184-235 | an axis distance is the least over all periodic images |
| `BinaryBox.DistanceWithinBox` | include/cosmo_nbody/math/periodic_box.hpp:236-275 | a squared torus distance is not negative and at most three quarters of the squared box |
| `BinaryBox.DistancesCompare` | include/cosmo_nbody/math/periodic_box.hpp:328-357 | two distances from one origin are compared exactly, without subtracting the accumulators |
| `RadiusComparison.BoundAxis` | include/cosmo_nbody/math/periodic_box.hpp:116-131 | the outward rounded bounds of an axis, the across route with two roundings included, enclose the exact axis distance, overflow included, and miss it by no more than a few last places |
| `RadiusComparison.OutwardIsNeighbour` | include/cosmo_nbody/math/periodic_box.hpp:88-101 | outward rounding moves to the neighbouring value and no farther |
| `RadiusComparison.FilteredCompare` | include/cosmo_nbody/math/periodic_box.hpp:104-142 | whenever the interval filter decides, by one axis or by disjoint intervals, its sign is the exact comparison of distance and radius |
| `RadiusComparison.DistanceToRadius` | include/cosmo_nbody/math/periodic_box.hpp:298-327 | the comparison is refused exactly for endpoints that are not canonical, a box or a radius that is not admitted, and otherwise is the exact sign, whether the filter or the exact squares decide |
| `RadiusComparison.RelationIsExact` | include/cosmo_nbody/math/periodic_box.hpp:298-327 | in units of 2^-1074 wrapped coordinates are points of the real box, and the real comparison the bins use is the exact comparison of the values |
| `PeriodicCenter.RoundedCenter` | src/analysis/halo_derived_properties.cpp:616-617 | the rounded mean is finite, at most the box, and after wrapping the nearest binary64 to the exact mean |
| `CenterScan.ConsiderInterval` | src/analysis/halo_derived_properties.cpp:571-593 | the candidate test keeps, over all intervals seen, whether there is a candidate, the least scaled objective, one numerator attaining it, and whether another canonical numerator attains it; the negative-objective error is raised exactly for a candidate with W*Q < S*S |
| `CenterScan.MinimumNonNegative` | src/analysis/halo_derived_properties.cpp:578-582 | W*Q - S*S is never negative for sums in force on an interval, so the objective error is unreachable |
| `CenterScan.BuildEvents` | src/analysis/halo_derived_properties.cpp:542-562 | W, S and Q start as the sums over the initial lifts and every sample with a nonzero antipode contributes exactly one event |
| `CenterScan.CrossAntipode` | src/analysis/halo_derived_properties.cpp:599-607 | all events at one antipode are crossed together and S and Q grow by their amounts |
| `CenterScan.CrossingSums` | src/analysis/halo_derived_properties.cpp:594-608 | each sample crosses its antipode at most once: the sums in force at a stop are the initial sums plus the crossed events |
| `CenterScan.SumsAtStop` | src/analysis/halo_derived_properties.cpp:594-608 | at every stop of the sweep the incremental S and Q equal the sums over the lifts in force there |
| `CenterScan.BestIsGlobal` | src/analysis/halo_derived_properties.cpp:571-615 | the scan over a tiling always has a candidate, it is a global minimizer, and the tie flag is set exactly when two distinct circle points attain the minimum |
| `CenterScan.Scan` | src/analysis/halo_derived_properties.cpp:542-615 | for every non-empty sample set the sweep returns the unique global minimizer S/W, or reports non-uniqueness with two minimizers in existence; the no-candidate and negative-objective errors never occur |
| `CenterTheory.CandidateExists` | src/analysis/halo_derived_properties.cpp:571-575 | some interval contains the vertex of its own parabola and that vertex is the lowest of all: the search for a stationary candidate cannot come back empty |
| `CenterTheory.MinimizerIsCandidate` | src/analysis/halo_derived_properties.cpp:571-577 | every global minimizer is a stationary candidate of its interval; a corner at an antipode is never minimal |
| `CenterTheory.CandidateMinimizes` | src/analysis/halo_derived_properties.cpp:583-592 | a lowest stationary candidate is a global minimizer on the circle |
| `TorusObjective.LiftIsNearest` | src/analysis/halo_derived_properties.cpp:551-561 | between two antipodes the lift in force is the nearest periodic image, so the torus distance is the distance to the lift |
| `TorusObjective.TorusSquareIsLeast` | src/analysis/halo_derived_properties.cpp:571-575 | the torus distance is the least distance over all periodic images |
| `TorusObjective.ObjectiveOnInterval` | src/analysis/halo_derived_properties.cpp:542-555 | on an interval free of antipodes the objective is the single quadratic W, S, Q |
| `TorusObjective.ObjectiveBelowQuadratic` | src/analysis/halo_derived_properties.cpp:571-593 | folding a point back onto the circle never exceeds the quadratic of any lift configuration |
| `CenterRounding.IntegerUnitsExact` | src/analysis/halo_derived_properties.cpp:439-449 | removing at most the common zero bits keeps the exact value |
| `CenterRounding.LowBitIsLowest` | src/analysis/halo_derived_properties.cpp:429-437 | the low bit of a value is the largest power of two, in units of 2^-1074, that divides it |
| `CenterRounding.IntegerUnitsEven` | src/analysis/halo_derived_properties.cpp:529-541 | keeping one factor of two below the low bit leaves an even integer |
| `CenterRounding.RatioExponentBrackets` | src/analysis/halo_derived_properties.cpp:459-465 | the corrected exponent is the binary exponent of the ratio |
| `CenterRounding.RoundHalfEvenIsHalfEven` | src/analysis/halo_derived_properties.cpp:472-479 | the integer quotient is rounded to nearest, ties to even |
| `CenterRounding.RoundIsNearestEven` | src/analysis/halo_derived_properties.cpp:451-487 | the result is the binary64 nearest to (num/den)*2^quantum with ties to even (section 4.3.1 of IEEE 754-2019), subnormal results and the carry to 2^53 included, and it overflows exactly from the midpoint above the largest finite value on |
| `Binary64.NearestEvenUnique` | src/analysis/halo_derived_properties.cpp:451-453 | there is only one nearest-even value, so the rounding specification determines the result |
| `Binary64.SignOfUnits` | src/analysis/halo_derived_properties.cpp:501-506 | the tests on sign and magnitude are the comparisons of the value with zero |
| `Limbs.MultiplyU64` | src/analysis/halo_shape.cpp:71-91 | the two words are the exact 128-bit product |
| `Limbs.AddWord` | src/analysis/halo_shape.cpp:256-270 | adds word*2^(64*index) with all carries, and fails exactly when the sum does not fit the limbs |
| `Limbs.AddShifted` | src/analysis/halo_shape.cpp:272-294 | adds the words shifted by any number of bits, and fails exactly when the sum does not fit the limbs |
| `Limbs.CompareLimbs` | src/analysis/halo_shape.cpp:181-188 | the comparison from the top limb decides the order of the values |
| `Limbs.SubtractLimbs` | src/analysis/halo_shape.cpp:191-204 | limb-wise subtraction with borrow gives the exact difference and the final borrow is zero |
| `Limbs.LeadingPosition` | src/analysis/halo_shape.cpp:206-217 | finds the limb and bit of the leading one of a nonzero number |
| `ExactDyadic.DecodeIsExact` | src/analysis/halo_shape.cpp:99-118 | mantissa, exponent and sign represent the value exactly |
| `ExactDyadic.ExactDyadicPredicateSum.constructor` | src/analysis/halo_shape.cpp:296-297 | an empty accumulator holds zero in both buckets |
| `ExactDyadic.ExactDyadicPredicateSum.AddWords` | src/analysis/halo_shape.cpp:272-294 | one bucket grows by the shifted words, the other is untouched |
| `ExactDyadic.ExactDyadicPredicateSum.AddProduct` | src/analysis/halo_shape.cpp:122-136 | the bucket of the product's sign grows by the exact product in units of 2^-3222; the only errors are a value that is not finite and a sum beyond the limbs |
| `ExactDyadic.ExactDyadicPredicateSum.AddTripleProduct` | src/analysis/halo_shape.cpp:138-175 | the same for three factors; the mantissa overflow error is unreachable |
| `ExactDyadic.TripleMantissaBound` | src/analysis/halo_shape.cpp:161-165 | the product of three 53-bit mantissas leaves the third word far from full |
| `ExactDyadic.ExactDyadicPredicateSum.IsZero` | src/analysis/halo_shape.cpp:177 | the buckets are equal exactly when the accumulated signed sum is zero |
| `ExactDyadic.ExactDyadicPredicateSum.LeadingBitOfMagnitude` | src/analysis/halo_shape.cpp:179-232 | the binary exponent is that of the exact absolute value of the signed sum, absent exactly for zero; the borrow error is unreachable |
| `DisplacementSpan.LimbsSuffice` | src/analysis/halo_shape.cpp:243-253 | 100 limbs hold six products in one bucket: no expression of at most six products overflows |
| `DisplacementSpan.TermsVanish` | src/analysis/halo_shape.cpp:313-325 | any expression of at most six triple products is decided exactly, and only a value that is not finite is an error |
| `DisplacementSpan.FirstNonzero` | src/analysis/halo_shape.cpp:300-311 | the components are tested in order and the first that is not finite or not zero decides |
| `DisplacementSpan.ExactlyCollinear` | src/analysis/halo_shape.cpp:300-311 | for finite vectors exactly whether the cross product vanishes |
| `DisplacementSpan.ExactlyCoplanar` | src/analysis/halo_shape.cpp:313-325 | for finite vectors exactly whether the determinant vanishes |
| `DisplacementSpan.TermsAreDeterminant` | src/analysis/halo_shape.cpp:317-323 | the six signed terms are the determinant |
| `DisplacementSpan.ExactDisplacementSpan.Add` | src/analysis/halo_shape.cpp:332-352 | every displacement fed keeps the span equal to the incremental rank of all exact vectors fed so far; the error is raised exactly when the predicate of the current rank meets a value that is not finite before it can tell, and leaves rank and vectors as they were |
| `DisplacementSpan.ExactDisplacementSpan.AddToLine` | src/analysis/halo_shape.cpp:344-350 | at rank 1 a displacement off the line raises the rank and becomes the second vector |
| `DisplacementSpan.ExactDisplacementSpan.AddToPlane` | src/analysis/halo_shape.cpp:351 | at rank 2 a displacement off the plane raises the rank |
| `DisplacementSpan.ExactDisplacementSpan.RankIsLinear` | src/analysis/halo_shape.cpp:327-353 | the rank field is the linear rank of all vectors fed in; it is at most 1 exactly when all pairs are collinear, at most 2 exactly when all triples have determinant 0 |
| `LinearRank.RunHasRank` | src/analysis/halo_shape.cpp:327-353 | for any order of the vectors the incremental rank is the size of a largest linearly independent family drawn from them |
| `LinearRank.RunByMinors` | src/analysis/halo_shape.cpp:300-353 | rank at most 1 is pairwise collinearity and rank at most 2 is triplewise coplanarity |
| `LinearRank.FourDependent` | src/analysis/halo_shape.cpp:333-337 | no four vectors are independent, so the rank stops at 3 |
| `SlabLayout.FallbackTiles` | src/mesh/mpi_slab_layout.cpp:28-34 | the quotient-and-remainder split tiles the planes with widths differing by at most one, the wider slabs first |
| `SlabLayout.BuildTable` | src/domain/domain_decomposition.cpp:223-243 | the end-plane table is built exactly when the slabs tile the mesh in rank order, zero-width slabs included |
| `SlabLayout.OwnerRank` | src/domain/domain_decomposition.cpp:255-272 | the binary search finds the owner of the coordinate's cell |
| `SlabLayout.OwnerIsUnique` | src/domain/domain_decomposition.cpp:219-223 | the owner is the one rank whose slab contains the cell; the no-owner error is unreachable and empty slabs own nothing |
| `SlabLayout.OwnerBounds` | src/domain/domain_decomposition.cpp:245-272 | when every coordinate lies between the planes bounding its cell, every wrapped coordinate lies within its owner's bounds |
| `SlabLayout.ValuesGiveExactCells` | src/domain/domain_decomposition.cpp:218-263 | the rounded cells do so whenever the cell size and all plane positions are values |
| `SlabLayout.OutsideOwner` | src/domain/domain_decomposition.cpp:255-272 | in a box of five units over four planes the coordinate 1 belongs to rank 1, whose slab begins at 5/4: bounds need not contain what a rank owns |
| `SlabLayout.FiveUnitsExist` | src/domain/domain_decomposition.cpp:218-243 | that topology, with the rounded cells in use, exists |
| `SlabLayout.CanonicalIsWrapped` | include/cosmo_nbody/math/periodic_box.hpp:27-41 | a wrapped coordinate is finite and canonical, wrapping again changes neither it nor its magnitude |
| `SlabLayout.CanonicalByValue` | include/cosmo_nbody/math/periodic_box.hpp:27-41 | the coordinates kept as they are, are the values from zero to below the box, the negative zero included |
| `MeshCells.CellMonotone` | src/domain/domain_decomposition.cpp:261-263 | a larger coordinate is never in an earlier cell, the two roundings and the clamp included |
| `MeshCells.CellIsRoundedQuotient` | src/domain/domain_decomposition.cpp:218-263 | the cell in use is the whole part of the correctly rounded quotient by the correctly rounded cell size, clamped to the last cell |
| `MeshCells.CellIsExact` | src/domain/domain_decomposition.cpp:261-263 | where the cell size and all plane positions are values, the rounded cell is the exact one and nothing is clamped |
| `MeshCells.ShortSizeSuffices` | src/domain/domain_decomposition.cpp:218 | an exact cell size whose significand times the number of planes stays below 2^53 makes all plane positions values |
| `MeshCells.QuotientFits` | src/domain/domain_decomposition.cpp:261-262 | for every box and mesh the rounded quotient is at most twice the number of planes, so its conversion to an index is safe |
| `MeshCells.RoundingMisplaces` | src/domain/domain_decomposition.cpp:261-263 | in a box of five units over four planes the coordinate 1 is put into cell 1, beyond its own position, and the coordinate 4 is clamped |
| `ParticleStores.WrapInPlace` | src/domain/domain_decomposition.cpp:481-485 | in every particle each of the three coordinates is wrapped, and identifier, mass and the three momenta stay |
| `ParticleStores.Compact` | src/domain/domain_decomposition.cpp:670-690 | the front of the array becomes the wrapped retained particles in order |
| `ParticleStores.CountRetained` | src/domain/domain_decomposition.cpp:546-557 | counts the particles staying on the rank |
| `ParticleStores.CollidesWithRetained` | src/domain/domain_decomposition.cpp:625-640 | the two-finger scan reports a collision exactly when a retained and an incoming identifier are equal |
| `ParticleStores.MergeOverlap` | src/domain/domain_decomposition.cpp:743-763 | the backward merge never overwrites an unread retained record while both sides last |
| `ParticleStores.BuiltIsMerged` | src/domain/domain_decomposition.cpp:746-768 | the tail built from the back is in strict order, above everything unread, and holds exactly the records read |
| `ParticleStores.MergeBackward` | src/domain/domain_decomposition.cpp:743-778 | the in-place merge ends in strictly increasing identifier order with exactly the retained plus the incoming particles; its accounting and order errors are unreachable |
| `ParticleStores.CommitSparse` | src/domain/domain_decomposition.cpp:670-778 | compaction, two resizes and merge together replace a store by its retained and incoming records in strict order |
| `ParticleStores.StrictUnique` | src/domain/domain_decomposition.cpp:773-778 | a set of particles has one arrangement in strict identifier order |
| `DomainDecomposition.ValidateInput` | src/domain/domain_decomposition.cpp:34-73 | a store passes exactly when positions and momenta are finite, the masses in use finite and positive, and the identifiers distinct |
| `DomainDecomposition.AgreeOnMass` | src/domain/domain_decomposition.cpp:108-183 | explicit masses win; otherwise one uniform mass shared by all non-empty stores; otherwise the disagreement error |
| `DomainDecomposition.BuildRoutes` | src/domain/domain_decomposition.cpp:559-574 | the outgoing records are the wrapped particles of other ranks, or of all ranks on the rebuild path, in store order |
| `DomainDecomposition.RoutesTo` | src/domain/domain_decomposition.cpp:801-816 | each destination is routed exactly its selection of the store |
| `DomainDecomposition.GatheredIsShare` | src/domain/domain_decomposition.cpp:321-322 | the selections of all stores for a rank are together its share of the global wrapped set, with multiplicities |
| `DomainDecomposition.IncomingIsGathered` | src/domain/domain_decomposition.cpp:542-586 | what a rank keeps and what it receives are together every store's selection for it, on both migration paths |
| `DomainDecomposition.AcceptReceived` | src/domain/domain_decomposition.cpp:599-620 | received records are sorted and accepted exactly when all have finite canonical positions, finite momenta, a finite positive mass, the agreed mass if there is one, are owned here, and no identifier repeats |
| `DomainDecomposition.StageAll` | src/domain/domain_decomposition.cpp:589-645 | every rank validates what it received against its live array, reading all arrays and modifying none; legal records are always accepted |
| `DomainDecomposition.StagingSucceeds` | src/domain/domain_decomposition.cpp:589-640 | records of distinct, legal shares always pass the receive validation |
| `DomainDecomposition.RetainAll` | src/domain/domain_decomposition.cpp:459-501 | when every store is sorted, of the agreed representation and fully owned, wrapping each live array in place publishes every rank's share in the same array |
| `DomainDecomposition.MigrateSparse` | src/domain/domain_decomposition.cpp:523-794 | on the live stores: published, with every rank's share, exactly when no rank would own two particles of one identifier; otherwise rejected, and then every rank still has its array, its contents and its mass representation; the routing, population and merge errors are unreachable |
| `DomainDecomposition.RebuildAll` | src/domain/domain_decomposition.cpp:796-905 | on the live stores: published, with every rank's share, exactly when identifiers are globally unique; otherwise the duplicate error, with every live array and mass representation untouched |
| `DomainDecomposition.CommitAll` | src/domain/domain_decomposition.cpp:654-793 | after all ranks have validated, every rank takes over the mass representation and its compaction and merge of the live array publish its share; no rank touches another's array |
| `DomainDecomposition.SharesHavePopulation` | src/domain/domain_decomposition.cpp:647-652 | shares of the right sizes add up to the population before, so the population error is unreachable |
| `DomainDecomposition.Repartition` | src/domain/domain_decomposition.cpp:410-905 | on several ranks the outcome is exactly the verdict of the admitted path; published stores are the shares with the surviving mass representation, and any other outcome leaves every live array and mass representation untouched |
| `DomainDecomposition.PartitionDomain` | src/domain/domain_decomposition.cpp:321-905 | the whole partition has exactly the outcome of Verdict: invalid input, else published on one rank by wrapping in place in the given order, else mass disagreement, else the verdict of the admitted path; what is published carries over exactly what was given, field by field (Carried); any failure leaves every live array, the mass representations and the canonical flag untouched |
| `DomainDecomposition.ChoosePath` | src/domain/domain_decomposition.cpp:414-523 | one mass representation survives or the masses disagree, and a path is admitted whose requirement decides the verdict |
| `DomainDecomposition.PublishedDistinct` | src/domain/domain_decomposition.cpp:515-523 | published identifiers are globally unique exactly when the identifiers given were, on every path |
| `DomainDecomposition.RepetitionIsPublished` | src/domain/domain_decomposition.cpp:433-501 | two valid, retainable stores that share an identifier are published as they are: the retain-all path promises no global uniqueness |
| `DomainDecomposition.DistinctIsPublished` | src/domain/domain_decomposition.cpp:515-523 | on valid stores with globally distinct identifiers no path rejects or reports a duplicate: the outcome is a mass disagreement or a publication |
| `DomainDecomposition.WrappedOrder` | src/domain/domain_decomposition.cpp:481-485 | wrapping in place neither makes nor breaks strict identifier order |
| `DomainDecomposition.OrderIsPublished` | src/domain/domain_decomposition.cpp:385-408 | a publication is in strict identifier order on every rank exactly when there are several ranks or the one store was in order |
| `DomainDecomposition.DescendingIsPublished` | src/domain/domain_decomposition.cpp:385-408 | one rank publishes a valid store with identifiers 9, 7 as it is |
| `DomainDecomposition.PublishedUnique` | src/domain/domain_decomposition.cpp:433-903 | a rank's share has one published form, whichever path built it |
| `DomainDecomposition.PathsAgree` | src/domain/domain_decomposition.cpp:433-903 | retain-all, sparse and route-all publish the same stores on every rank |
| `DomainDecomposition.Conservation` | src/domain/domain_decomposition.cpp:321-905 | on one rank and on several: every published particle has the identifier, mass and momenta of a given one and its wrapped coordinates, every given particle is published, each as often as it was given, and the multiset of identifiers, momenta and masses is conserved |
| `DomainDecomposition.PublishedInSlab` | src/domain/domain_decomposition.cpp:852-858 | every published particle sits on the one rank whose slab contains its cell, whatever rule assigns the cells |
| `DomainDecomposition.UniqueIffDistinct` | src/domain/domain_decomposition.cpp:796-799 | the canonical buckets see a repetition exactly when the stores are not globally distinct |
| `DomainDecomposition.AfterSameIds` | src/domain/domain_decomposition.cpp:888-890 | a rebuilt world has the identifier set it started with, so the preservation check passes |
| `ExchangeBuffer.SortRouteRecords` | src/domain/exchange_buffer.cpp:11-31 | sorts in place by destination and identifier; refuses exactly negative destinations, before sorting, and repeated (destination, identifier) pairs |
| `ExchangeBuffer.ValidateRoutingLayout` | src/domain/bounded_migration.cpp:58-113 | counts and offsets per destination are accepted exactly for destination-sorted records with strictly increasing identifiers and destinations inside the communicator |
| `ExchangeBuffer.ToIsSlice` | src/domain/bounded_migration.cpp:83-107 | in routing order the records of a destination are one contiguous slice |
| `BoundedMigration.RoundHasRecords` | src/domain/bounded_migration.cpp:132-153 | a round carries records exactly when it is one of the required rounds |
| `BoundedMigration.RoundsTile` | src/domain/bounded_migration.cpp:138-153 | the rounds tile the records: each begins where the previous one ended |
| `BoundedMigration.RoundBeginIsExact` | src/domain/bounded_migration.cpp:138-145 | a round begins after the full rounds before it, and its offset is refused exactly when it does not fit 64 bits |
| `BoundedMigration.RoundOffsetFits` | src/domain/bounded_migration.cpp:138-145 | no round offset of a 64-bit record count overflows |
| `BoundedMigration.NoIdleRound` | src/domain/bounded_migration.cpp:490-507 | a rank takes part in no round in which it neither sends nor receives |
| `BoundedMigration.MessageIsShare` | src/domain/bounded_migration.cpp:531-549 | every message is its round's share of the sorted records for the destination |
| `BoundedMigration.InitInvariant` | src/domain/bounded_migration.cpp:453-467 | the protocol invariant holds once each rank has copied its own records |
| `BoundedMigration.StepInvariant` | src/domain/bounded_migration.cpp:507-570 | every step of any rank or transfer keeps the protocol invariant |
| `BoundedMigration.MessagesMatch` | src/domain/bounded_migration.cpp:500-505 | the two ends of an edge agree on every per-round count and the message lands inside the receive buffer |
| `BoundedMigration.NeverStuck` | src/domain/bounded_migration.cpp:490-570 | no deadlock: in every reachable state before the end some rank can post or end its wait, or some transfer can take place, without a global round barrier and without relying on transport buffering |
| `BoundedMigration.Successor` | src/domain/bounded_migration.cpp:490-570 | every unfinished state of the invariant has a next state, which keeps the invariant and has less work |
| `BoundedMigration.StepWorks` | src/domain/bounded_migration.cpp:507-570 | every step uses up work, so every run ends |
| `BoundedMigration.FinishedBuffers` | src/domain/bounded_migration.cpp:572 | a finished exchange leaves in each buffer the concatenation by source of the records routed to it |
| `BoundedMigration.RunFinishes` | src/domain/bounded_migration.cpp:490-573 | every run extends to a finished one |
| `BoundedMigration.FinishedRunExists` | src/domain/bounded_migration.cpp:430-573 | every valid world has an initial state and a finished run from it |
| `BoundedMigration.ExchangeCorrect` | src/domain/bounded_migration.cpp:430-573 | over every run: its length is bounded, an unfinished end can proceed, it extends to a finished run, and a finished one holds on every rank exactly the concatenation by source rank of the records routed to it, each once, for any chunk limit |
| `BoundedMigration.Transport` | src/domain/bounded_migration.cpp:334-573 | what the exchange delivers, as the callers use it: the concatenation by source |
| `BoundedMigration.TransportIsExchange` | src/domain/bounded_migration.cpp:334-573 | what the callers are given is what the protocol leaves: there is a finished run, and every finished run has exactly these records in the receive buffers |
| `GlobalIdCheck.RingPairs` | src/domain/mpi_global_id_check.cpp:257-263 | send and receive partners agree at every offset and no rank meets itself |
| `GlobalIdCheck.EveryPeerHeard` | src/domain/mpi_global_id_check.cpp:257-263 | every other rank is met at exactly one offset |
| `GlobalIdCheck.Receive` | src/domain/mpi_global_id_check.cpp:348-367 | merging one received identifier keeps the cursor and records exactly whether it is held locally |
| `GlobalIdCheck.Sendrecv` | src/domain/mpi_global_id_check.cpp:311-330 | what every rank addresses to its destination is what the destination takes from its source |
| `GlobalIdCheck.CountsAgree` | src/domain/mpi_global_id_check.cpp:296-330 | with separate counters on both ends, a source has sent what its destination has received, and the count it sends in a round is the count its destination expects |
| `GlobalIdCheck.ExchangeRound` | src/domain/mpi_global_id_check.cpp:296-371 | one round on all ranks keeps every rank's sent and received counters and the merge of what was received |
| `GlobalIdCheck.StreamOffset` | src/domain/mpi_global_id_check.cpp:257-375 | streaming one offset finds a duplicate on a rank exactly when it shares an identifier with its source; the protocol flag is never set and both counts end complete |
| `GlobalIdCheck.WalkRing` | src/domain/mpi_global_id_check.cpp:257-375 | walking the ring, all ranks together, each finds a duplicate exactly when some other rank shares an identifier with it, and no protocol flag is set |
| `GlobalIdCheck.RequireSortedIdsUnique` | src/domain/mpi_global_id_check.cpp:186-391 | the order error exactly for a rank whose identifiers are not strictly increasing; otherwise a duplicate is reported exactly when two different ranks share an identifier; the protocol error never occurs, for any size and chunk |
| `CanonicalBuckets.CountShares` | src/domain/mpi_global_id_check.cpp:424-433 | counts each checker rank's share |
| `CanonicalBuckets.SendOrder` | src/domain/mpi_global_id_check.cpp:526-565 | groups the identifiers by owner in one pass; the cursor and extent errors are unreachable |
| `CanonicalBuckets.SharesCover` | src/domain/mpi_global_id_check.cpp:449-476 | the shares of all checkers are together all identifiers |
| `CanonicalBuckets.PairAgrees` | src/domain/mpi_global_id_check.cpp:575-600 | with separate counters on both ends, a source has sent what its destination has received, and the chunk it sends is the next part of the share its destination expects |
| `CanonicalBuckets.TakeChunk` | src/domain/mpi_global_id_check.cpp:575-620 | one rank's side of a round: its sent and received counters go on by their own counts and the chunk lands at its place in the bucket |
| `CanonicalBuckets.ExchangeChunks` | src/domain/mpi_global_id_check.cpp:575-620 | one round of one offset on all ranks keeps every rank's counters and bucket |
| `CanonicalBuckets.ExchangeShares` | src/domain/mpi_global_id_check.cpp:567-629 | one offset: every rank sends its destination's share and receives its own, in as many rounds as the largest peer count needs; the accounting error is unreachable |
| `CanonicalBuckets.LargestPeerCount` | src/domain/mpi_global_id_check.cpp:471-498 | the count the rounds are sized by is the largest share any rank sends to another |
| `CanonicalBuckets.GatherShares` | src/domain/mpi_global_id_check.cpp:435-629 | every checker receives exactly its shares of all ranks, ordered by source, all ranks walking the offsets together |
| `CanonicalBuckets.SortBucket` | src/domain/mpi_global_id_check.cpp:631-635 | sorts in place and reports equal neighbours exactly when an identifier repeats |
| `CanonicalBuckets.CaptureIdSet` | src/domain/mpi_global_id_check.cpp:393-683 | for any owner hash: capture succeeds exactly when identifiers are globally unique, and then the buckets are the sorted partition of the global set |
| `CanonicalBuckets.BucketsDecide` | src/domain/mpi_global_id_check.cpp:688-692 | equal buckets on every rank mean equal global identifier sets |
| `CanonicalBuckets.RequireIdSetPreserved` | src/domain/mpi_global_id_check.cpp:685-716 | the check passes exactly when the set afterwards is duplicate-free, the communicator size unchanged and the global sets equal |
| `HaloVmax.Descend` | src/analysis/halo_vmax.cpp:66-76 | the descent ends at the adjacent value just below or at the root |
| `HaloVmax.Ascend` | src/analysis/halo_vmax.cpp:77-97 | the ascent ends at the adjacent pair around the root and fails exactly beyond the largest finite value |
| `HaloVmax.ChooseByMidpoint` | src/analysis/halo_vmax.cpp:100-123 | the exact midpoint comparison picks the nearer of two adjacent values, the even one at a tie |
| `HaloVmax.RoundedRoot` | src/analysis/halo_vmax.cpp:30-124 | from any positive finite seed the nearest-even rounding of the square root of an exact square, refused exactly when the root exceeds the largest finite value |
| `HaloVmax.DistanceReachable` | src/analysis/halo_vmax.cpp:25-28 | every torus distance in a finite box stays below the largest finite value |
| `HaloVmax.SeedIsUsable` | src/analysis/halo_vmax.cpp:35-48 | the estimate, with its 53-bit square, rounded root and rounded scaling, is positive and finite for every square with a finite root, so the representability error is unreachable |
| `HaloVmax.DifferenceIsNearest` | src/analysis/halo_vmax.cpp:38-43 | the 53-bit square is exact if it can be, and otherwise the nearest, ties to even |
| `HaloVmax.SeedIsRoundedRoot` | src/analysis/halo_vmax.cpp:47-48 | the estimate is the nearest root of the mantissa, scaled by half of the exponent and rounded to the nearest value |
| `HaloVmax.ExponentIsHalved` | src/analysis/halo_vmax.cpp:44-48 | splitting off an even exponent and halving it is exact |
| `HaloVmax.CanonicalPeriodicRadius` | src/analysis/halo_vmax.cpp:20-124 | for wrapped endpoints of a finite box the radius is the nearest-even rounding of the exact torus distance; neither the representability error nor the negative square can occur |
| `HaloVmax.NearestRootIsNearestEven` | src/analysis/halo_vmax.cpp:40-43 | the integer characterization is rounding to nearest even of the real square root |
| `HaloVmax.NearestRootUnique` | src/analysis/halo_vmax.cpp:40-43 | that rounding is unique, so the seed does not matter |
| `HaloVmax.DistanceKeyIsMonotone` | include/cosmo_nbody/math/periodic_box.hpp:359-385 | the distance rounded to 53 bits, ties to even, with unbounded exponent is a monotone key |
| `HaloVmax.CloserIsExact` | src/analysis/halo_vmax.cpp:207-218 | with any monotone rounded key the comparator is the exact order of distance, then index |
| `HaloVmax.SortMembers` | src/analysis/halo_vmax.cpp:207-219 | the sort by that comparator puts the members in exact distance order, ties by index |
| `HaloVmax.CheckMembers` | src/analysis/halo_vmax.cpp:160-191 | the members pass exactly when all indices are below the number of particles and different, all radii finite and not below zero, all positions finite and all masses finite and positive; a complaint names the first member that is not in order and the first thing wrong with it |
| `HaloVmax.EnclosedPermuted` | src/analysis/halo_vmax.cpp:262-267 | the mass enclosed by a closed sphere does not depend on the order of the members |
| `HaloVmax.TakeShell` | src/analysis/halo_vmax.cpp:243-251 | a shell is the maximal run of equal exact distances and the accumulator then holds the mass of the closed sphere |
| `HaloVmax.SweepShells` | src/analysis/halo_vmax.cpp:241-282 | the sweep over complete shells in distance order is the brute-force maximum, and fails exactly when some circular-velocity logarithm is not finite |
| `HaloVmax.ComputeVmax` | src/analysis/halo_vmax.cpp:128-282 | invalid input, the scale factor included, is reported and changes nothing; otherwise the members end in exact distance order, ties by index, and the maximum over complete exact shells is the brute-force maximum over the exact torus distances of all off-center members, for any score, ties going to the nearest; the only refusal then is a circular velocity whose logarithm is not finite, exactly when there is one |
| `PairBins.FirstStrictlyAbove` | src/analysis/two_point_correlation.cpp:39-51 | the binary search finds the first edge strictly above the distance |
| `PairBins.LocatePeriodicExact` | src/analysis/two_point_correlation.cpp:31-100 | the exact half-open bin for any rounded hint, however wrong, or none; the final edge is out of range |
| `PairBins.BinUnique` | src/analysis/two_point_correlation.cpp:94-99 | a distance has exactly one bin outcome |
| `CellGrid.DecodeEncoded` | src/analysis/two_point_correlation.cpp:237-265 | decoding a cell identifier recovers its coordinates |
| `CellGrid.PeriodicInRange` | src/analysis/two_point_correlation.cpp:267-272 | the wrapped cell index is in range for negative values too |
| `CellGrid.NeighborCellIds` | src/analysis/two_point_correlation.cpp:274-312 | exactly the cells at offsets within the reach are listed, each once although offsets may wrap onto one cell |
| `CellGrid.SortUnique` | src/analysis/two_point_correlation.cpp:309-310 | sorting and erasing repetitions keeps the members and leaves a strictly increasing list |
| `CellGrid.CellIdFits` | src/analysis/two_point_correlation.cpp:237-252 | identifiers and their partial products fit 30 bits, so the overflow errors are unreachable |
| `CellGrid.ReachIsTwo` | src/analysis/two_point_correlation.cpp:338-346 | a radius within the box reaches over at most one cell width, so the reach is 2 and neither the reach nor the neighbour count overflows |
| `CellGrid.CellsFillBox` | src/analysis/two_point_correlation.cpp:318-327 | as many cells as radii fit into the box, at least one and at most 1024 |
| `CellGrid.BuildCellGrid` | src/analysis/two_point_correlation.cpp:314-376 | as many cells as radii fit into the box, between 1 and 1024; the occupied cells partition the points, every occupied cell lists exactly the cells within the reach, which is one more than the radius needs, all cell and neighbour identifiers fit 30 bits, and the reach is 2 for every radius the options admit |
| `CellGrid.BeyondIsLast` | src/analysis/two_point_correlation.cpp:349-358 | a coordinate at or beyond the end of the last cell is put into that cell |
| `CellGrid.NearIsNeighbor` | src/analysis/two_point_correlation.cpp:335-340 | the cell of every point nearer than the radius is in the neighbour list |
| `PairCounting.RecordDistance` | src/analysis/two_point_correlation.cpp:432-449 | a pair in range adds one to its bin and to the total; failure means the count would not fit |
| `PairCounting.RowsByGrid` | src/analysis/two_point_correlation.cpp:463-477 | visiting neighbour cells meets every later partner in range exactly once |
| `PairCounting.CountPoint` | src/analysis/two_point_correlation.cpp:460-479 | one point contributes exactly its row of pairs in range |
| `PairCounting.WorkersCover` | src/analysis/two_point_correlation.cpp:408-416 | splitting the rows over workers loses and repeats none, for any assignment |
| `PairCounting.CountLocally` | src/analysis/two_point_correlation.cpp:402-419 | every worker's counters are the counts of its own points |
| `PairCounting.CountAuto` | src/analysis/two_point_correlation.cpp:388-481 | one bin for each interval between edges; the merged counts equal the brute-force count of unordered pairs per half-open bin, the bins add up to the total, for any worker split, and overflow exactly when the total does not fit |
| `PairCounting.CountPairs` | src/analysis/two_point_correlation.cpp:314-481 | the same from the points on, with the grid built for the outermost edge |
| `PairCounting.BinsPartitionPairs` | src/analysis/two_point_correlation.cpp:432-449 | every pair in range is in exactly one bin: the brute-force counts of the bins add up to the brute-force total |
| `SlabVisibility.NearestImageMinimal` | src/domain/ghost_exchange.cpp:111-119 | no periodic image lies closer to the slab center than the chosen one |
| `SlabVisibility.RoundsHalfAway` | src/domain/ghost_exchange.cpp:117 | the nearest number of whole boxes is taken, halves away from zero |
| `SlabVisibility.NearestImageDecides` | src/domain/ghost_exchange.cpp:111-127 | the center-nearest image is within the radius of the slab exactly when some periodic image is |
| `SlabVisibility.GapSeparates` | src/domain/ghost_exchange.cpp:49-66 | the integer gap in planes bounds the distance of any image from below, the shorter way round |
| `SlabVisibility.GapIsLeast` | src/domain/ghost_exchange.cpp:49-66 | the integer gap is the number of planes to the nearest periodic image of the other slab |
| `SlabVisibility.PruningIsSafe` | src/domain/ghost_exchange.cpp:68-85 | pruning by the integer gap loses no slab that sees a coordinate inside the local slab |
| `SlabVisibility.NothingPrunedExactly` | src/domain/ghost_exchange.cpp:68-85 | pruning loses nothing of a coordinate, at any radius, exactly when no slab is nearer to it than the gap in planes |
| `SlabVisibility.InsideNothingPruned` | src/domain/ghost_exchange.cpp:68-85 | nothing is pruned, at any radius, for a coordinate inside the local slab |
| `SlabVisibility.PrunedThoughVisible` | src/domain/ghost_exchange.cpp:68-85 | in a box of five units over four planes the last slab is one unit from the coordinate 1 of rank 1, sees it at radius 1, and is pruned |
| `SlabVisibility.CandidateSlabs` | src/domain/ghost_exchange.cpp:87-109 | the candidates are exactly the other ranks passing the gap test, in rank order |
| `GhostExchange.RoutesAreVisible` | src/domain/ghost_exchange.cpp:198-220 | the routed records are exactly the pairs of an owned particle and another rank that is a candidate and whose slab sees it, wherever the particle lies |
| `GhostExchange.RouteGhosts` | src/domain/ghost_exchange.cpp:190-221 | the routes in routing order are exactly those pairs, each once; routing never fails on owned distinct particles |
| `GhostExchange.Collides` | src/domain/ghost_exchange.cpp:270-284 | the scan finds a collision exactly when an owned and a ghost identifier are equal |
| `GhostExchange.AdmitGhosts` | src/domain/ghost_exchange.cpp:234-285 | the received records are sorted and kept as they are, and accepted exactly when distinct, canonical, heavy, of the uniform mass if there is one, within the radius and not owned |
| `GhostExchange.AdmissionDecides` | src/domain/ghost_exchange.cpp:234-285 | what arrives at a rank is accepted exactly when every mass it sees fits and no two ranks' particles it owns or sees share an identifier |
| `GhostExchange.ExchangeGhosts` | src/domain/ghost_exchange.cpp:164-319 | on any partitioned world, identifiers repeated between ranks included: every rank's suffix becomes exactly the foreign particles of its candidates within the radius of its slab around the torus, each with its own identifier and mass and its x, y and z wrapped, in strict identifier order, unless some rank cannot take what it is sent, and then the exchange is rejected and every suffix stays; a negative radius is refused, and a zero radius or a single rank clears the suffixes of any stores |
| `GhostExchange.ExchangedIsHeld` | src/domain/ghost_exchange.cpp:209-219 | every particle exchanged with a rank is stood for by one ghost there, field by field, the only one with its identifier |
| `GhostExchange.NothingMissed` | src/domain/ghost_exchange.cpp:68-85 | when every particle lies inside its rank's slab, those are all foreign particles the slab sees |
| `GhostExchange.ExactCellsMissNothing` | src/domain/domain_decomposition.cpp:255-272 | with exact cells every particle of a partitioned world lies inside its rank's slab |
| `GhostExchange.GhostIsMissed` | src/domain/ghost_exchange.cpp:68-85 | a partitioned world in which a slab sees a foreign particle at the search radius and is not sent it |
| `GhostExchange.PartitionedReady` | src/domain/ghost_exchange.cpp:182-185 | what a partition publishes is what the ghost exchange requires, and no rank then sees a mass it cannot take |
| `GhostExchange.RepetitionDecides` | src/domain/ghost_exchange.cpp:234-285 | after a partition the exchange is rejected exactly when some rank would hold two particles of one identifier, hence never when identifiers were unique |
| `MembershipTable.CatalogRow` | src/analysis/halo_membership_catalog.cpp:381-384 | row i of the catalog is entry i, its offset is the sum of the sizes before it, and its slice recovers its members |
| `MembershipTable.AppendedIs` | src/analysis/halo_membership_catalog.cpp:171-213 | an append keeps the dataset up to the old extent, and writes the data there; no data changes nothing |
| `MembershipTable.FlushKeeps` | src/analysis/halo_membership_catalog.cpp:478-520 | flushing neither loses nor repeats a row or a member |
| `MembershipTable.BufferedAppends` | src/analysis/halo_membership_catalog.cpp:404-412 | the batched path appends one row to the unbuffered catalog |
| `MembershipTable.DirectAppends` | src/analysis/halo_membership_catalog.cpp:386-401 | the direct path appends the same row |
| `MembershipTable.MembershipTable.Flush` | src/analysis/halo_membership_catalog.cpp:478-520 | buffers are drained and the row alignment error is unreachable |
| `MembershipTable.MembershipTable.Append` | src/analysis/halo_membership_catalog.cpp:350-417 | refused exactly for a finalized table, wrong availability, members that are not strictly increasing or counts beyond 64 bits, before anything changes; otherwise the log grows by the entry, whichever path writes it; an entry that leaves room in both batches writes nothing out, any other leaves nothing in the buffers |
| `MembershipTable.MembershipTable.Finalize` | src/analysis/halo_membership_catalog.cpp:419-438 | the datasets are the unbuffered catalog of the log and the divergence error is unreachable |
| `MembershipTable.WriteCatalog` | src/analysis/halo_membership_catalog.cpp:350-438 | for any sequence of small and large appends followed by finalize the datasets are the catalog of the acceptable entries |

## Left out

- File formats, configuration, command line and provenance code: plumbing around the modelled core. Provenance digests carried
  through a partition are not part of the model.
- FFT, Green's function, spectra, drift and kick integration, force kernels, Jacobi and interval certificates: their claims are
  about floating-point error, not about an exact result.
- The logarithm that follows the leading bit of a dyadic sum, and the logarithms, exponential and final range checks around
  the circular velocity: the score of a shell and whether its logarithm is finite are arbitrary functions of the enclosed mass
  and the radius.
- MPI calls, datatypes, error codes, allocation failure and abort: a stage is agreed by all ranks or stops all ranks.
- The live FFTW slab layout: any layout is modelled, and `BuildTable` accepts exactly those that tile the mesh.
- Rounding inside the visibility test of the ghost routing (slab bounds, slab center, nearest image, distance) and inside the
  cells of the pair counts: modelled over the reals, on coordinates and boxes that are values.
- Particle fields as separate arrays: a store is a live array of records, and the reuse of vector capacity on resizing is not
  visible (a resize yields a new array). Accelerations, validity flags and the ghost suffix during a partition are left out,
  so what is unchanged by a failed partition is the owned particles and the mass representation.
- Overflow of 64-bit record counts and of sizes in the partition and the buckets: counts there are unbounded. The membership
  counts, the pair counters, the cell identifiers, the limbs and the round offsets are modelled at their width.
- The memory-bounded uniqueness check of local identifiers: modelled as sorting and comparing neighbours.
- The point-to-point order inside one posted round and the failure to post a request: posting a round is one step.
- The two identifier checkers and the partition run all ranks inside one method, in lock step from one collective call to the
  next; the interleaving of ranks is modelled for the bounded exchange only.
- The comparison of slab gap and radius in extended precision: modelled over the reals.
- How the hash mixes an identifier: any function of the identifier is allowed.
- How the rounded sorting key is computed: the key is any monotone function, and `DistanceKeyIsMonotone` shows that the one
  in use is. The square root instruction is modelled as the nearest value, found by bisection.
- The sparse limb storage of the exact square accumulator: its two parts are unbounded integers.
- PeriodicCenter.PeriodicIntrinsicCenterAccumulator.Axis: asks that the samples were wrapped into the same box that `Axis` is
  given, as the accumulator's only caller does; a different box is not modelled.
- CellGrid.BuildCellGrid: for a radius beyond the box, which the options refuse, the overflow errors of the reach and of the
  neighbour count are not modelled; cell widths and quotients are reals.
