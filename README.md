# Bounds of the DMN decision-table gap and overlap analysis

The decision-table analysis of the DMN validator turns the input entries
of every rule into intervals over a column's value domain. It sorts all
interval endpoints ("bounds") of a column into one sweep. Then it walks that
sweep to find gaps (values no rule covers), overlaps and touching ranges.
This project models the endpoint type `Bound` that the sweep is built on:

- `Bounds` (`bound.dfy`) holds the data model. A bound is a value, a
  boundary kind (`Open`/`Closed`), an optional parent interval identifier
  and a role (`Lower`/`Upper`). Values are `NegInf | Finite(real) | PosInf`.
  The module also has the operations: the sweep comparison `Compare`
  (`compareTo`), the value comparison `CompareValueDispatchingToInf`, the
  role tests `IsLowerBound`/`IsUpperBound`, the touch-or-overlap test
  `AdOrOver`, `Equals`, `HashCode` in 32-bit arithmetic, and the diagnostic
  `ToString`.
- `BoundProperties` (`bound_properties.dfy`) holds the lemmas: every branch
  of the comparison, antisymmetry, how the comparison matches a
  lexicographic sweep key between different intervals (and so is
  transitive there), the concrete inputs on which reflexivity and
  transitivity fail, the "no gap" meaning of `AdOrOver`, equality and hash
  consistency, and a parser that reads the rendering back.

The role is a tag fixed when a bound is built. The Java code instead asks
whether the bound is the very object its parent holds as lower or upper
bound. Two bounds with the same parent and the same role are therefore one
and the same endpoint (`SameEndpoint`). The getters of the Java class are
the datatype's fields.

The ordering is meant for sorting, but the code does not make it a total
order. A bound with a parent compares -1 or 1 against itself. The point
interval [5,5] next to [5,10] gives a cycle. The model follows the code:
`SelfComparisonIsNotZero` and `PointIntervalBreaksTransitivity` exhibit
both, and `TransitiveAcrossIntervals` proves transitivity where it does
hold, among bounds of pairwise different intervals.

## Model

| member | source | states |
|---|---|---|
| `Bounds.NativeCompare` | kie-dmn/kie-dmn-validation/src/main/java/org/kie/dmn/validation/dtanalysis/model/Bound.java:85-87 | the value type's own compareTo (finite values among themselves, a sentinel against anything) is negative exactly when the first value is below the second on the value axis, and zero exactly on equal values |
| `Bounds.CompareValueDispatchingToInf` | kie-dmn/kie-dmn-validation/src/main/java/org/kie/dmn/validation/dtanalysis/model/Bound.java:83-88 | asking the sentinel and negating its answer when a finite value meets an infinity yields -1, 0 or 1 as the first value is below, equal to or above the second on the value axis (NEG_INF below, POS_INF above every finite value) |
| `Bounds.IsLowerBound` | kie-dmn/kie-dmn-validation/src/main/java/org/kie/dmn/validation/dtanalysis/model/Bound.java:102-104 | a bound installed in its parent is exactly one of its lower and upper bound |
| `Bounds.IsUpperBound` | kie-dmn/kie-dmn-validation/src/main/java/org/kie/dmn/validation/dtanalysis/model/Bound.java:106-108 | an installed bound that is not its parent's lower end is its upper end; with `IsLowerBound`'s ensures, every bound is exactly one of the two |
| `Bounds.Compare` | kie-dmn/kie-dmn-validation/src/main/java/org/kie/dmn/validation/dtanalysis/model/Bound.java:35-81 | the sweep comparison always answers -1, 0 or 1 |
| `Bounds.WrapInt32` | kie-dmn/kie-dmn-validation/src/main/java/org/kie/dmn/validation/dtanalysis/model/Bound.java:121-125 | Java int arithmetic: the result lies in 32 bits and agrees with the mathematical value modulo 2^32 |
| `Bounds.ToString` | kie-dmn/kie-dmn-validation/src/main/java/org/kie/dmn/validation/dtanalysis/model/Bound.java:110-117 | the rendering is the value text plus exactly one bracket character |
| `Bounds.AdOrOver` | kie-dmn/kie-dmn-validation/src/main/java/org/kie/dmn/validation/dtanalysis/model/Bound.java:150-154 | a reported touch has equal values and at least one CLOSED side; the converse and the no-gap meaning are `AdOrOverCases` and `AdOrOverIffNoGap` |
| `Bounds.Equals` | kie-dmn/kie-dmn-validation/src/main/java/org/kie/dmn/validation/dtanalysis/model/Bound.java:128-145 | equality never holds against null and, when it holds, the two bounds share value and boundary kind; the converse, parent independence and equivalence are `EqualsIgnoresParentAndRole` and `EqualsIsEquivalence` |
| `Bounds.HashCode` | kie-dmn/kie-dmn-validation/src/main/java/org/kie/dmn/validation/dtanalysis/model/Bound.java:119-126 | the hash code is 31*31 + 31*h(kind) + h(value) modulo 2^32, as the prime-31 accumulation computes in int arithmetic; equal bounds hash equally by `EqualBoundsHashEqual` |
| `BoundProperties.SameIntervalNeverSwapped` | kie-dmn/kie-dmn-validation/src/main/java/org/kie/dmn/validation/dtanalysis/model/Bound.java:36-43 | for two bounds with the same non-null parent the lower one compares -1 and the upper one +1, whatever the values |
| `BoundProperties.IntervalEndsKeepTheirOrder` | kie-dmn/kie-dmn-validation/src/main/java/org/kie/dmn/validation/dtanalysis/model/Bound.java:36-43 | an interval's lower end sorts before its upper end in both argument orders, for point intervals and for lower value above upper value alike |
| `BoundProperties.DifferentValuesDecide` | kie-dmn/kie-dmn-validation/src/main/java/org/kie/dmn/validation/dtanalysis/model/Bound.java:45-48 | outside one interval, differing values give -1 exactly when the first is below on the value axis and +1 exactly when it is above; nothing else is consulted |
| `BoundProperties.InfinitiesOutsideFiniteBounds` | kie-dmn/kie-dmn-validation/src/main/java/org/kie/dmn/validation/dtanalysis/model/Bound.java:83-88 | a NEG_INF bound sorts before and a POS_INF bound after every finite bound of another interval, in both argument orders, whatever kinds and roles |
| `BoundProperties.EqualValueUpperBeforeLower` | kie-dmn/kie-dmn-validation/src/main/java/org/kie/dmn/validation/dtanalysis/model/Bound.java:50-54 | at equal values and different parents an upper bound compares -1 against a lower bound and the lower +1 against the upper |
| `BoundProperties.EqualValueLowerTieBreak` | kie-dmn/kie-dmn-validation/src/main/java/org/kie/dmn/validation/dtanalysis/model/Bound.java:55-62 | two lower bounds of different intervals at one value compare 0 exactly when their kinds agree, otherwise CLOSED first |
| `BoundProperties.EqualValueUpperTieBreak` | kie-dmn/kie-dmn-validation/src/main/java/org/kie/dmn/validation/dtanalysis/model/Bound.java:63-71 | two upper bounds of different intervals at one value compare 0 exactly when their kinds agree, otherwise OPEN first |
| `BoundProperties.MissingParentFallback` | kie-dmn/kie-dmn-validation/src/main/java/org/kie/dmn/validation/dtanalysis/model/Bound.java:74-80 | at equal values with a parent missing, the same kind gives 0, OPEN against CLOSED -1 and CLOSED against OPEN +1 |
| `BoundProperties.CompareAntisymmetric` | kie-dmn/kie-dmn-validation/src/main/java/org/kie/dmn/validation/dtanalysis/model/Bound.java:35-81 | swapping two bounds that are not the same endpoint negates the comparison, as the Comparable contract of the class asks |
| `BoundProperties.CompareZeroImpliesEquals` | kie-dmn/kie-dmn-validation/src/main/java/org/kie/dmn/validation/dtanalysis/model/Bound.java:55-80 | the comparison ties two bounds only when they are equal bounds (same value and kind) |
| `BoundProperties.TieRank` | kie-dmn/kie-dmn-validation/src/main/java/org/kie/dmn/validation/dtanalysis/model/Bound.java:50-71 | the tie-break position at one value is one of four, the two upper ones before the two lower ones |
| `BoundProperties.CompareAcrossIntervals` | kie-dmn/kie-dmn-validation/src/main/java/org/kie/dmn/validation/dtanalysis/model/Bound.java:45-71 | between bounds of different intervals the comparison equals the lexicographic order on (value, tie rank: closing OPEN, closing CLOSED, opening CLOSED, opening OPEN) |
| `BoundProperties.TransitiveAcrossIntervals` | kie-dmn/kie-dmn-validation/src/main/java/org/kie/dmn/validation/dtanalysis/model/Bound.java:45-71 | among bounds of pairwise different intervals "not after" and "strictly before" are transitive |
| `BoundProperties.SelfComparisonIsNotZero` | kie-dmn/kie-dmn-validation/src/main/java/org/kie/dmn/validation/dtanalysis/model/Bound.java:36-42 | a bound with a parent compared with itself gives -1 (lower) or +1 (upper), never 0 |
| `BoundProperties.PointIntervalBreaksTransitivity` | kie-dmn/kie-dmn-validation/src/main/java/org/kie/dmn/validation/dtanalysis/model/Bound.java:36-62 | lower of [5,5] before upper of [5,5] before lower of [5,10], which ties with lower of [5,5]: a cycle |
| `BoundProperties.EqualBoundsOrderedApart` | kie-dmn/kie-dmn-validation/src/main/java/org/kie/dmn/validation/dtanalysis/model/Bound.java:50-52 | an upper and a lower bound with the same value and kind are equal bounds yet compare -1 |
| `BoundProperties.AdOrOverCases` | kie-dmn/kie-dmn-validation/src/main/java/org/kie/dmn/validation/dtanalysis/model/Bound.java:150-154 | differing values never touch; at equal values the test holds exactly when at least one side is CLOSED |
| `BoundProperties.AdOrOverIffNoGap` | kie-dmn/kie-dmn-validation/src/main/java/org/kie/dmn/validation/dtanalysis/model/Bound.java:147-154 | in sweep order, and leaving out two bounds at the same infinity, the test holds exactly when an interval ending at the left bound and one starting at the right bound leave no number between them uncovered |
| `BoundProperties.StrictOverlapNotReported` | kie-dmn/kie-dmn-validation/src/main/java/org/kie/dmn/validation/dtanalysis/model/Bound.java:147-154 | when the left value is past the right value the intervals cover everything between, yet the test is false |
| `BoundProperties.EqualInfinitiesBothOpenNotReported` | kie-dmn/kie-dmn-validation/src/main/java/org/kie/dmn/validation/dtanalysis/model/Bound.java:150-154 | two bounds at the same infinity leave no number uncovered, yet the test is false when both are OPEN and true otherwise |
| `BoundProperties.AdjacencyScenarios` | kie-dmn/kie-dmn-validation/src/main/java/org/kie/dmn/validation/dtanalysis/model/Bound.java:150-154 | [1,5]/[5,10] and (1,5)/[5,10] touch; (1,5)/(5,10) and [1,5]/[6,10] do not |
| `BoundProperties.EqualsIsEquivalence` | kie-dmn/kie-dmn-validation/src/main/java/org/kie/dmn/validation/dtanalysis/model/Bound.java:128-145 | equality is reflexive, symmetric and transitive, and false against null |
| `BoundProperties.EqualsIgnoresParentAndRole` | kie-dmn/kie-dmn-validation/src/main/java/org/kie/dmn/validation/dtanalysis/model/Bound.java:136-145 | equality holds exactly when value and kind agree; parents and roles never change the answer |
| `BoundProperties.EqualBoundsHashEqual` | kie-dmn/kie-dmn-validation/src/main/java/org/kie/dmn/validation/dtanalysis/model/Bound.java:119-126 | equal bounds have equal hash codes, whatever the hash codes of kinds and values |
| `BoundProperties.RenderRoundTrip` | kie-dmn/kie-dmn-validation/src/main/java/org/kie/dmn/validation/dtanalysis/model/Bound.java:111-117 | from the rendering of a bound and its role, the boundary kind and the value text are read back unchanged: `(`/`[` before the value for a lower bound, `)`/`]` after it for an upper bound |

## Left out

- The `Interval` class is not part of this model. Its parent identity becomes an optional number, and its NEG_INF/POS_INF singletons become value cases. Their own `compareTo` is not part of this model either: it is taken to put NEG_INF below and POS_INF above every other value and to give 0 against itself.
- The value type is generic (`V extends Comparable<V>`) in the code; the model uses real numbers plus the two infinities. Null values, and a value type whose `equals` disagrees with its `compareTo`, are not modelled. The model also fixes the magnitude of every comparison to 1, as BigDecimal's `compareTo` does. The code passes the value type's own `compareTo` result through unchanged, so another value type, such as String, can give other negative or positive numbers; the exact -1/+1 in `Compare`, `DifferentValuesDecide` and `InfinitiesOutsideFiniteBounds` reflects this choice.
- `Range.RangeBoundary` is a two-case datatype. The hash codes of a boundary kind and of a value, and the text of a value, come from code outside this model and are parameters of `HashCode` and `ToString`.
- `equals` against an object of another class (the `getClass` test) is not modelled; only a bound or null (`None`) is passed.
- A bound installed as neither end of its parent cannot be built: the role tag is fixed at construction. The code's fall-through from the role cases to the kind-only rule needs such a bound, so the model has no such path.
- `ToString` and the role tests require a parent: the code dereferences a null parent there.
- CompareAntisymmetric: excludes a bound compared with itself (same parent and role), where the code answers -1 or +1 in both argument orders, against the Comparable contract.
- AdOrOverIffNoGap: only in sweep order, and not for two bounds at the same infinity. When the left value is past the right value, the intervals overlap but the test is false (`StrictOverlapNotReported`). When both bounds sit at the same infinity, no number is uncovered, but both OPEN still gives false (`EqualInfinitiesBothOpenNotReported`). The code's comment says "overlapping or adjacent"; the code reports only a shared value that one side admits.
- TransitiveAcrossIntervals: only for bounds of pairwise different intervals with parents; the comparison is not transitive in general.
- The downstream sweep and gap/overlap analysis that consumes sorted bounds is not part of this model.
