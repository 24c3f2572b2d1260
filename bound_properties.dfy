/** What the sweep comparison, the touch-or-overlap test, equality, hashing
    and rendering of bounds guarantee, and what they do not. */
module BoundProperties {
  import opened Bounds

  // ---------------------------------------------------------------------
  // Sweep ordering
  // ---------------------------------------------------------------------

  /** The two ends of one interval: lower first, whatever their values. */
  lemma SameIntervalNeverSwapped(a: Bound, b: Bound)
    requires a.parent.Some? && a.parent == b.parent
    ensures a.role == Lower ==> Compare(a, b) == -1
    ensures a.role == Upper ==> Compare(a, b) == 1
  {
  }

  /** The lower end of an interval sorts before its upper end even for a
      point interval and even when the lower value exceeds the upper one. */
  lemma IntervalEndsKeepTheirOrder(id: nat, lo: Value, loKind: BoundaryType, hi: Value, hiKind: BoundaryType)
    ensures var lower, upper := Bound(lo, loKind, Some(id), Lower), Bound(hi, hiKind, Some(id), Upper);
      Compare(lower, upper) == -1 && Compare(upper, lower) == 1
  {
  }

  /** Outside one interval, differing values decide by the value axis alone;
      roles, kinds and parents play no part. */
  lemma DifferentValuesDecide(a: Bound, b: Bound)
    requires !(a.parent.Some? && a.parent == b.parent)
    requires a.value != b.value
    ensures Compare(a, b) == -1 <==> ValueLess(a.value, b.value)
    ensures Compare(a, b) == 1 <==> ValueLess(b.value, a.value)
  {
  }

  /** A NEG_INF bound is below and a POS_INF bound above every finite bound
      of another interval, whatever the boundary kinds and roles. */
  lemma InfinitiesOutsideFiniteBounds(inf: Bound, fin: Bound)
    requires !(inf.parent.Some? && inf.parent == fin.parent)
    requires fin.value.Finite? && !inf.value.Finite?
    ensures inf.value == NegInf ==> Compare(inf, fin) == -1 && Compare(fin, inf) == 1
    ensures inf.value == PosInf ==> Compare(inf, fin) == 1 && Compare(fin, inf) == -1
  {
  }

  /** At one value, a bound that closes an interval comes before a bound
      that opens another one. */
  lemma EqualValueUpperBeforeLower(u: Bound, l: Bound)
    requires u.parent.Some? && l.parent.Some? && u.parent != l.parent
    requires u.value == l.value && u.role == Upper && l.role == Lower
    ensures Compare(u, l) == -1 && Compare(l, u) == 1
  {
  }

  /** At one value, two lower bounds of different intervals tie when their
      kinds agree; otherwise the CLOSED one comes first. */
  lemma EqualValueLowerTieBreak(a: Bound, b: Bound)
    requires a.parent.Some? && b.parent.Some? && a.parent != b.parent
    requires a.value == b.value && a.role == Lower && b.role == Lower
    ensures Compare(a, b) == 0 <==> a.boundaryType == b.boundaryType
    ensures Compare(a, b) == -1 <==> a.boundaryType == Closed && b.boundaryType == Open
    ensures Compare(a, b) == 1 <==> a.boundaryType == Open && b.boundaryType == Closed
  {
  }

  /** At one value, two upper bounds of different intervals tie when their
      kinds agree; otherwise the OPEN one comes first. */
  lemma EqualValueUpperTieBreak(a: Bound, b: Bound)
    requires a.parent.Some? && b.parent.Some? && a.parent != b.parent
    requires a.value == b.value && a.role == Upper && b.role == Upper
    ensures Compare(a, b) == 0 <==> a.boundaryType == b.boundaryType
    ensures Compare(a, b) == -1 <==> a.boundaryType == Open && b.boundaryType == Closed
    ensures Compare(a, b) == 1 <==> a.boundaryType == Closed && b.boundaryType == Open
  {
  }

  /** At one value with a parent missing, roles are unknown and the kind
      alone decides: OPEN before CLOSED. */
  lemma MissingParentFallback(a: Bound, b: Bound)
    requires a.parent.None? || b.parent.None?
    requires a.value == b.value
    ensures Compare(a, b) == 0 <==> a.boundaryType == b.boundaryType
    ensures Compare(a, b) == -1 <==> a.boundaryType == Open && b.boundaryType == Closed
    ensures Compare(a, b) == 1 <==> a.boundaryType == Closed && b.boundaryType == Open
  {
  }

  /** Swapping the arguments negates the answer, as the Comparable contract
      asks, for any two bounds that are not one and the same endpoint. */
  lemma CompareAntisymmetric(a: Bound, b: Bound)
    requires !SameEndpoint(a, b)
    ensures Compare(a, b) == -Compare(b, a)
  {
  }

  /** A tie in the sweep order only happens between equal bounds. */
  lemma CompareZeroImpliesEquals(a: Bound, b: Bound)
    ensures Compare(a, b) == 0 ==> Equals(a, Some(b))
  {
  }

  /** Position of a bound among bounds of other intervals at the same value:
      closing OPEN, closing CLOSED, opening CLOSED, opening OPEN. */
  function TieRank(b: Bound): (k: nat)
    ensures k <= 3
    ensures (k < 2) <==> b.role == Upper
  {
    match (b.role, b.boundaryType)
    case (Upper, Open) => 0
    case (Upper, Closed) => 1
    case (Lower, Closed) => 2
    case (Lower, Open) => 3
  }

  /** The sweep key order: the value axis first, then `TieRank`. */
  function SweepKeyCompare(a: Bound, b: Bound): (r: int)
  {
    if ValueLess(a.value, b.value) then -1
    else if ValueLess(b.value, a.value) then 1
    else if TieRank(a) < TieRank(b) then -1
    else if TieRank(b) < TieRank(a) then 1
    else 0
  }

  /** Between bounds of two different intervals the comparison is exactly
      the lexicographic order on (value, `TieRank`). */
  lemma CompareAcrossIntervals(a: Bound, b: Bound)
    requires a.parent.Some? && b.parent.Some? && a.parent != b.parent
    ensures Compare(a, b) == SweepKeyCompare(a, b)
  {
  }

  /** Restricted to bounds of pairwise different intervals the comparison is
      transitive, both for "not after" and for "strictly before". */
  lemma TransitiveAcrossIntervals(a: Bound, b: Bound, c: Bound)
    requires a.parent.Some? && b.parent.Some? && c.parent.Some?
    requires a.parent != b.parent && b.parent != c.parent && a.parent != c.parent
    requires Compare(a, b) <= 0 && Compare(b, c) <= 0
    ensures Compare(a, c) <= 0
    ensures Compare(a, b) < 0 || Compare(b, c) < 0 ==> Compare(a, c) < 0
  {
  }

  /** Not reflexive: a bound with a parent is never equal to itself in the
      sweep order. */
  lemma SelfComparisonIsNotZero(b: Bound)
    requires b.parent.Some?
    ensures Compare(b, b) == (if b.role == Lower then -1 else 1)
  {
  }

  /** Not transitive once both ends of one interval take part: with the
      point interval [5,5] and the interval [5,10], the lower end of [5,5]
      ties with the lower end of [5,10], which sorts after the upper end of
      [5,5], which sorts after the lower end of [5,5]. */
  lemma PointIntervalBreaksTransitivity()
    ensures var pointLower := Bound(Finite(5.0), Closed, Some(0), Lower);
      var pointUpper := Bound(Finite(5.0), Closed, Some(0), Upper);
      var otherLower := Bound(Finite(5.0), Closed, Some(1), Lower);
      Compare(pointLower, pointUpper) == -1
      && Compare(pointUpper, otherLower) == -1
      && Compare(otherLower, pointLower) == 0
  {
  }

  /** Equal bounds can still be ordered apart: equality ignores the role,
      the comparison does not. */
  lemma EqualBoundsOrderedApart()
    ensures var upper := Bound(Finite(5.0), Closed, Some(0), Upper);
      var lower := Bound(Finite(5.0), Closed, Some(1), Lower);
      Equals(upper, Some(lower)) && Compare(upper, lower) == -1
  {
  }

  // ---------------------------------------------------------------------
  // Touch-or-overlap test
  // ---------------------------------------------------------------------

  /** The number x lies in an interval that ends at `upper`. */
  ghost predicate AdmittedBelow(upper: Bound, x: real)
  {
    ValueLess(Finite(x), upper.value) || (upper.value == Finite(x) && upper.boundaryType == Closed)
  }

  /** The number x lies in an interval that starts at `lower`. */
  ghost predicate AdmittedAbove(lower: Bound, x: real)
  {
    ValueLess(lower.value, Finite(x)) || (lower.value == Finite(x) && lower.boundaryType == Closed)
  }

  /** An interval ending at `left` and one starting at `right` leave no
      number uncovered. */
  ghost predicate NoGapBetween(left: Bound, right: Bound)
  {
    forall x: real :: AdmittedBelow(left, x) || AdmittedAbove(right, x)
  }

  /** Differing values never touch; equal values touch unless both sides
      are OPEN. */
  lemma AdOrOverCases(left: Bound, right: Bound)
    ensures left.value != right.value ==> !AdOrOver(left, right)
    ensures left.value == right.value ==>
      (AdOrOver(left, right) <==> left.boundaryType == Closed || right.boundaryType == Closed)
  {
  }

  /** In sweep order (left's value not past right's), the test holds exactly
      when an interval ending at `left` and one starting at `right` leave no
      number between them uncovered. A pair of equal infinite values is
      excluded: no number lies at infinity. */
  lemma AdOrOverIffNoGap(left: Bound, right: Bound)
    requires !ValueLess(right.value, left.value)
    requires left.value != right.value || left.value.Finite?
    ensures AdOrOver(left, right) <==> NoGapBetween(left, right)
  {
    if AdOrOver(left, right) {
      forall x: real ensures AdmittedBelow(left, x) || AdmittedAbove(right, x) {
        var v := left.value.x;
        if x < v {
          assert AdmittedBelow(left, x);
        } else if v < x {
          assert AdmittedAbove(right, x);
        }
      }
    } else {
      var gap: real;
      if left.value == right.value {
        gap := left.value.x;
      } else {
        match (left.value, right.value)
        case (Finite(p), Finite(q)) => gap := (p + q) / 2.0;
        case (NegInf, Finite(q)) => gap := q - 1.0;
        case (Finite(p), PosInf) => gap := p + 1.0;
        case (NegInf, PosInf) => gap := 0.0;
        case (_, _) => assert false;
      }
      assert !AdmittedBelow(left, gap) && !AdmittedAbove(right, gap);
    }
  }

  /** Bounds whose values strictly overlap (left's value past right's) are
      not reported by the test: only the shared-value case is. */
  lemma StrictOverlapNotReported(left: Bound, right: Bound)
    requires ValueLess(right.value, left.value)
    ensures !AdOrOver(left, right)
    ensures NoGapBetween(left, right)
  {
  }

  /** Two bounds at the same infinity leave no number uncovered, yet the
      test still answers by the boundary kinds: both OPEN gives false. */
  lemma EqualInfinitiesBothOpenNotReported(left: Bound, right: Bound)
    requires left.value == right.value && !left.value.Finite?
    ensures NoGapBetween(left, right)
    ensures AdOrOver(left, right) <==> !(left.boundaryType == Open && right.boundaryType == Open)
  {
  }

  /** The four touching scenarios of the sweep: [1,5] then [5,10] touch,
      (1,5) then [5,10] touch, (1,5) then (5,10) leave 5 uncovered, and
      [1,5] then [6,10] do not touch. */
  lemma AdjacencyScenarios()
    ensures AdOrOver(Bound(Finite(5.0), Closed, Some(0), Upper), Bound(Finite(5.0), Closed, Some(1), Lower))
    ensures AdOrOver(Bound(Finite(5.0), Open, Some(0), Upper), Bound(Finite(5.0), Closed, Some(1), Lower))
    ensures !AdOrOver(Bound(Finite(5.0), Open, Some(0), Upper), Bound(Finite(5.0), Open, Some(1), Lower))
    ensures !AdOrOver(Bound(Finite(5.0), Closed, Some(0), Upper), Bound(Finite(6.0), Closed, Some(1), Lower))
  {
  }

  // ---------------------------------------------------------------------
  // Equality and hash code
  // ---------------------------------------------------------------------

  /** Equality is an equivalence relation on bounds and never holds against
      null. */
  lemma EqualsIsEquivalence(a: Bound, b: Bound, c: Bound)
    ensures Equals(a, Some(a))
    ensures Equals(a, Some(b)) ==> Equals(b, Some(a))
    ensures Equals(a, Some(b)) && Equals(b, Some(c)) ==> Equals(a, Some(c))
    ensures !Equals(a, None)
  {
  }

  /** Equality looks only at (value, boundary kind): moving either bound to
      another parent or role does not change the answer. */
  lemma EqualsIgnoresParentAndRole(a: Bound, b: Bound, p: Option<nat>, q: Option<nat>, r: Role, s: Role)
    ensures Equals(a, Some(b)) == Equals(a.(parent := p, role := r), Some(b.(parent := q, role := s)))
    ensures Equals(a, Some(b)) <==> (a.value, a.boundaryType) == (b.value, b.boundaryType)
  {
  }

  /** Equal bounds have equal hash codes. */
  lemma EqualBoundsHashEqual(a: Bound, b: Bound, kindHash: BoundaryType -> int32, valueHash: Value -> int32)
    requires Equals(a, Some(b))
    ensures HashCode(a, kindHash, valueHash) == HashCode(b, kindHash, valueHash)
  {
  }

  // ---------------------------------------------------------------------
  // Rendering
  // ---------------------------------------------------------------------

  /** Reads a rendered bound of the given role back into its boundary kind
      and value text; None when the text has no bracket at the expected end. */
  function ParseRendered(s: string, role: Role): (parsed: Option<(BoundaryType, string)>)
  {
    if |s| == 0 then None
    else if role == Lower then
      if s[0] == '(' then Some((Open, s[1..]))
      else if s[0] == '[' then Some((Closed, s[1..]))
      else None
    else
      if s[|s| - 1] == ')' then Some((Open, s[..|s| - 1]))
      else if s[|s| - 1] == ']' then Some((Closed, s[..|s| - 1]))
      else None
  }

  /** The rendering keeps the boundary kind and the value text apart: both
      are read back from it. */
  lemma RenderRoundTrip(b: Bound, show: Value -> string)
    requires b.parent.Some?
    ensures ParseRendered(ToString(b, show), b.role) == Some((b.boundaryType, show(b.value)))
  {
  }
}
