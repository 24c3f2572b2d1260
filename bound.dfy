/** Endpoints ("bounds") of the one-dimensional intervals that the DMN
    decision-table analysis sweeps to find gaps and overlaps between rules:
    the sweep ordering, the touch-or-overlap test, equality, hashing and the
    diagnostic rendering of a bound. */
module Bounds {

  datatype Option<+T> = None | Some(value: T)

  /** Inclusive (CLOSED) or exclusive (OPEN) endpoint. */
  datatype BoundaryType = Open | Closed

  /** Which end of its parent interval a bound is. The role is fixed when the
      bound is installed in its interval, so a bound that is neither end of
      its parent cannot be built. */
  datatype Role = Lower | Upper

  /** An endpoint value: a finite number or one of the two infinity
      sentinels of the interval model. */
  datatype Value = NegInf | Finite(x: real) | PosInf

  /** One endpoint. `parent` identifies the owning interval (None when the
      bound was built without one); two bounds with the same parent and the
      same role are the same endpoint. */
  datatype Bound = Bound(value: Value, boundaryType: BoundaryType, parent: Option<nat>, role: Role)

  /** The order of the value axis, stated independently of the comparison
      code: NEG_INF below every other value, POS_INF above every other value,
      finite values by their number. */
  predicate ValueLess(v: Value, w: Value)
  {
    match (v, w)
    case (NegInf, _) => !w.NegInf?
    case (Finite(p), Finite(q)) => p < q
    case (Finite(_), _) => w.PosInf?
    case (PosInf, _) => false
  }

  /** -1, 0 or 1 as the number p is below, equal to or above q. */
  function CompareReals(p: real, q: real): (r: int)
    ensures r < 0 <==> p < q
    ensures r == 0 <==> p == q
    ensures r > 0 <==> q < p
  {
    if p < q then -1 else if q < p then 1 else 0
  }

  /** The value type's own compareTo, as called on `v`: a finite value
      compares only against finite values; a sentinel knows how to compare
      itself against anything (it is equal to itself only). */
  function NativeCompare(v: Value, w: Value): (r: int)
    requires v.Finite? ==> w.Finite?
    ensures r < 0 <==> ValueLess(v, w)
    ensures r == 0 <==> v == w
  {
    match v
    case NegInf => if w.NegInf? then 0 else -1
    case PosInf => if w.PosInf? then 0 else 1
    case Finite(p) => CompareReals(p, w.x)
  }

  /** Value comparison that never asks a finite value to compare itself
      against a sentinel: in that case the sentinel is asked and its answer
      negated. The result is the sign of the value-axis order. */
  function CompareValueDispatchingToInf(v: Value, w: Value): (r: int)
    ensures -1 <= r <= 1
    ensures r < 0 <==> ValueLess(v, w)
    ensures r == 0 <==> v == w
    ensures r > 0 <==> ValueLess(w, v)
  {
    if v.Finite? && !w.Finite? then 0 - NativeCompare(w, v)
    else NativeCompare(v, w)
  }

  /** The bound is the lower end of its parent. Calling it on a bound
      without a parent is a caller error (a null dereference). */
  predicate IsLowerBound(b: Bound)
    requires b.parent.Some?
    ensures IsLowerBound(b) != IsUpperBound(b)
  {
    b.role == Lower
  }

  /** The bound is the upper end of its parent (same precondition). A
      bound that is not its parent's lower end is its upper end. */
  predicate IsUpperBound(b: Bound)
    requires b.parent.Some?
    ensures IsUpperBound(b) <==> b.role != Lower
  {
    b.role == Upper
  }

  /** The two bounds are one and the same endpoint of one interval. */
  predicate SameEndpoint(a: Bound, b: Bound)
  {
    a.parent.Some? && a.parent == b.parent && a.role == b.role
  }

  /** The sweep comparison: negative when `a` is placed before `b`. */
  function Compare(a: Bound, b: Bound): (r: int)
    ensures -1 <= r <= 1
  {
    if a.parent == b.parent && a.parent.Some? && b.parent.Some? then
      // the two ends of one interval are never swapped
      if IsLowerBound(a) then -1 else 1
    else
      var valueCompare := CompareValueDispatchingToInf(a.value, b.value);
      if valueCompare != 0 then valueCompare
      else if a.parent.Some? && b.parent.Some? then
        if IsUpperBound(a) && IsLowerBound(b) then -1
        else if IsLowerBound(a) && IsUpperBound(b) then 1
        else if IsLowerBound(a) && IsLowerBound(b) then
          (if a.boundaryType == b.boundaryType then 0
           else if a.boundaryType == Open then 1
           else -1)
        else
          // both upper bounds; every bound has a role, so the source's
          // fall-through past the four role cases cannot happen here
          (if a.boundaryType == b.boundaryType then 0
           else if a.boundaryType == Open then -1
           else 1)
      else
        // a parent is missing: no role information, OPEN before CLOSED
        if a.boundaryType == b.boundaryType then 0
        else if a.boundaryType == Open then -1
        else 1
  }

  /** Left is overlapping or adjacent to right: the values are equal and
      not both sides exclude that value. */
  predicate AdOrOver(left: Bound, right: Bound)
    ensures AdOrOver(left, right) ==> left.value == right.value
    ensures AdOrOver(left, right) ==> left.boundaryType == Closed || right.boundaryType == Closed
  {
    var isValueEqual := left.value == right.value;
    var isBothOpen := left.boundaryType == Open && right.boundaryType == Open;
    isValueEqual && !isBothOpen
  }

  /** Bound equality against an arbitrary object, `None` standing for null:
      the value and the boundary kind decide, the parent does not. */
  predicate Equals(a: Bound, other: Option<Bound>)
    ensures Equals(a, other) ==> other.Some?
    ensures Equals(a, other) ==> other.value.value == a.value && other.value.boundaryType == a.boundaryType
  {
    match other
    case None => false
    case Some(b) => a.boundaryType == b.boundaryType && a.value == b.value
  }

  /** Java's 32-bit int. */
  newtype int32 = x: int | -0x8000_0000 <= x < 0x8000_0000

  const TwoTo32: int := 0x1_0000_0000

  /** Two's-complement wrap-around of a mathematical integer into 32 bits. */
  function WrapInt32(x: int): (r: int32)
    ensures (r as int - x) % TwoTo32 == 0
  {
    var m := x % TwoTo32;
    if m < 0x8000_0000 then m as int32 else (m - TwoTo32) as int32
  }

  /** The hash code with prime 31 over (boundary kind, value), in 32-bit
      arithmetic. The hash codes of the boundary kind and of the value come
      from code outside this model and are parameters. The result is
      31*31 + 31*h(kind) + h(value) modulo 2^32. */
  function HashCode(b: Bound, kindHash: BoundaryType -> int32, valueHash: Value -> int32): (h: int32)
    ensures (h as int - (961 + 31 * kindHash(b.boundaryType) as int + valueHash(b.value) as int)) % TwoTo32 == 0
  {
    var prime := 31;
    var result := WrapInt32(prime * 1 + kindHash(b.boundaryType) as int);
    WrapInt32(prime * result as int + valueHash(b.value) as int)
  }

  /** Diagnostic text: a lower bound as `(` or `[` then the value, any other
      bound as the value then `)` or `]`. The text of a value comes from code
      outside this model and is a parameter. Needs a parent, as the role test
      does. */
  function ToString(b: Bound, show: Value -> string): (s: string)
    requires b.parent.Some?
    ensures |s| == |show(b.value)| + 1
  {
    if IsLowerBound(b) then
      (if b.boundaryType == Open then "(" else "[") + show(b.value)
    else
      show(b.value) + (if b.boundaryType == Open then ")" else "]")
  }
}
