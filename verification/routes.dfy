/** The `Route` value of the solver: a walk through the locations plus its duration.

    The source overloads `+` (concatenation) and `<`/`>` (comparison by duration); here they are
    named functions returning a `Result`, whose `Failure` stands for the exception the source
    raises. `+` in the source extends the left operand in place and returns it; every caller
    discards the left operand afterwards, so a fresh value models it. */
module Routes {
  import opened Wrappers
  import opened Seqs
  import opened Durations

  datatype Route = Route(points: seq<nat>, duration: int)

  datatype RouteError =
    | EmptyPoints       // `points[-1]` or `points[0]` on an empty list: Python's IndexError
    | EndpointMismatch  // RouteOperationNotPermittedError: end and start point differ
    | LengthMismatch    // RouteOperationNotPermittedError: routes of different length compared

  /** `left + right`: defined when `left` ends where `right` starts; the shared point is kept once
      and the durations add up. */
  function Concat(left: Route, right: Route): (r: Result<Route, RouteError>)
    ensures r.Success? <==> |left.points| > 0 && |right.points| > 0 && Last(left.points) == right.points[0]
    ensures r.Failure? && |left.points| > 0 && |right.points| > 0 ==> r.error == EndpointMismatch
    ensures r.Success? ==> && r.value.points == left.points + right.points[1..]
                           && r.value.duration == left.duration + right.duration
                           && |r.value.points| == |left.points| + |right.points| - 1
  {
    if |left.points| == 0 || |right.points| == 0 then Failure(EmptyPoints)
    else if Last(left.points) != right.points[0] then Failure(EndpointMismatch)
    else Success(Route(left.points + right.points[1..], left.duration + right.duration))
  }

  /** `a > b`: only routes with equally many points are comparable; then the durations decide. */
  function Greater(a: Route, b: Route): (r: Result<bool, RouteError>)
    ensures r.Failure? <==> |a.points| != |b.points|
    ensures r.Failure? ==> r.error == LengthMismatch
    ensures r.Success? ==> (r.value <==> a.duration > b.duration)
  {
    if |a.points| != |b.points| then Failure(LengthMismatch)
    else Success(a.duration > b.duration)
  }

  /** `a < b`, with the same comparability condition as `Greater`. */
  function Less(a: Route, b: Route): (r: Result<bool, RouteError>)
    ensures r.Failure? <==> |a.points| != |b.points|
    ensures r.Failure? ==> r.error == LengthMismatch
    ensures r.Success? ==> (r.value <==> a.duration < b.duration)
  {
    if |a.points| != |b.points| then Failure(LengthMismatch)
    else Success(a.duration < b.duration)
  }

  /** `a < b` and `b > a` agree, failures included. */
  lemma LessIsFlippedGreater(a: Route, b: Route)
    ensures Less(a, b) == Greater(b, a)
  {
  }

  /** Among comparable routes `<` is a strict order: irreflexive, asymmetric and transitive. */
  lemma LessIsStrictOrder(a: Route, b: Route, c: Route)
    requires |a.points| == |b.points| == |c.points|
    ensures Less(a, a) == Success(false)
    ensures Less(a, b) == Success(true) ==> Less(b, a) == Success(false)
    ensures Less(a, b) == Success(true) && Less(b, c) == Success(true) ==> Less(a, c) == Success(true)
  {
  }

  /** Concatenation is associative whenever both groupings are defined. */
  lemma ConcatAssociative(a: Route, b: Route, c: Route)
    requires Concat(a, b).Success? && Concat(b, c).Success?
    ensures Concat(Concat(a, b).value, c).Success?
    ensures Concat(a, Concat(b, c).value).Success?
    ensures Concat(Concat(a, b).value, c) == Concat(a, Concat(b, c).value)
  {
    var ab := Concat(a, b).value;
    var bc := Concat(b, c).value;
    assert Last(ab.points) == Last(b.points);
    assert a.points + b.points[1..] + c.points[1..] == a.points + (b.points + c.points[1..])[1..];
  }

  /** A route whose duration is the cost of its points in `m` is "consistent" with `m`. */
  ghost predicate Consistent(m: Matrix, r: Route) {
    Walkable(m, r.points) && r.duration == PathCost(m, r.points)
  }

  /** Concatenating two routes consistent with the same matrix gives a consistent route: the
      summed duration is again the cost of the joined walk. */
  lemma ConcatKeepsConsistent(m: Matrix, left: Route, right: Route)
    requires Consistent(m, left) && Consistent(m, right)
    requires Concat(left, right).Success?
    ensures Consistent(m, Concat(left, right).value)
  {
    PathCostConcat(m, left.points, right.points);
  }
}
