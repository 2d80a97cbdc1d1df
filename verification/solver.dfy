/** `TSPSolver` of lib/solveTSP.py: an exhaustive recursive search (the Held-Karp recurrence,
    without a memo table) for the quickest walk that leaves location 0 and visits every other
    location once, either returning to 0 (closed tour) or stopping anywhere (open tour).

    The source keeps the locations still to visit in a Python `set` and iterates it in the set's
    own order. Here that set is a sequence of distinct indices iterated front to back; the top
    level starts from `1, 2, ..., N - 1`, the order CPython uses for small integers. Ties are
    decided by this order: the comparison is strict, so the earlier candidate is kept. */
module TspSolver {
  import opened Wrappers
  import opened Seqs
  import opened Durations
  import opened Routes

  /** What `get_shortest_route(through, end)` is called with: `through` is a set of non-start
      locations, `end` is a location outside it, and the call never asks for the missing diagonal
      cell (a bare `end == 0` with nothing in between would read `m[0][0]`). */
  ghost predicate ValidThrough(m: Matrix, through: seq<nat>, end: nat) {
    && end < |m|
    && Distinct(through)
    && end !in through
    && (forall k :: 0 <= k < |through| ==> 0 < through[k] < |m|)
    && (|through| > 0 || end != 0)
  }

  /** `p` starts at 0, ends at `end`, and in between visits `through` in some order, each once. */
  ghost predicate IsPathThrough(p: seq<nat>, through: seq<nat>, end: nat) {
    && |p| == |through| + 2
    && p[0] == 0
    && p[|p| - 1] == end
    && multiset(p[1..|p| - 1]) == multiset(through)
  }

  /** Candidates with equally many points, so that `<` between any two of them is defined. */
  ghost predicate SameLength(rs: seq<Route>) {
    forall k :: 0 <= k < |rs| ==> |rs[k].points| == |rs[0].points|
  }

  /** The `shortest_route` loop shared by `solve` and `get_shortest_route`: walk the candidates in
      order and replace the current best only when a candidate is strictly quicker. `None` when
      there is no candidate. Which candidate it keeps is stated by `ShortestOfIndex`. */
  function ShortestOf(rs: seq<Route>): (r: Option<Route>)
    requires SameLength(rs)
    ensures r.None? <==> |rs| == 0
    ensures r.Some? ==> r.value in rs
  {
    if |rs| == 0 then None
    else
      var best := ShortestOf(rs[..|rs| - 1]);
      var route := rs[|rs| - 1];
      if best.None? then Some(route)
      else if Less(route, best.value).value then Some(route)
      else best
  }

  /** `get_shortest_route(through, end)`: the quickest walk from 0 through `through` to `end`. */
  function ShortestRoute(m: Matrix, through: seq<nat>, end: nat): (r: Route)
    requires IsDurationMatrix(m) && ValidThrough(m, through, end)
    ensures IsPathThrough(r.points, through, end)
    ensures Consistent(m, r)
    decreases |through|, 2
  {
    if |through| == 0 then
      OffDiagonalHasEdge(m, 0, end);
      Route([0, end], Edge(m, 0, end))
    else
      ShortestOf(Extensions(m, through, end)).value
  }

  /** The candidates of the loop in `get_shortest_route`, in iteration order. */
  function Extensions(m: Matrix, through: seq<nat>, end: nat): (rs: seq<Route>)
    requires IsDurationMatrix(m) && ValidThrough(m, through, end)
    ensures |rs| == |through|
    ensures forall i :: 0 <= i < |rs| ==> IsPathThrough(rs[i].points, through, end) && Consistent(m, rs[i])
    decreases |through|, 1
  {
    seq(|through|, i requires 0 <= i < |through| => Extension(m, through, end, i))
  }

  lemma ExtensionsAt(m: Matrix, through: seq<nat>, end: nat, i: nat)
    requires IsDurationMatrix(m) && ValidThrough(m, through, end) && i < |through|
    ensures Extensions(m, through, end)[i] == Extension(m, through, end, i)
  {
  }

  /** One candidate: the quickest walk to `through[i]` over the other points, followed by the
      edge from `through[i]` to `end`. */
  function Extension(m: Matrix, through: seq<nat>, end: nat, i: nat): (r: Route)
    requires IsDurationMatrix(m) && ValidThrough(m, through, end)
    requires i < |through|
    ensures IsPathThrough(r.points, through, end)
    ensures Consistent(m, r)
    decreases |through|, 0
  {
    var point := through[i];
    var rest := RemoveAt(through, i);
    RemoveKeepsValid(m, through, end, i);
    var head := ShortestRoute(m, rest, point);
    OffDiagonalHasEdge(m, point, end);
    var last := Route([point, end], Edge(m, point, end));
    ConcatKeepsConsistent(m, head, last);
    ExtendedPathThrough(head.points, through, end, i);
    Concat(head, last).value
  }

  /** A candidate is the quickest walk to its last stop joined with the final edge. */
  lemma ExtensionJoins(m: Matrix, through: seq<nat>, end: nat, i: nat)
    requires IsDurationMatrix(m) && ValidThrough(m, through, end)
    requires i < |through|
    ensures ValidThrough(m, RemoveAt(through, i), through[i])
    ensures HasEdge(m, through[i], end)
    ensures Concat(ShortestRoute(m, RemoveAt(through, i), through[i]),
                   Route([through[i], end], Edge(m, through[i], end))).Success?
    ensures Extension(m, through, end, i)
            == Concat(ShortestRoute(m, RemoveAt(through, i), through[i]),
                      Route([through[i], end], Edge(m, through[i], end))).value
  {
    RemoveKeepsValid(m, through, end, i);
    OffDiagonalHasEdge(m, through[i], end);
  }

  /** A candidate costs the quickest walk to its last stop plus the final edge. */
  lemma ExtensionDuration(m: Matrix, through: seq<nat>, end: nat, i: nat)
    requires IsDurationMatrix(m) && ValidThrough(m, through, end)
    requires i < |through|
    ensures ValidThrough(m, RemoveAt(through, i), through[i])
    ensures HasEdge(m, through[i], end)
    ensures Extension(m, through, end, i).duration
            == ShortestRoute(m, RemoveAt(through, i), through[i]).duration + Edge(m, through[i], end)
  {
    RemoveKeepsValid(m, through, end, i);
    OffDiagonalHasEdge(m, through[i], end);
  }

  /** Appending `end` to a walk through all of `through` but `through[i]`, ending at
      `through[i]`, gives a walk through all of `through` ending at `end`. */
  lemma ExtendedPathThrough(p: seq<nat>, through: seq<nat>, end: nat, i: nat)
    requires i < |through|
    requires IsPathThrough(p, RemoveAt(through, i), through[i])
    ensures IsPathThrough(p + [end], through, end)
  {
    var q := p + [end];
    assert q[1..|q| - 1] == p[1..|p| - 1] + [through[i]];
  }

  /** The sub-call of an extension is again a valid `get_shortest_route` call. */
  lemma RemoveKeepsValid(m: Matrix, through: seq<nat>, end: nat, i: nat)
    requires IsDurationMatrix(m) && ValidThrough(m, through, end)
    requires i < |through|
    ensures ValidThrough(m, RemoveAt(through, i), through[i])
  {
    var rest := RemoveAt(through, i);
    forall a, b | 0 <= a < b < |rest| ensures rest[a] != rest[b] {
      var a' := if a < i then a else a + 1;
      var b' := if b < i then b else b + 1;
      assert rest[a] == through[a'] && rest[b] == through[b'];
    }
    forall k | 0 <= k < |rest| ensures rest[k] != through[i] {
      var k' := if k < i then k else k + 1;
      assert rest[k] == through[k'];
    }
  }

  /** `range(1, N)`, the set `through` that `solve` starts from. */
  function Others(n: nat): (s: seq<nat>)
    ensures |s| == if n == 0 then 0 else n - 1
    ensures forall k :: 0 <= k < |s| ==> s[k] == k + 1
  {
    if n == 0 then [] else seq(n - 1, k => k + 1)
  }

  /** The candidates of the open-tour loop in `solve`: one quickest walk per final location. */
  function Endings(m: Matrix): (rs: seq<Route>)
    requires IsDurationMatrix(m)
    ensures |rs| == |m| - 1
    ensures forall i :: 0 <= i < |rs| ==> |rs[i].points| == |m|
  {
    var through := Others(|m|);
    seq(|through|, i requires 0 <= i < |through| => EndingValid(m, i); ShortestRoute(m, RemoveAt(through, i), through[i]))
  }

  /** The open-tour candidate at position `i` is the quickest walk ending at `i + 1`. */
  lemma EndingAt(m: Matrix, i: nat)
    requires IsDurationMatrix(m) && i < |m| - 1
    ensures ValidThrough(m, RemoveAt(Others(|m|), i), i + 1)
    ensures Endings(m)[i] == ShortestRoute(m, RemoveAt(Others(|m|), i), i + 1)
  {
    EndingValid(m, i);
  }

  lemma EndingValid(m: Matrix, i: nat)
    requires IsDurationMatrix(m) && i < |m| - 1
    ensures ValidThrough(m, RemoveAt(Others(|m|), i), i + 1)
  {
    OthersValid(m);
    RemoveKeepsValid(m, Others(|m|), 0, i);
  }

  lemma OthersValid(m: Matrix)
    requires IsDurationMatrix(m)
    ensures ValidThrough(m, Others(|m|), 0)
  {
  }

  /** A closed tour: leaves 0, visits each of `1..N-1` once, and comes back to 0. */
  ghost predicate IsClosedTour(n: nat, p: seq<nat>) {
    n >= 1 && |p| == n + 1 && p[0] == 0 && p[n] == 0 && multiset(p[1..n]) == multiset(Others(n))
  }

  /** An open tour: leaves 0 and visits each of `1..N-1` once, ending away from 0. */
  ghost predicate IsOpenTour(n: nat, p: seq<nat>) {
    |p| == n && n >= 1 && p[0] == 0 && p[n - 1] != 0 && multiset(p[1..]) == multiset(Others(n))
  }

  /** `TSPSolver.solve(duration_matrix, no_return)`. */
  function Solve(m: Matrix, noReturn: bool): (r: Route)
    requires IsDurationMatrix(m)
    ensures noReturn ==> IsOpenTour(|m|, r.points)
    ensures !noReturn ==> IsClosedTour(|m|, r.points)
    ensures Consistent(m, r)
  {
    if noReturn then OpenTour(m) else ClosedTour(m)
  }

  /** The `no_return` branch of `solve`: the first quickest of the open-tour candidates. */
  function OpenTour(m: Matrix): (r: Route)
    requires IsDurationMatrix(m)
    ensures IsOpenTour(|m|, r.points)
    ensures Consistent(m, r)
  {
    OpenTourShape(m);
    ShortestOf(Endings(m)).value
  }

  /** The round-trip branch of `solve`: the quickest walk through every other location back to 0. */
  function ClosedTour(m: Matrix): (r: Route)
    requires IsDurationMatrix(m)
    ensures IsClosedTour(|m|, r.points)
    ensures Consistent(m, r)
  {
    ClosedTourShape(m);
    ShortestRoute(m, Others(|m|), 0)
  }

  lemma ClosedTourShape(m: Matrix)
    requires IsDurationMatrix(m)
    ensures ValidThrough(m, Others(|m|), 0)
    ensures IsClosedTour(|m|, ShortestRoute(m, Others(|m|), 0).points)
  {
    OthersValid(m);
    var p := ShortestRoute(m, Others(|m|), 0).points;
    assert p[1..|m|] == p[1..|p| - 1];
  }

  lemma OpenTourShape(m: Matrix)
    requires IsDurationMatrix(m)
    ensures IsOpenTour(|m|, ShortestOf(Endings(m)).value.points)
    ensures Consistent(m, ShortestOf(Endings(m)).value)
  {
    var i := ShortestOfIndex(Endings(m));
    EndingAt(m, i);
    EndingIsOpenTour(|m|, Endings(m)[i].points, i);
  }

  /** A walk through every other location that ends at `i + 1` is an open tour. */
  lemma EndingIsOpenTour(n: nat, p: seq<nat>, i: nat)
    requires n >= 1 && i < n - 1
    requires IsPathThrough(p, RemoveAt(Others(n), i), i + 1)
    ensures IsOpenTour(n, p)
  {
    assert p[1..] == p[1..|p| - 1] + [i + 1];
  }

  /** Every walk through `through` is made of populated cells, so its cost is defined: the
      middle points are distinct, none of them is 0 or `end`. */
  lemma PathThroughIsWalkable(m: Matrix, p: seq<nat>, through: seq<nat>, end: nat)
    requires IsDurationMatrix(m) && ValidThrough(m, through, end)
    requires IsPathThrough(p, through, end)
    ensures Walkable(m, p)
  {
    var mid := p[1..|p| - 1];
    DistinctIffSingleCounts(through);
    DistinctIffSingleCounts(mid);
    assert Distinct(mid);
    forall k | 0 <= k < |mid| ensures 0 < mid[k] < |m| && mid[k] != end {
      assert mid[k] in multiset(through);
    }
    forall k | 0 <= k < |p| - 1 ensures HasEdge(m, p[k], p[k + 1]) {
      if 1 <= k && k + 1 < |p| - 1 {
        assert p[k] == mid[k - 1] && p[k + 1] == mid[k];
      } else if 1 <= k {
        assert p[k] == mid[k - 1];
      } else if |mid| > 0 {
        assert p[k + 1] == mid[0];
      }
      OffDiagonalHasEdge(m, p[k], p[k + 1]);
    }
  }

  /** `get_shortest_route` is exact: no walk from 0 through `through` to `end`, in any order,
      is quicker than the one it returns. */
  lemma {:induction false} ShortestRouteIsOptimal(m: Matrix, through: seq<nat>, end: nat, p: seq<nat>)
    requires IsDurationMatrix(m) && ValidThrough(m, through, end)
    requires IsPathThrough(p, through, end)
    ensures Walkable(m, p)
    ensures ShortestRoute(m, through, end).duration <= PathCost(m, p)
    decreases |through|
  {
    PathThroughIsWalkable(m, p, through, end);
    if |through| == 0 {
      assert p == [0, end];
    } else {
      var i := LastStop(p, through, end);
      var rest := RemoveAt(through, i);
      RemoveKeepsValid(m, through, end, i);
      ShortestRouteIsOptimal(m, rest, through[i], p[..|p| - 1]);
      ExtensionDuration(m, through, end, i);
      var best := ShortestRouteKeepsFirstQuickest(m, through, end);
    }
  }

  /** A walk through non-empty `through` reaches `end` from some `through[i]`, after a walk
      through the rest of `through` to `through[i]`. */
  lemma LastStop(p: seq<nat>, through: seq<nat>, end: nat) returns (i: nat)
    requires IsPathThrough(p, through, end) && |through| > 0
    ensures i < |through| && p[|p| - 2] == through[i]
    ensures IsPathThrough(p[..|p| - 1], RemoveAt(through, i), through[i])
  {
    var point := p[|p| - 2];
    var q := p[..|p| - 1];
    assert p[1..|p| - 1] == q[1..|q| - 1] + [point];
    assert point in multiset(through);
    i := IndexOf(through, point);
    CancelLast(q[1..|q| - 1], RemoveAt(through, i), point, multiset(through));
  }

  lemma CancelLast(a: seq<nat>, b: seq<nat>, x: nat, whole: multiset<nat>)
    requires multiset(a + [x]) == whole && multiset(b) + multiset{x} == whole
    ensures multiset(a) == multiset(b)
  {
    assert multiset(a + [x]) == multiset(a) + multiset{x};
    assert multiset(a) == whole - multiset{x};
  }

  /** The loop keeps the first of the quickest candidates: no candidate is quicker, and every
      candidate before it is strictly slower. */
  lemma {:induction false} ShortestOfIndex(rs: seq<Route>) returns (i: nat)
    requires |rs| > 0 && SameLength(rs)
    ensures i < |rs| && ShortestOf(rs) == Some(rs[i])
    ensures forall j :: 0 <= j < i ==> rs[j].duration > rs[i].duration
    ensures forall j :: 0 <= j < |rs| ==> rs[i].duration <= rs[j].duration
    decreases |rs|
  {
    var n := |rs|;
    var pre := rs[..n - 1];
    if n == 1 {
      i := 0;
    } else {
      var b := ShortestOfIndex(pre);
      assert pre[b] == rs[b];
      if rs[n - 1].duration < rs[b].duration {
        i := n - 1;
      } else {
        i := b;
      }
    }
  }

  lemma ShortestRouteKeepsFirstQuickest(m: Matrix, through: seq<nat>, end: nat) returns (i: nat)
    requires IsDurationMatrix(m) && ValidThrough(m, through, end) && |through| > 0
    ensures i < |through| && ShortestRoute(m, through, end) == Extension(m, through, end, i)
    ensures forall j :: 0 <= j < i ==> Extension(m, through, end, j).duration > ShortestRoute(m, through, end).duration
    ensures forall j :: 0 <= j < |through| ==> ShortestRoute(m, through, end).duration <= Extension(m, through, end, j).duration
  {
    var rs := Extensions(m, through, end);
    i := ShortestOfIndex(rs);
    forall j | 0 <= j < |through| ensures rs[j] == Extension(m, through, end, j) {
      ExtensionsAt(m, through, end, j);
    }
  }

  /** With nothing left in between, the route is the single edge from 0 to `end`. */
  lemma ShortestRouteDirect(m: Matrix, end: nat)
    requires IsDurationMatrix(m) && ValidThrough(m, [], end)
    ensures ShortestRoute(m, [], end).points == [0, end]
    ensures HasEdge(m, 0, end) && ShortestRoute(m, [], end).duration == Edge(m, 0, end)
  {
  }

  /** The closed tour is the quickest round trip: no tour from 0 through every other location
      and back to 0 is quicker. */
  lemma ClosedTourIsOptimal(m: Matrix, p: seq<nat>)
    requires IsDurationMatrix(m) && IsClosedTour(|m|, p)
    ensures Walkable(m, p)
    ensures Solve(m, false).duration <= PathCost(m, p)
  {
    OthersValid(m);
    assert p[1..|p| - 1] == p[1..|m|];
    ShortestRouteIsOptimal(m, Others(|m|), 0, p);
  }

  /** The open tour is the quickest one-way trip: no walk from 0 through every other location,
      ending anywhere, is quicker. */
  lemma OpenTourIsOptimal(m: Matrix, p: seq<nat>)
    requires IsDurationMatrix(m) && IsOpenTour(|m|, p)
    ensures Walkable(m, p)
    ensures Solve(m, true).duration <= PathCost(m, p)
  {
    var i := OpenTourEnding(|m|, p);
    EndingIsOptimal(m, p, i);
    var best := OpenTourPicksQuickestEnding(m);
  }

  /** The open-tour candidate ending at `i + 1` is no slower than any walk ending there. */
  lemma EndingIsOptimal(m: Matrix, p: seq<nat>, i: nat)
    requires IsDurationMatrix(m) && i < |m| - 1
    requires IsPathThrough(p, RemoveAt(Others(|m|), i), i + 1)
    ensures Walkable(m, p)
    ensures Endings(m)[i].duration <= PathCost(m, p)
  {
    EndingAt(m, i);
    ShortestRouteIsOptimal(m, RemoveAt(Others(|m|), i), i + 1, p);
  }

  /** An open tour that stops at `i + 1` is a walk through all other locations to `i + 1`. */
  lemma OpenTourEnding(n: nat, p: seq<nat>) returns (i: nat)
    requires IsOpenTour(n, p)
    ensures i < n - 1 && p[n - 1] == i + 1
    ensures IsPathThrough(p, RemoveAt(Others(n), i), i + 1)
  {
    var through := Others(n);
    var point := p[n - 1];
    assert p[1..] == p[1..n - 1] + [point];
    assert point in multiset(through);
    var k := IndexOf(through, point);
    i := k;
    CancelLast(p[1..n - 1], RemoveAt(through, i), point, multiset(through));
  }

  /** The open tour takes the quickest final location: it is the quickest walk ending at some
      `i + 1`, every walk ending at an earlier location is strictly slower, and none is quicker. */
  lemma OpenTourPicksQuickestEnding(m: Matrix) returns (i: nat)
    requires IsDurationMatrix(m)
    ensures i < |m| - 1 && Solve(m, true) == Endings(m)[i]
    ensures forall j :: 0 <= j < i ==> Endings(m)[j].duration > Solve(m, true).duration
    ensures forall j :: 0 <= j < |m| - 1 ==> Solve(m, true).duration <= Endings(m)[j].duration
  {
    var rs := Endings(m);
    assert SameLength(rs);
    i := ShortestOfIndex(rs);
    assert Solve(m, true) == OpenTour(m) == rs[i];
  }
}
