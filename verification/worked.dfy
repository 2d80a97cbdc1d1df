/** The solver on three locations, worked out: first for any matrix of three locations, then for
    the instance with durations 10 between locations 0 and 1, 15 between 0 and 2, and 20 between
    1 and 2, in both directions. */
module WorkedExample {
  import opened Wrappers
  import opened Seqs
  import opened Durations
  import opened Routes
  import opened TspSolver

  lemma OneStopValid(m: Matrix, b: nat, a: nat)
    requires IsDurationMatrix(m) && 0 < a < |m| && 0 < b < |m| && a != b
    ensures ValidThrough(m, [b], a) && RemoveAt([b], 0) == [] && ValidThrough(m, [], b)
  {
    assert Distinct([b]);
  }

  /** The only candidate with one location in between: the direct edge to `b`, then `b` to `a`. */
  lemma OneStopExtension(m: Matrix, b: nat, a: nat)
    requires IsDurationMatrix(m) && 0 < a < |m| && 0 < b < |m| && a != b
    ensures ValidThrough(m, [b], a) && HasEdge(m, 0, b) && HasEdge(m, b, a)
    ensures Extension(m, [b], a, 0) == Route([0, b, a], Edge(m, 0, b) + Edge(m, b, a))
  {
    OneStopValid(m, b, a);
    ExtensionJoins(m, [b], a, 0);
    ShortestRouteDirect(m, b);
    assert [b, a][1..] == [a] && [0, b] + [a] == [0, b, a];
  }

  /** With one location in between, the only walk is forced: 0, then `b`, then `a`. */
  lemma OneStop(m: Matrix, b: nat, a: nat)
    requires IsDurationMatrix(m) && 0 < a < |m| && 0 < b < |m| && a != b
    ensures ValidThrough(m, [b], a) && HasEdge(m, 0, b) && HasEdge(m, b, a)
    ensures ShortestRoute(m, [b], a) == Route([0, b, a], Edge(m, 0, b) + Edge(m, b, a))
  {
    OneStopExtension(m, b, a);
    var k := ShortestRouteKeepsFirstQuickest(m, [b], a);
  }

  /** The round trip that visits 1 last. */
  function ViaOne(m: Matrix): Route
    requires IsDurationMatrix(m) && |m| == 3
  {
    Route([0, 2, 1, 0], Edge(m, 0, 2) + Edge(m, 2, 1) + Edge(m, 1, 0))
  }

  /** The round trip that visits 2 last. */
  function ViaTwo(m: Matrix): Route
    requires IsDurationMatrix(m) && |m| == 3
  {
    Route([0, 1, 2, 0], Edge(m, 0, 1) + Edge(m, 1, 2) + Edge(m, 2, 0))
  }

  lemma ThreeClosedValid(m: Matrix)
    requires IsDurationMatrix(m) && |m| == 3
    ensures ValidThrough(m, [1, 2], 0)
  {
    assert Distinct([1, 2]);
  }

  lemma RemoveFromOneTwo()
    ensures RemoveAt([1, 2], 0) == [2] && RemoveAt([1, 2], 1) == [1]
  {
  }

  /** Closing `0, b, a` with the edge from `a` back to 0. */
  lemma ReturnToStart(b: nat, a: nat, d: int, e: int)
    ensures Concat(Route([0, b, a], d), Route([a, 0], e)) == Success(Route([0, b, a, 0], d + e))
  {
    assert [a, 0][1..] == [0] && [0, b, a] + [0] == [0, b, a, 0];
  }

  /** The closed-tour candidate that visits 1 last. */
  lemma ClosedViaOne(m: Matrix)
    requires IsDurationMatrix(m) && |m| == 3
    ensures ValidThrough(m, [1, 2], 0)
    ensures Extension(m, [1, 2], 0, 0) == ViaOne(m)
  {
    ThreeClosedValid(m);
    RemoveFromOneTwo();
    OneStop(m, 2, 1);
    ExtensionJoins(m, [1, 2], 0, 0);
    ReturnToStart(2, 1, Edge(m, 0, 2) + Edge(m, 2, 1), Edge(m, 1, 0));
  }

  /** The closed-tour candidate that visits 2 last. */
  lemma ClosedViaTwo(m: Matrix)
    requires IsDurationMatrix(m) && |m| == 3
    ensures ValidThrough(m, [1, 2], 0)
    ensures Extension(m, [1, 2], 0, 1) == ViaTwo(m)
  {
    ThreeClosedValid(m);
    RemoveFromOneTwo();
    OneStop(m, 1, 2);
    ExtensionJoins(m, [1, 2], 0, 1);
    ReturnToStart(1, 2, Edge(m, 0, 1) + Edge(m, 1, 2), Edge(m, 2, 0));
  }

  /** Of three locations the solver returns the round trip `0, 2, 1, 0` unless `0, 1, 2, 0` is
      strictly quicker. */
  lemma ThreeClosed(m: Matrix)
    requires IsDurationMatrix(m) && |m| == 3
    ensures Solve(m, false) == if ViaTwo(m).duration < ViaOne(m).duration then ViaTwo(m) else ViaOne(m)
  {
    ClosedViaOne(m);
    ClosedViaTwo(m);
    assert Others(|m|) == [1, 2];
    assert Solve(m, false) == ClosedTour(m) == ShortestRoute(m, [1, 2], 0);
    var i := ShortestRouteKeepsFirstQuickest(m, [1, 2], 0);
    if ViaTwo(m).duration < ViaOne(m).duration {
      assert i != 0;
    } else {
      assert i != 1;
    }
  }

  /** The one-way trip that ends at 1. */
  function EndOne(m: Matrix): Route
    requires IsDurationMatrix(m) && |m| == 3
  {
    Route([0, 2, 1], Edge(m, 0, 2) + Edge(m, 2, 1))
  }

  /** The one-way trip that ends at 2. */
  function EndTwo(m: Matrix): Route
    requires IsDurationMatrix(m) && |m| == 3
  {
    Route([0, 1, 2], Edge(m, 0, 1) + Edge(m, 1, 2))
  }

  lemma OpenEndingOne(m: Matrix)
    requires IsDurationMatrix(m) && |m| == 3
    ensures |Endings(m)| == 2 && Endings(m)[0] == EndOne(m)
  {
    assert Others(|m|) == [1, 2];
    RemoveFromOneTwo();
    EndingAt(m, 0);
    OneStop(m, 2, 1);
  }

  lemma OpenEndingTwo(m: Matrix)
    requires IsDurationMatrix(m) && |m| == 3
    ensures |Endings(m)| == 2 && Endings(m)[1] == EndTwo(m)
  {
    assert Others(|m|) == [1, 2];
    RemoveFromOneTwo();
    EndingAt(m, 1);
    OneStop(m, 1, 2);
  }

  /** Of three locations the solver's one-way trip ends at 1 unless ending at 2 is strictly
      quicker. */
  lemma ThreeOpen(m: Matrix)
    requires IsDurationMatrix(m) && |m| == 3
    ensures Solve(m, true) == if EndTwo(m).duration < EndOne(m).duration then EndTwo(m) else EndOne(m)
  {
    OpenEndingOne(m);
    OpenEndingTwo(m);
    var i := OpenTourPicksQuickestEnding(m);
    if EndTwo(m).duration < EndOne(m).duration {
      assert i != 0;
    } else {
      assert i != 1;
    }
  }

  /** Durations 10 between 0 and 1, 15 between 0 and 2, 20 between 1 and 2. */
  const Triangle: Matrix :=
    [[None, Some(10), Some(15)],
     [Some(10), None, Some(20)],
     [Some(15), Some(20), None]]

  /** Both round trips take 45; the strict comparison keeps the first one met. */
  lemma TriangleClosedTour()
    ensures IsDurationMatrix(Triangle)
    ensures Solve(Triangle, false) == Route([0, 2, 1, 0], 45)
  {
    assert IsDurationMatrix(Triangle);
    ThreeClosed(Triangle);
  }

  /** The one-way trip ending at 2 (30) beats the one ending at 1 (35). */
  lemma TriangleOpenTour()
    ensures IsDurationMatrix(Triangle)
    ensures Solve(Triangle, true) == Route([0, 1, 2], 30)
  {
    assert IsDurationMatrix(Triangle);
    ThreeOpen(Triangle);
  }
}
