/** The duration matrix handed to the solver and the cost of a walk through it.

    Cell `m[i][j]` is the driving time in milliseconds from location `i` to location `j`.
    The matrix is built with `None` on the diagonal (a location is never routed to itself),
    so reading a cell is only defined where the cell is populated. */
module Durations {
  import opened Wrappers

  type Matrix = seq<seq<Option<nat>>>

  /** What the solver needs of its input: at least two locations, a square table, and every
      off-diagonal cell populated. The diagonal is left unconstrained. */
  ghost predicate IsDurationMatrix(m: Matrix) {
    && |m| >= 2
    && (forall i :: 0 <= i < |m| ==> |m[i]| == |m|)
    && (forall i, j :: 0 <= i < |m| && 0 <= j < |m| && i != j ==> m[i][j].Some?)
  }

  predicate HasEdge(m: Matrix, a: nat, b: nat) {
    a < |m| && b < |m[a]| && m[a][b].Some?
  }

  function Edge(m: Matrix, a: nat, b: nat): nat
    requires HasEdge(m, a, b)
  {
    m[a][b].value
  }

  lemma OffDiagonalHasEdge(m: Matrix, a: nat, b: nat)
    requires IsDurationMatrix(m) && a < |m| && b < |m| && a != b
    ensures HasEdge(m, a, b)
  {
  }

  /** Every consecutive pair of `p` is a populated cell. */
  ghost predicate Walkable(m: Matrix, p: seq<nat>) {
    forall k :: 0 <= k < |p| - 1 ==> HasEdge(m, p[k], p[k + 1])
  }

  /** The sum of the cells along consecutive pairs of `p`. */
  function PathCost(m: Matrix, p: seq<nat>): nat
    requires Walkable(m, p)
    decreases |p|
  {
    if |p| < 2 then 0
    else
      var q := p[..|p| - 1];
      assert Walkable(m, q) by {
        forall k | 0 <= k < |q| - 1 ensures HasEdge(m, q[k], q[k + 1]) {
          assert HasEdge(m, p[k], p[k + 1]);
        }
      }
      PathCost(m, q) + Edge(m, p[|p| - 2], p[|p| - 1])
  }

  /** Gluing two walks at a shared point adds their costs. */
  lemma {:induction false} PathCostConcat(m: Matrix, a: seq<nat>, b: seq<nat>)
    requires |a| > 0 && |b| > 0 && a[|a| - 1] == b[0]
    requires Walkable(m, a) && Walkable(m, b)
    ensures Walkable(m, a + b[1..])
    ensures PathCost(m, a + b[1..]) == PathCost(m, a) + PathCost(m, b)
    decreases |b|
  {
    var p := a + b[1..];
    assert Walkable(m, p) by {
      forall k | 0 <= k < |p| - 1 ensures HasEdge(m, p[k], p[k + 1]) {
        if k + 1 < |a| {
          assert p[k] == a[k] && p[k + 1] == a[k + 1];
        } else {
          assert p[k] == b[k + 1 - |a|] && p[k + 1] == b[k + 2 - |a|];
        }
      }
    }
    if |b| == 1 {
      assert p == a;
    } else {
      var b' := b[..|b| - 1];
      assert Walkable(m, b') by {
        forall k | 0 <= k < |b'| - 1 ensures HasEdge(m, b'[k], b'[k + 1]) {
          assert HasEdge(m, b[k], b[k + 1]);
        }
      }
      PathCostConcat(m, a, b');
      assert p[..|p| - 1] == a + b'[1..];
      assert p[|p| - 2] == b[|b| - 2] && p[|p| - 1] == b[|b| - 1];
    }
  }
}
