/** `get_coordinate` and `get_duration` of lib/utils.py, and the duration matrix the command-line
    front end builds from them for the solver.

    The geocoding and routing service answers are JSON objects; only the fields these helpers read
    are modelled. A missing key (Python's `KeyError`) is outside the model. */
module Geo {
  import opened Wrappers
  import opened Seqs
  import opened Durations

  /** The fields of a geocoding answer that `get_coordinate` reads: longitude and latitude, as the
      service spells them. */
  datatype Geocode = Geocode(x: string, y: string)

  /** `get_coordinate(geocode)`: `"<x>,<y>"`. */
  function Coordinate(g: Geocode): (s: string)
    ensures |s| == |g.x| + 1 + |g.y|
    ensures s[|g.x|] == ',' && s[..|g.x|] == g.x && s[|g.x| + 1..] == g.y
  {
    g.x + "," + g.y
  }

  /** Position of the first comma, if any. */
  function FirstComma(s: string): (r: Option<nat>)
    ensures r.Some? ==> r.value < |s| && s[r.value] == ',' && ',' !in s[..r.value]
    ensures r.None? <==> ',' !in s
    decreases |s|
  {
    if |s| == 0 then None
    else if s[0] == ',' then Some(0)
    else
      match FirstComma(s[1..])
      case None => assert s == [s[0]] + s[1..]; None
      case Some(k) => assert s[..k + 1] == [s[0]] + s[1..][..k]; Some(k + 1)
  }

  /** Reading a coordinate back: the text before the first comma and the text after it. */
  function SplitCoordinate(s: string): (r: Option<Geocode>)
    ensures r.None? <==> ',' !in s
    ensures r.Some? ==> ',' !in r.value.x && Coordinate(r.value) == s
  {
    match FirstComma(s)
    case None => None
    case Some(k) =>
      assert s == s[..k] + "," + s[k + 1..];
      Some(Geocode(s[..k], s[k + 1..]))
  }

  /** A coordinate reads back as the geocode it came from, as long as the longitude has no comma
      (the service writes it as a decimal number). */
  lemma CoordinateRoundTrip(g: Geocode)
    requires ',' !in g.x
    ensures SplitCoordinate(Coordinate(g)) == Some(g)
  {
    var s := Coordinate(g);
    var k := FirstComma(s);
    assert ',' in s by {
      assert s[|g.x|] == ',';
    }
    assert k.value == |g.x| by {
      assert forall i :: 0 <= i < |g.x| ==> s[i] == g.x[i] && s[i] in g.x;
      assert forall i :: 0 <= i < k.value ==> s[..k.value][i] == s[i] && s[i] in s[..k.value];
    }
  }

  /** Different geocodes give different coordinates, so comparing coordinates compares
      locations. */
  lemma CoordinateInjective(g: Geocode, h: Geocode)
    requires ',' !in g.x && ',' !in h.x
    requires Coordinate(g) == Coordinate(h)
    ensures g == h
  {
    CoordinateRoundTrip(g);
    CoordinateRoundTrip(h);
  }

  /** The field of a routing answer that `get_duration` reads: `summary.duration`, in
      milliseconds. */
  datatype Direction = Direction(duration: nat)

  /** `get_duration(direction)`: `None` for a missing (falsy) answer, otherwise its duration. */
  function GetDuration(d: Option<Direction>): (r: Option<nat>)
    ensures r.None? <==> d.None?
    ensures r.Some? ==> r.value == d.value.duration
  {
    match d
    case None => None
    case Some(dir) => Some(dir.duration)
  }

  /** The comprehension that turns the routing answers into the solver's duration matrix. */
  function DurationMatrix(dirs: seq<seq<Option<Direction>>>): (m: Matrix)
    ensures |m| == |dirs|
    ensures forall i :: 0 <= i < |m| ==> |m[i]| == |dirs[i]|
    ensures forall i, j :: 0 <= i < |m| && 0 <= j < |m[i]| ==> m[i][j] == GetDuration(dirs[i][j])
  {
    seq(|dirs|, i requires 0 <= i < |dirs| => seq(|dirs[i]|, j requires 0 <= j < |dirs[i]| => GetDuration(dirs[i][j])))
  }

  /** The answers as the routing client returns them for `coords`: a square table whose cell is
      empty exactly when start and goal are the same coordinate. */
  ghost predicate RoutingAnswers(coords: seq<string>, dirs: seq<seq<Option<Direction>>>) {
    && |dirs| == |coords|
    && (forall i :: 0 <= i < |dirs| ==> |dirs[i]| == |coords|)
    && (forall i, j :: 0 <= i < |coords| && 0 <= j < |coords| ==> (dirs[i][j].None? <==> coords[i] == coords[j]))
  }

  /** The answers for at least two coordinates make a matrix the solver accepts exactly when the
      coordinates are pairwise different, which is why duplicates are removed first. */
  lemma DurationMatrixSolvableIff(coords: seq<string>, dirs: seq<seq<Option<Direction>>>)
    requires RoutingAnswers(coords, dirs) && |coords| >= 2
    ensures IsDurationMatrix(DurationMatrix(dirs)) <==> Distinct(coords)
  {
    var m: Matrix := DurationMatrix(dirs);
    if Distinct(coords) {
      forall i, j | 0 <= i < |m| && 0 <= j < |m| && i != j ensures m[i][j].Some? {
        assert coords[i] != coords[j];
      }
    }
    if !Distinct(coords) {
      var a, b :| 0 <= a < b < |coords| && coords[a] == coords[b];
      assert m[a][b].None?;
    }
  }
}
