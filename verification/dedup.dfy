/** `get_equivalences` and `remove_duplicates` of lib/utils.py: group the positions of a list by
    equal items, then keep one item per group.

    `get_equivalences` keeps the positions still to be grouped in a Python `set`; `pop()` takes the
    group's first position and the loop visits the rest in the set's order. The model chooses
    ascending order (CPython's order agrees only while the positions stay below the set's
    hash-table size), so every group starts at its smallest position and groups come in ascending
    order of their first positions. */
module Dedup {
  import opened Wrappers
  import opened Seqs

  /** The positions of `idx`, in order, whose item equals `x` (`equal`) or differs from it
      (`!equal`). */
  function Select<T(==)>(items: seq<T>, idx: seq<nat>, x: T, equal: bool): (r: seq<nat>)
    requires forall k :: 0 <= k < |idx| ==> idx[k] < |items|
    ensures |r| <= |idx|
    ensures forall k :: 0 <= k < |r| ==> r[k] < |items| && (items[r[k]] == x) == equal
  {
    if |idx| == 0 then []
    else
      var tail := Select(items, idx[1..], x, equal);
      if (items[idx[0]] == x) == equal then [idx[0]] + tail else tail
  }

  /** `Select` keeps exactly the positions of `idx` that meet the condition. */
  lemma {:induction false} SelectMembers<T>(items: seq<T>, idx: seq<nat>, x: T, equal: bool)
    requires forall k :: 0 <= k < |idx| ==> idx[k] < |items|
    ensures forall i :: i in Select(items, idx, x, equal) <==>
              i in idx && i < |items| && (items[i] == x) == equal
  {
    if |idx| > 0 {
      SelectMembers(items, idx[1..], x, equal);
      assert idx == [idx[0]] + idx[1..];
    }
  }

  /** Filtering keeps an ascending sequence ascending. */
  lemma {:induction false} SelectIncreasing<T>(items: seq<T>, idx: seq<nat>, x: T, equal: bool)
    requires forall k :: 0 <= k < |idx| ==> idx[k] < |items|
    requires Increasing(idx)
    ensures Increasing(Select(items, idx, x, equal))
  {
    if |idx| > 0 {
      var tail := idx[1..];
      AboveHead(idx);
      SelectIncreasing(items, tail, x, equal);
      SelectMembers(items, tail, x, equal);
      PrependIncreasing(idx[0], Select(items, tail, x, equal));
    }
  }

  /** Dropping the head of an ascending sequence leaves an ascending sequence of larger
      elements. */
  lemma AboveHead(s: seq<nat>)
    requires |s| > 0 && Increasing(s)
    ensures Increasing(s[1..])
    ensures forall y :: y in s[1..] ==> s[0] < y
  {
    var t := s[1..];
    forall a, b | 0 <= a < b < |t| ensures t[a] < t[b] {
      assert t[a] == s[a + 1] && t[b] == s[b + 1];
    }
    forall y | y in t ensures s[0] < y {
      var k :| 0 <= k < |t| && t[k] == y;
      assert t[k] == s[k + 1];
    }
  }

  lemma PrependIncreasing(x: nat, s: seq<nat>)
    requires Increasing(s)
    requires forall y :: y in s ==> x < y
    ensures Increasing([x] + s)
  {
    var t := [x] + s;
    forall a, b | 0 <= a < b < |t| ensures t[a] < t[b] {
      assert t[b] == s[b - 1] && s[b - 1] in s;
      if a > 0 {
        assert t[a] == s[a - 1];
      }
    }
  }

  /** The loop of `get_equivalences` from the still ungrouped positions `rest`: the first one is
      popped as the base, every remaining position with an equal item joins its group, and the
      loop goes on with the positions left over. */
  function Group<T(==)>(items: seq<T>, rest: seq<nat>): (classes: seq<seq<nat>>)
    requires forall k :: 0 <= k < |rest| ==> rest[k] < |items|
    ensures |classes| <= |rest|
    ensures forall c :: 0 <= c < |classes| ==> |classes[c]| > 0
    ensures forall c, j :: 0 <= c < |classes| && 0 <= j < |classes[c]| ==> classes[c][j] < |items|
    decreases |rest|
  {
    if |rest| == 0 then []
    else
      var base := rest[0];
      var others := rest[1..];
      var leftover := Select(items, others, items[base], false);
      [[base] + Select(items, others, items[base], true)] + Group(items, leftover)
  }

  /** `get_equivalences(items)`: the groups of positions holding equal items. */
  function Equivalences<T(==)>(items: seq<T>): (classes: seq<seq<nat>>)
    ensures |classes| <= |items|
  {
    Group(items, Range(|items|))
  }

  /** `i` is in one of the groups. */
  ghost predicate Occurs(classes: seq<seq<nat>>, i: nat) {
    exists c :: 0 <= c < |classes| && i in classes[c]
  }

  /** `classes` splits `0..n-1` into non-empty, ascending, pairwise disjoint groups that come in
      ascending order of their first positions. */
  ghost predicate IsOrderedPartition(classes: seq<seq<nat>>, n: nat) {
    && (forall c :: 0 <= c < |classes| ==> |classes[c]| > 0 && Increasing(classes[c]))
    && (forall c, j :: 0 <= c < |classes| && 0 <= j < |classes[c]| ==> classes[c][j] < n)
    && (forall i :: 0 <= i < n ==> Occurs(classes, i))
    && (forall c, d, i :: 0 <= c < d < |classes| && i in classes[c] ==> i !in classes[d])
    && (forall c, d :: 0 <= c < d < |classes| ==> classes[c][0] < classes[d][0])
  }

  ghost predicate ValidRest(items_len: nat, rest: seq<nat>) {
    Increasing(rest) && forall k :: 0 <= k < |rest| ==> rest[k] < items_len
  }

  /** One unfolding of `Group`: the head group and the positions left over for the rest. */
  lemma GroupStep<T>(items: seq<T>, rest: seq<nat>)
    returns (head: seq<nat>, leftover: seq<nat>)
    requires ValidRest(|items|, rest) && |rest| > 0
    ensures ValidRest(|items|, leftover) && |leftover| < |rest|
    ensures Group(items, rest) == [head] + Group(items, leftover)
    ensures |head| > 0 && head[0] == rest[0] && Increasing(head)
    ensures forall y :: y in head ==> y in rest && y < |items| && items[y] == items[rest[0]]
    ensures forall y :: y in leftover ==> y in rest && y < |items| && rest[0] < y && items[y] != items[rest[0]]
    ensures forall y :: y in rest ==> y in head || y in leftover
  {
    var base := rest[0];
    var others := rest[1..];
    AboveHead(rest);
    var same := Select(items, others, items[base], true);
    leftover := Select(items, others, items[base], false);
    SelectMembers(items, others, items[base], true);
    SelectMembers(items, others, items[base], false);
    head := [base] + same;
    SelectIncreasing(items, others, items[base], true);
    SelectIncreasing(items, others, items[base], false);
    PrependIncreasing(base, same);
    assert rest == [base] + others;
  }

  /** Every group holds positions of `rest`, is non-empty and ascending, and holds equal items. */
  lemma {:induction false} GroupShape<T>(items: seq<T>, rest: seq<nat>)
    requires ValidRest(|items|, rest)
    ensures forall c :: 0 <= c < |Group(items, rest)| ==>
              |Group(items, rest)[c]| > 0 && Increasing(Group(items, rest)[c])
    ensures forall c, y :: 0 <= c < |Group(items, rest)| && y in Group(items, rest)[c] ==>
              y in rest && y < |items| && items[y] == items[Group(items, rest)[c][0]]
    decreases |rest|
  {
    if |rest| > 0 {
      var head, leftover := GroupStep(items, rest);
      GroupShape(items, leftover);
    }
  }

  /** Every position of `rest` lands in some group. */
  lemma {:induction false} GroupCovers<T>(items: seq<T>, rest: seq<nat>, i: nat) returns (c: nat)
    requires ValidRest(|items|, rest) && i in rest
    ensures c < |Group(items, rest)| && i in Group(items, rest)[c]
    decreases |rest|
  {
    var head, leftover := GroupStep(items, rest);
    if i in head {
      c := 0;
    } else {
      var d := GroupCovers(items, leftover, i);
      c := d + 1;
    }
  }

  /** No position lands in two groups. */
  lemma {:induction false} GroupDisjoint<T>(items: seq<T>, rest: seq<nat>)
    requires ValidRest(|items|, rest)
    ensures forall c, d, i :: 0 <= c < d < |Group(items, rest)| && i in Group(items, rest)[c] ==>
              i !in Group(items, rest)[d]
    decreases |rest|
  {
    if |rest| > 0 {
      var head, leftover := GroupStep(items, rest);
      GroupDisjoint(items, leftover);
      GroupShape(items, leftover);
      var tail := Group(items, leftover);
      var classes: seq<seq<nat>> := [head] + tail;
      forall c, d, i | 0 <= c < d < |classes| && i in classes[c] ensures i !in classes[d] {
        assert classes[d] == tail[d - 1];
        if c > 0 {
          assert classes[c] == tail[c - 1];
        }
      }
    }
  }

  /** Groups come in ascending order of their first positions, and those hold pairwise different
      items. */
  lemma {:induction false} GroupBasesSeparate<T>(items: seq<T>, rest: seq<nat>)
    requires ValidRest(|items|, rest)
    ensures forall c, d :: 0 <= c < d < |Group(items, rest)| ==>
              Group(items, rest)[c][0] < Group(items, rest)[d][0]
              && items[Group(items, rest)[c][0]] != items[Group(items, rest)[d][0]]
    decreases |rest|
  {
    if |rest| > 0 {
      var head, leftover := GroupStep(items, rest);
      GroupBasesSeparate(items, leftover);
      GroupShape(items, leftover);
      var tail := Group(items, leftover);
      forall d | 0 <= d < |tail| ensures rest[0] < tail[d][0] && items[rest[0]] != items[tail[d][0]] {
        assert tail[d][0] in tail[d];
      }
    }
  }

  /** `get_equivalences` partitions the positions `0..n-1`. */
  lemma EquivalencesArePartition<T>(items: seq<T>)
    ensures IsOrderedPartition(Equivalences(items), |items|)
  {
    var rest := Range(|items|);
    var classes := Equivalences(items);
    GroupShape(items, rest);
    GroupDisjoint(items, rest);
    GroupBasesSeparate(items, rest);
    forall i | 0 <= i < |items| ensures Occurs(classes, i) {
      assert rest[i] == i;
      var c := GroupCovers(items, rest, i);
    }
  }

  /** Two positions are grouped together exactly when they hold equal items. */
  lemma EquivalencesClassify<T>(items: seq<T>, c: nat, i: nat, d: nat, j: nat)
    requires c < |Equivalences(items)| && i in Equivalences(items)[c]
    requires d < |Equivalences(items)| && j in Equivalences(items)[d]
    ensures i < |items| && j < |items|
    ensures items[i] == items[j] <==> c == d
  {
    var classes := Equivalences(items);
    GroupShape(items, Range(|items|));
    GroupBasesSeparate(items, Range(|items|));
    if c < d {
      assert items[classes[c][0]] != items[classes[d][0]];
    } else if d < c {
      assert items[classes[d][0]] != items[classes[c][0]];
    }
  }

  /** `items` with every position listed in `idx` overwritten by `None`. */
  function Overwrite<T>(items: seq<Option<T>>, idx: seq<nat>): (r: seq<Option<T>>)
    requires forall k :: 0 <= k < |idx| ==> idx[k] < |items|
    ensures |r| == |items|
    ensures forall i :: 0 <= i < |r| ==> r[i] == if i in idx then None else items[i]
    decreases |idx|
  {
    if |idx| == 0 then items
    else
      assert idx == [idx[0]] + idx[1..];
      Overwrite(items[idx[0] := None], idx[1..])
  }

  /** `i` is in `cls` but not at its head. */
  ghost predicate InTail(cls: seq<nat>, i: nat) {
    |cls| > 0 && i in cls[1..]
  }

  /** A position is "later" when it is in some group but not at the group's head. */
  ghost predicate IsLater(classes: seq<seq<nat>>, i: nat) {
    exists c :: 0 <= c < |classes| && InTail(classes[c], i)
  }

  ghost predicate InRange(classes: seq<seq<nat>>, n: nat) {
    forall c, j :: 0 <= c < |classes| && 0 <= j < |classes[c]| ==> classes[c][j] < n
  }

  /** The first loop of `remove_duplicates`: every later position of every group of more than one
      position is overwritten with `None`; nothing else changes. */
  function ClearLater<T>(items: seq<Option<T>>, classes: seq<seq<nat>>): (r: seq<Option<T>>)
    requires InRange(classes, |items|)
    ensures |r| == |items|
    ensures forall i :: 0 <= i < |r| ==> r[i] == if IsLater(classes, i) then None else items[i]
    decreases |classes|
  {
    if |classes| == 0 then items
    else
      var cls := classes[0];
      var cleared := if |cls| > 1 then Overwrite(items, cls[1..]) else items;
      LaterSplit(classes);
      ClearLater(cleared, classes[1..])
  }

  /** Being later in `classes` is being later in its first group or in the remaining ones. */
  lemma LaterSplit(classes: seq<seq<nat>>)
    requires |classes| > 0
    ensures forall i :: IsLater(classes, i) <==> InTail(classes[0], i) || IsLater(classes[1..], i)
  {
    forall i | IsLater(classes, i) ensures InTail(classes[0], i) || IsLater(classes[1..], i) {
      var c :| 0 <= c < |classes| && InTail(classes[c], i);
      if c > 0 {
        assert classes[1..][c - 1] == classes[c];
      }
    }
    forall i | IsLater(classes[1..], i) ensures IsLater(classes, i) {
      var c :| 0 <= c < |classes[1..]| && InTail(classes[1..][c], i);
      assert classes[1..][c] == classes[c + 1];
    }
  }

  /** The values of `s`, in order, with every `None` dropped. */
  function Somes<T>(s: seq<Option<T>>): (r: seq<T>)
    ensures |r| <= |s|
    ensures forall x :: x in r ==> Some(x) in s
    decreases |s|
  {
    if |s| == 0 then []
    else
      var init := s[..|s| - 1];
      var last := s[|s| - 1];
      assert s == init + [last];
      Somes(init) + if last.Some? then [last.value] else []
  }

  /** `remove_duplicates(items, equivalences)`. */
  function RemoveDuplicates<T>(items: seq<Option<T>>, classes: seq<seq<nat>>): (r: seq<T>)
    requires InRange(classes, |items|)
    ensures |r| <= |items|
    ensures forall x :: x in r ==> Some(x) in items
  {
    var cleared := ClearLater(items, classes);
    forall x | Some(x) in cleared ensures Some(x) in items {
      var i :| 0 <= i < |cleared| && cleared[i] == Some(x);
    }
    Somes(cleared)
  }

  /** `P` lists, in ascending order, exactly the positions of `s` that hold a value. */
  ghost predicate SomePositions<T>(s: seq<Option<T>>, P: seq<nat>) {
    && Increasing(P)
    && (forall k :: 0 <= k < |P| ==> P[k] < |s|)
    && (forall i :: 0 <= i < |s| ==> (s[i].Some? <==> i in P))
  }

  /** Filtering out `None` leaves the values at the `Some` positions, in order: if `P` lists those
      positions in ascending order, the result is the values at `P[0], P[1], ...`. */
  lemma {:induction false} SomesAt<T>(s: seq<Option<T>>, P: seq<nat>)
    requires SomePositions(s, P)
    ensures |Somes(s)| == |P|
    ensures forall k :: 0 <= k < |P| ==> s[P[k]].Some? && Somes(s)[k] == s[P[k]].value
    decreases |s|
  {
    var n := |s|;
    if n == 0 {
      NothingBelowZero(P, n);
    } else {
      var init := s[..n - 1];
      if s[n - 1].Some? {
        var P' := P[..|P| - 1];
        DropLastPosition(s, P);
        SomesAt(init, P');
        assert Somes(s) == Somes(init) + [s[n - 1].value];
        forall k | 0 <= k < |P'| ensures Somes(s)[k] == s[P[k]].value {
          assert init[P'[k]] == s[P[k]];
        }
      } else {
        KeepPositions(s, P);
        SomesAt(init, P);
        assert Somes(s) == Somes(init);
        forall k | 0 <= k < |P| ensures Somes(s)[k] == s[P[k]].value {
          assert init[P[k]] == s[P[k]];
        }
      }
    }
  }

  lemma DropLastPosition<T>(s: seq<Option<T>>, P: seq<nat>)
    requires SomePositions(s, P) && |s| > 0 && s[|s| - 1].Some?
    ensures |P| > 0 && P[|P| - 1] == |s| - 1
    ensures SomePositions(s[..|s| - 1], P[..|P| - 1])
  {
    var n := |s|;
    var init := s[..n - 1];
    var P' := P[..|P| - 1];
    assert n - 1 in P;
    var k :| 0 <= k < |P| && P[k] == n - 1;
    UpToLast(P, k);
    forall i | 0 <= i < n - 1 ensures init[i].Some? <==> i in P' {
      if i in P {
        var k :| 0 <= k < |P| && P[k] == i;
        assert k < |P| - 1 && P'[k] == i;
      }
    }
  }

  lemma KeepPositions<T>(s: seq<Option<T>>, P: seq<nat>)
    requires SomePositions(s, P) && |s| > 0 && s[|s| - 1].None?
    ensures SomePositions(s[..|s| - 1], P)
  {
    assert |s| - 1 !in P;
    forall k | 0 <= k < |P| ensures P[k] < |s| - 1 {
      assert P[k] in P;
    }
  }

  lemma UpToLast(P: seq<nat>, k: nat)
    requires Increasing(P) && k < |P|
    ensures P[k] <= P[|P| - 1]
  {
    if k < |P| - 1 {
      assert P[k] < P[|P| - 1];
    }
  }

  lemma NothingBelowZero(P: seq<nat>, n: nat)
    requires forall k :: 0 <= k < |P| ==> P[k] < n
    ensures n == 0 ==> |P| == 0
  {
    if |P| > 0 {
      assert P[0] < n;
    }
  }

  /** The positions at the heads of the groups, in group order. */
  ghost function Bases(classes: seq<seq<nat>>): (P: seq<nat>)
    requires forall c :: 0 <= c < |classes| ==> |classes[c]| > 0
    ensures |P| == |classes| && forall c :: 0 <= c < |classes| ==> P[c] == classes[c][0]
  {
    seq(|classes|, c requires 0 <= c < |classes| => classes[c][0])
  }

  /** In an ordered partition a position is at the head of its group exactly when it is not later
      in any group. */
  lemma HeadIffNotLater(classes: seq<seq<nat>>, n: nat, i: nat)
    requires IsOrderedPartition(classes, n) && i < n
    ensures i in Bases(classes) <==> !IsLater(classes, i)
  {
    var P := Bases(classes);
    assert Occurs(classes, i);
    var c :| 0 <= c < |classes| && i in classes[c];
    var j :| 0 <= j < |classes[c]| && classes[c][j] == i;
    if j == 0 {
      assert P[c] == i;
      forall d | 0 <= d < |classes| ensures !InTail(classes[d], i) {
        forall k | 0 <= k < |classes[d][1..]| ensures classes[d][1..][k] != i {
          var y := classes[d][1..][k];
          assert y == classes[d][k + 1] && y in classes[d];
          assert d == c ==> classes[c][0] < classes[c][k + 1];
        }
      }
    } else {
      assert InTail(classes[c], i) by {
        assert classes[c][1..][j - 1] == i;
      }
      forall d | 0 <= d < |P| ensures P[d] != i {
        assert P[d] in classes[d];
        assert d == c ==> classes[c][0] < classes[c][j];
      }
    }
  }

  /** `remove_duplicates` keeps, for each group in order, the item at the group's head, and drops
      every other position, when no item is `None`. */
  lemma KeepsGroupHeads<T>(items: seq<Option<T>>, classes: seq<seq<nat>>)
    requires IsOrderedPartition(classes, |items|)
    requires forall i :: 0 <= i < |items| ==> items[i].Some?
    ensures |RemoveDuplicates(items, classes)| == |classes|
    ensures forall c :: 0 <= c < |classes| ==> RemoveDuplicates(items, classes)[c] == items[classes[c][0]].value
  {
    var cleared := ClearLater(items, classes);
    var P := Bases(classes);
    forall i | 0 <= i < |cleared| ensures cleared[i].Some? <==> i in P {
      HeadIffNotLater(classes, |items|, i);
    }
    assert SomePositions(cleared, P);
    SomesAt(cleared, P);
    forall c | 0 <= c < |classes| ensures cleared[P[c]] == items[classes[c][0]] {
      HeadIffNotLater(classes, |items|, P[c]);
    }
  }

  /** Deduplicating by `get_equivalences` leaves one item per group of equal items, no two of
      them equal, when no item is `None`. */
  lemma RemoveDuplicatesOfEquivalences<T>(items: seq<Option<T>>)
    requires forall i :: 0 <= i < |items| ==> items[i].Some?
    ensures InRange(Equivalences(items), |items|)
    ensures |RemoveDuplicates(items, Equivalences(items))| == |Equivalences(items)|
    ensures Distinct(RemoveDuplicates(items, Equivalences(items)))
    ensures forall x :: x in RemoveDuplicates(items, Equivalences(items)) <==> Some(x) in items
  {
    var classes := Equivalences(items);
    EquivalencesArePartition(items);
    KeepsGroupHeads(items, classes);
    HeadsDistinct(items);
    HeadsCover(items);
  }

  lemma HeadsDistinct<T>(items: seq<Option<T>>)
    requires forall i :: 0 <= i < |items| ==> items[i].Some?
    ensures InRange(Equivalences(items), |items|)
    ensures Distinct(RemoveDuplicates(items, Equivalences(items)))
  {
    var classes := Equivalences(items);
    EquivalencesArePartition(items);
    GroupBasesSeparate(items, Range(|items|));
    KeepsGroupHeads(items, classes);
    var r := RemoveDuplicates(items, classes);
    forall a, b | 0 <= a < b < |r| ensures r[a] != r[b] {
      assert items[classes[a][0]] != items[classes[b][0]];
    }
  }

  lemma HeadsCover<T>(items: seq<Option<T>>)
    requires forall i :: 0 <= i < |items| ==> items[i].Some?
    ensures InRange(Equivalences(items), |items|)
    ensures forall x :: Some(x) in items ==> x in RemoveDuplicates(items, Equivalences(items))
  {
    var classes := Equivalences(items);
    EquivalencesArePartition(items);
    GroupShape(items, Range(|items|));
    KeepsGroupHeads(items, classes);
    var r := RemoveDuplicates(items, classes);
    forall x | Some(x) in items ensures x in r {
      var i :| 0 <= i < |items| && items[i] == Some(x);
      assert Occurs(classes, i);
      var c :| 0 <= c < |classes| && i in classes[c];
      assert r[c] == x;
    }
  }

  /** The first item survives: `remove_duplicates` never drops position 0, so the start location
      stays first. */
  lemma KeepsFirst<T>(items: seq<Option<T>>)
    requires |items| > 0 && forall i :: 0 <= i < |items| ==> items[i].Some?
    ensures InRange(Equivalences(items), |items|)
    ensures |RemoveDuplicates(items, Equivalences(items))| > 0
    ensures RemoveDuplicates(items, Equivalences(items))[0] == items[0].value
  {
    var classes := Equivalences(items);
    EquivalencesArePartition(items);
    KeepsGroupHeads(items, classes);
    assert Occurs(classes, 0);
    var c :| 0 <= c < |classes| && 0 in classes[c];
    var j :| 0 <= j < |classes[c]| && classes[c][j] == 0;
    assert classes[0][0] <= classes[c][0];
    assert classes[c][0] <= classes[c][j];
  }
}
