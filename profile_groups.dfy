/** Grouping GPS points into profile lines: the index pairs of points that lie close to each
    other are merged, as long as two groups share a point, into disjoint groups
    (`merge_pairs_if_a_common_point_exists`). The groups are the connected components of the
    graph whose edges are the pairs. */
module ProfileGroups {

  /** `set(lst)`: the elements of one index pair. */
  function Elems(t: seq<int>): set<int> {
    set x | x in t
  }

  /** `[set(lst) for lst in pairs if lst]`: the pairs as sets, empty pairs dropped. */
  function NonEmptyPairSets(pairs: seq<seq<int>>): (sets: seq<set<int>>)
    ensures |sets| <= |pairs|
    ensures forall i :: 0 <= i < |sets| ==> sets[i] != {}
    ensures forall i :: 0 <= i < |sets| ==> exists k :: 0 <= k < |pairs| && sets[i] == Elems(pairs[k])
    ensures forall k :: 0 <= k < |pairs| && pairs[k] != [] ==> Elems(pairs[k]) in sets
  {
    if |pairs| == 0 then []
    else
      var rest := NonEmptyPairSets(pairs[1..]);
      assert forall i :: 0 <= i < |rest| ==> exists k :: 0 <= k < |pairs| && rest[i] == Elems(pairs[k]) by {
        forall i | 0 <= i < |rest| ensures exists k :: 0 <= k < |pairs| && rest[i] == Elems(pairs[k]) {
          var k' :| 0 <= k' < |pairs[1..]| && rest[i] == Elems(pairs[1..][k']);
          assert pairs[1..][k'] == pairs[k' + 1];
        }
      }
      assert forall k :: 1 <= k < |pairs| && pairs[k] != [] ==> Elems(pairs[k]) in rest by {
        forall k | 1 <= k < |pairs| && pairs[k] != [] ensures Elems(pairs[k]) in rest {
          assert pairs[1..][k - 1] == pairs[k];
        }
      }
      if pairs[0] != [] then
        assert pairs[0][0] in Elems(pairs[0]);
        [Elems(pairs[0])] + rest
      else
        rest
  }

  /** The union of a list of sets. */
  ghost function Union(ss: seq<set<int>>): set<int> {
    if |ss| == 0 then {} else ss[0] + Union(ss[1..])
  }

  /** The union of the elements of all pairs. */
  ghost function PairElements(pairs: seq<seq<int>>): set<int> {
    if |pairs| == 0 then {} else Elems(pairs[0]) + PairElements(pairs[1..])
  }

  ghost predicate AllNonEmpty(ss: seq<set<int>>) {
    forall i :: 0 <= i < |ss| ==> ss[i] != {}
  }

  ghost predicate DisjointAll(ss: seq<set<int>>) {
    forall i, j :: 0 <= i < j < |ss| ==> ss[i] !! ss[j]
  }

  ghost predicate CrossDisjoint(a: seq<set<int>>, b: seq<set<int>>) {
    forall i, j :: 0 <= i < |a| && 0 <= j < |b| ==> a[i] !! b[j]
  }

  /** `s` lies wholly inside one of the sets of `ss`. */
  ghost predicate Covered(s: set<int>, ss: seq<set<int>>) {
    exists i :: 0 <= i < |ss| && s <= ss[i]
  }

  /** Every set of `a` lies wholly inside some set of `b`. */
  ghost predicate Refines(a: seq<set<int>>, b: seq<set<int>>) {
    forall i :: 0 <= i < |a| ==> Covered(a[i], b)
  }

  /** `x` and `y` appear together in one input pair: an edge of the graph. */
  ghost predicate Linked(pairs: seq<seq<int>>, x: int, y: int) {
    exists k :: 0 <= k < |pairs| && x in pairs[k] && y in pairs[k]
  }

  ghost predicate IsChain(pairs: seq<seq<int>>, path: seq<int>) {
    forall m :: 0 <= m < |path| - 1 ==> Linked(pairs, path[m], path[m + 1])
  }

  /** A chain of input pairs leads from `a` to `b`. */
  ghost predicate Connected(pairs: seq<seq<int>>, a: int, b: int) {
    exists path :: |path| > 0 && path[0] == a && path[|path| - 1] == b && IsChain(pairs, path)
  }

  ghost predicate InternallyConnected(pairs: seq<seq<int>>, s: set<int>) {
    forall a, b :: a in s && b in s ==> Connected(pairs, a, b)
  }

  ghost predicate AllConnected(pairs: seq<seq<int>>, ss: seq<set<int>>) {
    forall i :: 0 <= i < |ss| ==> InternallyConnected(pairs, ss[i])
  }

  /** What `merge_pairs_if_a_common_point_exists` promises of its result. */
  ghost predicate IsGrouping(pairs: seq<seq<int>>, groups: seq<set<int>>) {
    && DisjointAll(groups)
    && AllNonEmpty(groups)
    && Union(groups) == PairElements(pairs)
    && (forall k :: 0 <= k < |pairs| && pairs[k] != [] ==> Covered(Elems(pairs[k]), groups))
    && AllConnected(pairs, groups)
  }

  /** The state of the `for x in rest` loop: the grown `common`, the sets kept for the next
      round, the positions in `rest` they were taken from, and whether any set was merged. */
  datatype Absorption = Absorption(grown: set<int>, kept: seq<set<int>>, keptAt: seq<nat>, merged: bool)

  /** The `for x in rest` loop as a fold over `rest`: a set disjoint from what has been grown
      so far is kept, any other is merged into it. Something was merged exactly when fewer
      sets are kept than were given. */
  function Absorb(common: set<int>, rest: seq<set<int>>): (a: Absorption)
    ensures |a.kept| == |a.keptAt| <= |rest|
    ensures a.merged <==> |a.kept| < |rest|
    decreases |rest|
  {
    if |rest| == 0 then Absorption(common, [], [], false)
    else
      var n := |rest| - 1;
      var a := Absorb(common, rest[..n]);
      var x := rest[n];
      if x !! a.grown then Absorption(a.grown, a.kept + [x], a.keptAt + [n], a.merged)
      else Absorption(a.grown + x, a.kept, a.keptAt, true)
  }

  /** Each kept set is the set of `rest` at its recorded position. */
  lemma {:induction false} AbsorbKeepsFromRest(common: set<int>, rest: seq<set<int>>) returns (a: Absorption)
    ensures a == Absorb(common, rest)
    ensures forall j :: 0 <= j < |a.keptAt| ==> a.keptAt[j] < |rest| && a.kept[j] == rest[a.keptAt[j]]
    decreases |rest|
  {
    a := Absorb(common, rest);
    if |rest| > 0 {
      var n := |rest| - 1;
      var front, x := rest[..n], rest[n];
      var f := AbsorbKeepsFromRest(common, front);
      forall j | 0 <= j < |a.keptAt| ensures a.keptAt[j] < |rest| && a.kept[j] == rest[a.keptAt[j]] {
        if j < |f.keptAt| {
          assert a.keptAt[j] == f.keptAt[j] && a.kept[j] == f.kept[j];
          assert f.kept[j] == front[f.keptAt[j]];
        } else {
          assert a.keptAt[j] == n && a.kept[j] == x;
        }
      }
    }
  }

  /** The kept sets are taken in the order of `rest`. */
  lemma {:induction false} AbsorbKeepsInOrder(common: set<int>, rest: seq<set<int>>) returns (a: Absorption)
    ensures a == Absorb(common, rest)
    ensures forall j, l :: 0 <= j < l < |a.keptAt| ==> a.keptAt[j] < a.keptAt[l]
    decreases |rest|
  {
    a := Absorb(common, rest);
    if |rest| > 0 {
      var n := |rest| - 1;
      var front := rest[..n];
      var f := AbsorbKeepsInOrder(common, front);
      var g := AbsorbKeepsFromRest(common, front);
      if rest[n] !! f.grown {
        assert a.keptAt == f.keptAt + [n];
        assert forall j :: 0 <= j < |f.keptAt| ==> f.keptAt[j] < n;
      }
    }
  }

  /** `common` only grows, a set of `rest` that was not kept lies inside the grown set, and
      every kept set is disjoint from `common`. */
  lemma {:induction false} AbsorbMergesTheOthers(common: set<int>, rest: seq<set<int>>)
    ensures var a := Absorb(common, rest);
      && common <= a.grown
      && (forall i :: 0 <= i < |rest| && i !in a.keptAt ==> rest[i] <= a.grown)
      && (forall j :: 0 <= j < |a.kept| ==> a.kept[j] !! common)
    decreases |rest|
  {
    if |rest| > 0 {
      var n := |rest| - 1;
      var front := Absorb(common, rest[..n]);
      AbsorbMergesTheOthers(common, rest[..n]);
      assert forall i :: 0 <= i < n ==> rest[..n][i] == rest[i];
      var a := Absorb(common, rest);
      var x := rest[n];
      if x !! front.grown {
        assert forall j :: 0 <= j < |front.kept| ==> a.kept[j] == front.kept[j];
        assert a.kept[|front.kept|] == x && x !! common;
      }
    }
  }

  /** Every set of `rest` that meets `common` is merged into it. */
  lemma AbsorbMergesMeetingSets(common: set<int>, rest: seq<set<int>>)
    ensures var a := Absorb(common, rest);
      forall i :: 0 <= i < |rest| && !(rest[i] !! common) ==> rest[i] <= a.grown
  {
    var a := AbsorbKeepsFromRest(common, rest);
    AbsorbMergesTheOthers(common, rest);
  }

  /** What the `for x in rest` loop achieves: `grown` is `common` enlarged by the later sets
      that meet it, `kept` holds the others, and nothing is lost. Without a merge, `grown` is
      `common` and every later set is disjoint from it. */
  ghost predicate Absorbed(pairs: seq<seq<int>>, common: set<int>, rest: seq<set<int>>,
                           grown: set<int>, kept: seq<set<int>>, merged: bool)
  {
    && InternallyConnected(pairs, grown) && AllNonEmpty(kept) && AllConnected(pairs, kept)
    && grown + Union(kept) == common + Union(rest)
    && common <= grown
    && (forall i :: 0 <= i < |rest| ==> rest[i] <= grown || Covered(rest[i], kept))
    && |kept| + (if merged then 1 else 0) <= |rest|
    && (!merged ==> grown == common && kept == rest && forall i :: 0 <= i < |rest| ==> rest[i] !! common)
  }

  /** The grown set stays connected and the kept sets are non-empty and connected. */
  lemma {:induction false} AbsorbConnected(pairs: seq<seq<int>>, common: set<int>, rest: seq<set<int>>)
    requires InternallyConnected(pairs, common)
    requires AllNonEmpty(rest) && AllConnected(pairs, rest)
    ensures var a := Absorb(common, rest);
      InternallyConnected(pairs, a.grown) && AllNonEmpty(a.kept) && AllConnected(pairs, a.kept)
    decreases |rest|
  {
    if |rest| > 0 {
      var n := |rest| - 1;
      var front, x := rest[..n], rest[n];
      assert forall i :: 0 <= i < n ==> front[i] == rest[i];
      AbsorbConnected(pairs, common, front);
      var f := Absorb(common, front);
      var a := Absorb(common, rest);
      if x !! f.grown {
        assert a.grown == f.grown && a.kept == f.kept + [x];
        assert x != {} && InternallyConnected(pairs, x) by {
          assert x == rest[n];
        }
        forall j | 0 <= j < |a.kept| ensures a.kept[j] != {} && InternallyConnected(pairs, a.kept[j]) {
          if j < |f.kept| {
            assert a.kept[j] == f.kept[j];
          }
        }
      } else {
        assert a.grown == f.grown + x && a.kept == f.kept;
        MergeConnected(pairs, f.grown, x);
      }
    }
  }

  /** No point is lost: the grown set and the kept sets hold `common` and every set of `rest`. */
  lemma {:induction false} AbsorbLosesNothing(common: set<int>, rest: seq<set<int>>)
    ensures var a := Absorb(common, rest);
      a.grown + Union(a.kept) == common + Union(rest)
    decreases |rest|
  {
    if |rest| > 0 {
      var n := |rest| - 1;
      var front, x := rest[..n], rest[n];
      assert rest == front + [x];
      AbsorbLosesNothing(common, front);
      UnionAppend(front, x);
      var f := Absorb(common, front);
      if x !! f.grown {
        UnionAppend(f.kept, x);
      }
    }
  }

  /** Without a merge, `common` is unchanged, every set is kept and each is disjoint from it. */
  lemma {:induction false} AbsorbWithoutMerge(common: set<int>, rest: seq<set<int>>)
    ensures var a := Absorb(common, rest);
      !a.merged ==> a.grown == common && a.kept == rest && forall i :: 0 <= i < |rest| ==> rest[i] !! common
    decreases |rest|
  {
    if |rest| > 0 {
      var n := |rest| - 1;
      var front, x := rest[..n], rest[n];
      assert rest == front + [x];
      assert forall i :: 0 <= i < n ==> front[i] == rest[i];
      AbsorbWithoutMerge(common, front);
    }
  }

  /** The fold keeps what the loop promises: the grown set stays connected, the kept sets are
      non-empty and connected, no point is lost, and without a merge nothing changed. */
  lemma AbsorbIsAbsorbed(pairs: seq<seq<int>>, common: set<int>, rest: seq<set<int>>)
    requires InternallyConnected(pairs, common)
    requires AllNonEmpty(rest) && AllConnected(pairs, rest)
    ensures var a := Absorb(common, rest);
      Absorbed(pairs, common, rest, a.grown, a.kept, a.merged)
  {
    var a := AbsorbKeepsFromRest(common, rest);
    AbsorbConnected(pairs, common, rest);
    AbsorbLosesNothing(common, rest);
    AbsorbWithoutMerge(common, rest);
    AbsorbMergesTheOthers(common, rest);
    forall i | 0 <= i < |rest| ensures rest[i] <= a.grown || Covered(rest[i], a.kept) {
      if i in a.keptAt {
        var j :| 0 <= j < |a.keptAt| && a.keptAt[j] == i;
        assert a.kept[j] == rest[i];
      }
    }
  }

  /** The `for x in rest` loop: every later set that meets `common` is merged into it; the
      others are kept, in order, for the next round of the inner loop. */
  method AbsorbOverlapping(ghost pairs: seq<seq<int>>, common: set<int>, rest: seq<set<int>>)
    returns (grown: set<int>, kept: seq<set<int>>, merged: bool)
    requires common != {} && InternallyConnected(pairs, common)
    requires AllNonEmpty(rest) && AllConnected(pairs, rest)
    ensures grown == Absorb(common, rest).grown && kept == Absorb(common, rest).kept && merged == Absorb(common, rest).merged
    ensures Absorbed(pairs, common, rest, grown, kept, merged)
  {
    grown, kept, merged := common, [], false;
    ghost var keptAt: seq<nat> := [];
    for j := 0 to |rest|
      invariant Absorb(common, rest[..j]) == Absorption(grown, kept, keptAt, merged)
    {
      var x := rest[j];
      assert rest[..j + 1][..j] == rest[..j] && rest[..j + 1][j] == x;
      if x !! grown {
        kept := kept + [x];
        keptAt := keptAt + [j];
      } else {
        grown := grown + x;
        merged := true;
      }
    }
    assert rest[..|rest|] == rest;
    AbsorbIsAbsorbed(pairs, common, rest);
  }

  /** What holds between rounds of the inner `while sets` loop: `results` holds the finished
      sets, `sets` those still to be taken, and together they cover the input. Without a merge
      so far, they are the input itself and the finished sets are disjoint from all others. */
  ghost predicate PassInvariant(pairs: seq<seq<int>>, input: seq<set<int>>, results: seq<set<int>>,
                                sets: seq<set<int>>, merged: bool)
  {
    && AllNonEmpty(results) && AllNonEmpty(sets)
    && AllConnected(pairs, results) && AllConnected(pairs, sets)
    && Union(results) + Union(sets) == Union(input)
    && Refines(input, results + sets)
    && |results| + |sets| + (if merged then 1 else 0) <= |input|
    && (!merged ==> results + sets == input && DisjointAll(results) && CrossDisjoint(results, sets))
  }

  /** A grown set is a finished set as good as the others. */
  lemma FinishedSetsStep(pairs: seq<seq<int>>, results: seq<set<int>>, common: set<int>, grown: set<int>)
    requires AllNonEmpty(results) && AllConnected(pairs, results)
    requires common != {} && common <= grown && InternallyConnected(pairs, grown)
    ensures AllNonEmpty(results + [grown]) && AllConnected(pairs, results + [grown])
  {
    var done := results + [grown];
    assert forall i :: 0 <= i < |results| ==> done[i] == results[i];
  }

  /** Taking the first set and growing it loses no point. */
  lemma UnionStep(results: seq<set<int>>, sets: seq<set<int>>, grown: set<int>, kept: seq<set<int>>, all: set<int>)
    requires sets != [] && Union(results) + Union(sets) == all
    requires grown + Union(kept) == sets[0] + Union(sets[1..])
    ensures Union(results + [grown]) + Union(kept) == all
  {
    UnionAppend(results, grown);
  }

  lemma PassStep(pairs: seq<seq<int>>, input: seq<set<int>>, results: seq<set<int>>, sets: seq<set<int>>,
                 merged: bool, grown: set<int>, kept: seq<set<int>>, mergedHere: bool)
    requires PassInvariant(pairs, input, results, sets, merged) && sets != []
    requires Absorbed(pairs, sets[0], sets[1..], grown, kept, mergedHere)
    ensures PassInvariant(pairs, input, results + [grown], kept, merged || mergedHere)
  {
    var common, rest := sets[0], sets[1..];
    assert sets == [common] + rest;
    FinishedSetsStep(pairs, results, common, grown);
    UnionStep(results, sets, grown, kept, Union(input));
    RefinesPassStep(input, results, common, rest, grown, kept);
    if !mergedHere && !merged {
      UnmergedStep(input, results, sets, grown, kept);
    }
  }

  /** Without any merge, the finished sets stay the front of the input and disjoint. */
  lemma UnmergedStep(input: seq<set<int>>, results: seq<set<int>>, sets: seq<set<int>>, grown: set<int>, kept: seq<set<int>>)
    requires sets != [] && results + sets == input && DisjointAll(results) && CrossDisjoint(results, sets)
    requires grown == sets[0] && kept == sets[1..] && forall i :: 0 <= i < |kept| ==> kept[i] !! grown
    ensures results + [grown] + kept == input
    ensures DisjointAll(results + [grown]) && CrossDisjoint(results + [grown], kept)
  {
    assert sets == [grown] + kept;
    ExtendDisjoint(results, grown, kept);
    ConcatAssociative(results, [grown], kept);
  }

  /** One pass of the outer `while merged` loop: the inner `while sets` loop. Each set is taken
      in turn as `common` and grown by the later sets that meet it. */
  method MergePass(ghost pairs: seq<seq<int>>, input: seq<set<int>>) returns (results: seq<set<int>>, merged: bool)
    requires AllNonEmpty(input) && AllConnected(pairs, input)
    ensures AllNonEmpty(results) && AllConnected(pairs, results)
    ensures Union(results) == Union(input)
    ensures Refines(input, results)
    ensures |results| <= |input|
    ensures merged ==> |results| < |input|
    ensures !merged ==> results == input && DisjointAll(results)
  {
    var sets := input;
    merged := false;
    results := [];
    RefinesReflexive(input);
    assert results + sets == input;
    while sets != []
      invariant PassInvariant(pairs, input, results, sets, merged)
      decreases |sets|
    {
      var grown, kept, mergedHere := AbsorbOverlapping(pairs, sets[0], sets[1..]);
      PassStep(pairs, input, results, sets, merged, grown, kept, mergedHere);
      results, sets := results + [grown], kept;
      merged := merged || mergedHere;
    }
    assert results + sets == results;
  }

  /** `merge_pairs_if_a_common_point_exists`: passes are repeated until one pass merges
      nothing. The result is a list of disjoint, non-empty groups whose union is the set of
      all paired indices, every input pair lies inside a group, the points of a group are
      connected through input pairs, and there are no more groups than non-empty pairs. The
      outer loop ends because every pass that merges makes the list shorter. */
  method MergePairsIfACommonPointExists(pairs: seq<seq<int>>) returns (sets: seq<set<int>>)
    ensures DisjointAll(sets)
    ensures AllNonEmpty(sets)
    ensures Union(sets) == PairElements(pairs)
    ensures forall k :: 0 <= k < |pairs| && pairs[k] != [] ==> Covered(Elems(pairs[k]), sets)
    ensures AllConnected(pairs, sets)
    ensures |sets| <= |NonEmptyPairSets(pairs)|
  {
    sets := NonEmptyPairSets(pairs);
    ghost var initial := sets;
    InitialSetsConnected(pairs);
    UnionOfNonEmptyPairSets(pairs);
    RefinesReflexive(initial);
    var merged := true;
    while merged
      invariant AllNonEmpty(sets) && AllConnected(pairs, sets)
      invariant Union(sets) == Union(initial)
      invariant Refines(initial, sets)
      invariant |sets| <= |initial|
      invariant !merged ==> DisjointAll(sets)
      decreases |sets| + (if merged then 1 else 0)
    {
      var results;
      results, merged := MergePass(pairs, sets);
      RefinesTransitive(initial, sets, results);
      sets := results;
    }
    forall k | 0 <= k < |pairs| && pairs[k] != []
      ensures Covered(Elems(pairs[k]), sets)
    {
      var i :| 0 <= i < |initial| && initial[i] == Elems(pairs[k]);
      assert Covered(initial[i], sets);
    }
  }

  // ---------------------------------------------------------------------------------------
  // Lemmas about the result

  lemma DisjointMember(ss: seq<set<int>>, i: int, j: int, x: int)
    requires DisjointAll(ss) && 0 <= i < |ss| && 0 <= j < |ss|
    requires x in ss[i] && x in ss[j]
    ensures i == j
  {
  }

  /** Every non-empty input pair lies inside exactly one group. */
  lemma PairInExactlyOneGroup(pairs: seq<seq<int>>, groups: seq<set<int>>, k: int)
    requires IsGrouping(pairs, groups)
    requires 0 <= k < |pairs| && pairs[k] != []
    ensures exists i :: 0 <= i < |groups| && Elems(pairs[k]) <= groups[i]
    ensures forall i, j :: 0 <= i < |groups| && 0 <= j < |groups| && Elems(pairs[k]) <= groups[i] && Elems(pairs[k]) <= groups[j] ==> i == j
  {
    assert pairs[k][0] in Elems(pairs[k]);
    forall i, j | 0 <= i < |groups| && 0 <= j < |groups| && Elems(pairs[k]) <= groups[i] && Elems(pairs[k]) <= groups[j]
      ensures i == j
    {
      DisjointMember(groups, i, j, pairs[k][0]);
    }
  }

  /** A chain of input pairs that starts in a group stays in that group. */
  lemma {:induction false} ChainStaysInGroup(pairs: seq<seq<int>>, groups: seq<set<int>>, i: int, path: seq<int>)
    requires IsGrouping(pairs, groups) && 0 <= i < |groups|
    requires |path| > 0 && path[0] in groups[i] && IsChain(pairs, path)
    ensures path[|path| - 1] in groups[i]
    decreases |path|
  {
    if |path| > 1 {
      assert Linked(pairs, path[0], path[1]);
      var k :| 0 <= k < |pairs| && path[0] in pairs[k] && path[1] in pairs[k];
      assert pairs[k] != [];
      var g :| 0 <= g < |groups| && Elems(pairs[k]) <= groups[g];
      DisjointMember(groups, i, g, path[0]);
      var tail := path[1..];
      forall m | 0 <= m < |tail| - 1 ensures Linked(pairs, tail[m], tail[m + 1]) {
        assert tail[m] == path[m + 1] && tail[m + 1] == path[m + 2];
      }
      ChainStaysInGroup(pairs, groups, i, tail);
    }
  }

  /** The groups are exactly the connected components: two paired points are in the same
      group if and only if a chain of input pairs connects them. */
  lemma SameGroupIffConnected(pairs: seq<seq<int>>, groups: seq<set<int>>, i: int, j: int, a: int, b: int)
    requires IsGrouping(pairs, groups)
    requires 0 <= i < |groups| && 0 <= j < |groups| && a in groups[i] && b in groups[j]
    ensures i == j <==> Connected(pairs, a, b)
  {
    if Connected(pairs, a, b) {
      var path :| |path| > 0 && path[0] == a && path[|path| - 1] == b && IsChain(pairs, path);
      ChainStaysInGroup(pairs, groups, i, path);
      DisjointMember(groups, i, j, b);
    }
    if i == j {
      assert InternallyConnected(pairs, groups[i]);
    }
  }

  /** No pairs, or only empty ones, give no groups. */
  lemma NoPairsNoGroups(pairs: seq<seq<int>>, groups: seq<set<int>>)
    requires IsGrouping(pairs, groups)
    requires forall k :: 0 <= k < |pairs| ==> pairs[k] == []
    ensures groups == []
  {
    NoElementsWithoutPairs(pairs);
  }

  // ---------------------------------------------------------------------------------------
  // Helper lemmas

  lemma {:induction false} NoElementsWithoutPairs(pairs: seq<seq<int>>)
    requires forall k :: 0 <= k < |pairs| ==> pairs[k] == []
    ensures PairElements(pairs) == {}
    decreases |pairs|
  {
    if |pairs| > 0 {
      NoElementsWithoutPairs(pairs[1..]);
    }
  }


  lemma {:induction false} UnionAppend(ss: seq<set<int>>, x: set<int>)
    ensures Union(ss + [x]) == Union(ss) + x
    decreases |ss|
  {
    if |ss| > 0 {
      assert (ss + [x])[1..] == ss[1..] + [x];
      UnionAppend(ss[1..], x);
    }
  }

  lemma {:induction false} UnionOfNonEmptyPairSets(pairs: seq<seq<int>>)
    ensures Union(NonEmptyPairSets(pairs)) == PairElements(pairs)
    decreases |pairs|
  {
    if |pairs| > 0 {
      UnionOfNonEmptyPairSets(pairs[1..]);
      if pairs[0] != [] {
        assert ([Elems(pairs[0])] + NonEmptyPairSets(pairs[1..]))[1..] == NonEmptyPairSets(pairs[1..]);
      }
    }
  }

  lemma CoveredAppend(s: set<int>, ss: seq<set<int>>, x: set<int>)
    requires Covered(s, ss) || s <= x
    ensures Covered(s, ss + [x])
  {
    if s <= x {
      assert (ss + [x])[|ss|] == x;
    } else {
      var i :| 0 <= i < |ss| && s <= ss[i];
      assert (ss + [x])[i] == ss[i];
    }
  }

  lemma CoveredSplit(s: set<int>, ss: seq<set<int>>)
    requires Covered(s, ss)
    ensures s <= ss[0] || Covered(s, ss[1..])
  {
    var i :| 0 <= i < |ss| && s <= ss[i];
    if i > 0 {
      assert ss[1..][i - 1] == ss[i];
    }
  }

  lemma RefinesReflexive(a: seq<set<int>>)
    ensures Refines(a, a)
  {
    forall i | 0 <= i < |a| ensures Covered(a[i], a) {
      assert a[i] <= a[i];
    }
  }

  lemma RefinesTransitive(a: seq<set<int>>, b: seq<set<int>>, c: seq<set<int>>)
    requires Refines(a, b) && Refines(b, c)
    ensures Refines(a, c)
  {
    forall i | 0 <= i < |a| ensures Covered(a[i], c) {
      var j :| 0 <= j < |b| && a[i] <= b[j];
      var l :| 0 <= l < |c| && b[j] <= c[l];
    }
  }

  lemma ConcatAssociative(a: seq<set<int>>, b: seq<set<int>>, c: seq<set<int>>)
    ensures a + b + c == a + (b + c)
  {
  }

  /** One round of the inner loop keeps every input set inside some set of `results + sets`. */
  lemma RefinesPassStep(input: seq<set<int>>, results: seq<set<int>>, common: set<int>, rest: seq<set<int>>,
                        grown: set<int>, kept: seq<set<int>>)
    requires Refines(input, results + ([common] + rest))
    requires common <= grown
    requires forall i :: 0 <= i < |rest| ==> rest[i] <= grown || Covered(rest[i], kept)
    ensures Refines(input, results + [grown] + kept)
  {
    var before := results + ([common] + rest);
    var after := results + [grown] + kept;
    forall i | 0 <= i < |input| ensures Covered(input[i], after) {
      var m :| 0 <= m < |before| && input[i] <= before[m];
      if m < |results| {
        assert after[m] == before[m];
      } else if m == |results| {
        assert after[m] == grown;
      } else {
        var r := rest[m - |results| - 1];
        assert r == before[m];
        if r <= grown {
          assert after[|results|] == grown;
        } else {
          var l :| 0 <= l < |kept| && r <= kept[l];
          assert after[|results| + 1 + l] == kept[l];
        }
      }
    }
  }

  lemma ExtendDisjoint(results: seq<set<int>>, common: set<int>, rest: seq<set<int>>)
    requires DisjointAll(results) && CrossDisjoint(results, [common] + rest)
    requires forall i :: 0 <= i < |rest| ==> rest[i] !! common
    ensures DisjointAll(results + [common]) && CrossDisjoint(results + [common], rest)
  {
    var r := results + [common];
    forall i, j | 0 <= i < j < |r| ensures r[i] !! r[j] {
      if j == |results| {
        assert ([common] + rest)[0] == common;
      }
    }
    forall i, j | 0 <= i < |r| && 0 <= j < |rest| ensures r[i] !! rest[j] {
      if i < |results| {
        assert ([common] + rest)[j + 1] == rest[j];
      }
    }
  }

  lemma ChainOfTwo(pairs: seq<seq<int>>, a: int, b: int)
    requires Linked(pairs, a, b)
    ensures Connected(pairs, a, b)
  {
    var path := [a, b];
    assert IsChain(pairs, path);
  }

  lemma ConnectedTransitive(pairs: seq<seq<int>>, a: int, b: int, c: int)
    requires Connected(pairs, a, b) && Connected(pairs, b, c)
    ensures Connected(pairs, a, c)
  {
    var p :| |p| > 0 && p[0] == a && p[|p| - 1] == b && IsChain(pairs, p);
    var q :| |q| > 0 && q[0] == b && q[|q| - 1] == c && IsChain(pairs, q);
    var path := p + q[1..];
    forall m | 0 <= m < |path| - 1 ensures Linked(pairs, path[m], path[m + 1]) {
      if m < |p| - 1 {
        assert path[m] == p[m] && path[m + 1] == p[m + 1];
      } else {
        assert path[m] == q[m - |p| + 1] && path[m + 1] == q[m - |p| + 2];
      }
    }
    assert path[|path| - 1] == c;
  }

  lemma NoCommonElementDisjoint(s: set<int>, t: set<int>)
    ensures (forall c :: !(c in s && c in t)) ==> s !! t
  {
    if forall c :: !(c in s && c in t) {
      assert s !! t;
    }
  }

  lemma CommonElement(s: set<int>, t: set<int>)
    requires !(s !! t)
    ensures exists c :: c in s && c in t
  {
    NoCommonElementDisjoint(s, t);
  }

  lemma MergeConnected(pairs: seq<seq<int>>, s: set<int>, t: set<int>)
    requires InternallyConnected(pairs, s) && InternallyConnected(pairs, t)
    requires !(s !! t)
    ensures InternallyConnected(pairs, s + t)
  {
    CommonElement(s, t);
    var c :| c in s && c in t;
    forall a, b | a in s + t && b in s + t ensures Connected(pairs, a, b) {
      assert Connected(pairs, a, c);
      assert Connected(pairs, c, b);
      ConnectedTransitive(pairs, a, c, b);
    }
  }

  lemma InitialSetsConnected(pairs: seq<seq<int>>)
    ensures AllConnected(pairs, NonEmptyPairSets(pairs))
  {
    var sets := NonEmptyPairSets(pairs);
    forall i | 0 <= i < |sets| ensures InternallyConnected(pairs, sets[i]) {
      var k :| 0 <= k < |pairs| && sets[i] == Elems(pairs[k]);
      forall a, b | a in sets[i] && b in sets[i] ensures Connected(pairs, a, b) {
        assert Linked(pairs, a, b);
        ChainOfTwo(pairs, a, b);
      }
    }
  }
}
