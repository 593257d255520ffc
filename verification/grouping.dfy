/** The grouping decision of the duplicate search as a pure left fold over
    `All()`, and what it guarantees: which items seed groups, what each group
    holds, and what the skip list contains. */
module Grouping {
  import opened Metric
  import opened Index

  function Ids(items: seq<Item>): (ids: seq<nat>)
    ensures |ids| == |items|
    ensures forall k :: 0 <= k < |items| ==> ids[k] == items[k].id
  {
    seq(|items|, k requires 0 <= k < |items| => items[k].id)
  }

  function Paths(files: FileMapper, items: seq<Item>): (paths: seq<string>)
    ensures |paths| == |items|
    ensures forall k :: 0 <= k < |items| ==> paths[k] == ByID(files, items[k].id)
  {
    seq(|items|, k requires 0 <= k < |items| => ByID(files, items[k].id))
  }

  /** The IDs a group seeded by `seed` adds to the skip list: the seed's own,
      then those of its matches in the order the query returned them. */
  function GroupIds(t: Tree, r: int, seed: Item): seq<nat>
  {
    [seed.id] + Ids(Within(t, seed, r))
  }

  /** The group emitted for `seed`: its path, then the paths of its matches. */
  function GroupPaths(t: Tree, r: int, files: FileMapper, seed: Item): seq<string>
  {
    [ByID(files, seed.id)] + Paths(files, Within(t, seed, r))
  }

  /** The IDs of the groups of `seeds`, group after group. */
  function CoveredIds(t: Tree, r: int, seeds: seq<Item>): seq<nat>
    decreases |seeds|
  {
    if |seeds| == 0 then []
    else CoveredIds(t, r, seeds[..|seeds| - 1]) + GroupIds(t, r, seeds[|seeds| - 1])
  }

  /** The groups of `seeds`, in that order. */
  function Groups(t: Tree, r: int, files: FileMapper, seeds: seq<Item>): seq<seq<string>>
    decreases |seeds|
  {
    if |seeds| == 0 then []
    else Groups(t, r, files, seeds[..|seeds| - 1]) + [GroupPaths(t, r, files, seeds[|seeds| - 1])]
  }

  function SumLengths(groups: seq<seq<string>>): nat
    decreases |groups|
  {
    if |groups| == 0 then 0
    else SumLengths(groups[..|groups| - 1]) + |groups[|groups| - 1]|
  }

  /** The state of the pass: the skip list and the seeds met so far. */
  datatype Pass = Pass(skip: seq<nat>, seeds: seq<Item>)

  /** The visit of one item: an item whose ID is in the skip list, or whose
      query finds nothing, changes nothing; otherwise it seeds a group and the
      group's IDs join the skip list. Matches are not checked against the
      skip list. */
  function Step(t: Tree, r: int, p: Pass, x: Item): Pass
  {
    if x.id in p.skip || |Within(t, x, r)| == 0 then p
    else Pass(p.skip + GroupIds(t, r, x), p.seeds + [x])
  }

  /** The pass after visiting `items`, in order, from an empty skip list. */
  function Scan(t: Tree, r: int, items: seq<Item>): Pass
    decreases |items|
  {
    if |items| == 0 then Pass([], [])
    else Step(t, r, Scan(t, r, items[..|items| - 1]), items[|items| - 1])
  }

  /** The seeds of a whole pass over `All()`. */
  function Seeds(t: Tree, r: int): seq<Item>
  {
    Scan(t, r, t.all).seeds
  }

  // ---------------------------------------------------------------------------
  // The skip list
  // ---------------------------------------------------------------------------

  /** After every visit the skip list holds exactly the IDs of the groups
      emitted so far: each seed followed by its matches, group after group. */
  lemma {:induction false} SkipIsCovered(t: Tree, r: int, items: seq<Item>)
    ensures Scan(t, r, items).skip == CoveredIds(t, r, Scan(t, r, items).seeds)
    decreases |items|
  {
    if |items| != 0 {
      var p := Scan(t, r, items[..|items| - 1]);
      SkipIsCovered(t, r, items[..|items| - 1]);
      var x := items[|items| - 1];
      if !(x.id in p.skip || |Within(t, x, r)| == 0) {
        assert (p.seeds + [x])[..|p.seeds|] == p.seeds;
      }
    }
  }

  /** Every ID of the group of `seeds[k]` is in the IDs covered by `seeds`. */
  lemma {:induction false} CoveredIdsContains(t: Tree, r: int, seeds: seq<Item>, k: nat)
    requires k < |seeds|
    ensures forall id :: id in GroupIds(t, r, seeds[k]) ==> id in CoveredIds(t, r, seeds)
    decreases |seeds|
  {
    if k < |seeds| - 1 {
      CoveredIdsContains(t, r, seeds[..|seeds| - 1], k);
    }
  }

  /** A covered ID came from the group of some seed. */
  lemma {:induction false} CoveredIdsMember(t: Tree, r: int, seeds: seq<Item>, id: nat)
    requires id in CoveredIds(t, r, seeds)
    ensures exists k :: 0 <= k < |seeds| && id in GroupIds(t, r, seeds[k])
    decreases |seeds|
  {
    var n := |seeds|;
    if id !in GroupIds(t, r, seeds[n - 1]) {
      CoveredIdsMember(t, r, seeds[..n - 1], id);
      var k :| 0 <= k < n - 1 && id in GroupIds(t, r, seeds[..n - 1][k]);
      assert seeds[..n - 1][k] == seeds[k];
    }
  }

  /** The groups of `seeds` are one per seed, in order. */
  lemma {:induction false} GroupsAt(t: Tree, r: int, files: FileMapper, seeds: seq<Item>)
    ensures |Groups(t, r, files, seeds)| == |seeds|
    ensures forall k :: 0 <= k < |seeds| ==> Groups(t, r, files, seeds)[k] == GroupPaths(t, r, files, seeds[k])
    decreases |seeds|
  {
    if |seeds| != 0 {
      var n := |seeds|;
      GroupsAt(t, r, files, seeds[..n - 1]);
      assert Groups(t, r, files, seeds)[..n - 1] == Groups(t, r, files, seeds[..n - 1]);
    }
  }

  /** The groups of `seeds` hold, all together, as many entries as they
      contribute IDs to the skip list. */
  lemma {:induction false} GroupsTotal(t: Tree, r: int, files: FileMapper, seeds: seq<Item>)
    ensures SumLengths(Groups(t, r, files, seeds)) == |CoveredIds(t, r, seeds)|
    decreases |seeds|
  {
    if |seeds| != 0 {
      var n := |seeds|;
      var gs := Groups(t, r, files, seeds);
      GroupsTotal(t, r, files, seeds[..n - 1]);
      assert gs[..|gs| - 1] == Groups(t, r, files, seeds[..n - 1]);
      assert |gs[|gs| - 1]| == |GroupIds(t, r, seeds[n - 1])|;
    }
  }

  // ---------------------------------------------------------------------------
  // The seeds
  // ---------------------------------------------------------------------------

  /** Every seed is a visited item whose query has at least one match. */
  lemma {:induction false} SeedsAreMatched(t: Tree, r: int, items: seq<Item>)
    ensures forall s :: s in Scan(t, r, items).seeds ==> s in items && |Within(t, s, r)| > 0
    decreases |items|
  {
    if |items| != 0 {
      SeedsAreMatched(t, r, items[..|items| - 1]);
      assert forall s :: s in items[..|items| - 1] ==> s in items;
    }
  }

  /** No seed's ID is among the IDs of the groups emitted before its own. */
  predicate FreshSeeds(t: Tree, r: int, seeds: seq<Item>)
  {
    forall k :: 0 <= k < |seeds| ==> seeds[k].id !in CoveredIds(t, r, seeds[..k])
  }

  /** An item whose ID is already in the skip list never seeds a group. */
  lemma {:induction false} SeedsAvoidEarlierGroups(t: Tree, r: int, items: seq<Item>)
    ensures FreshSeeds(t, r, Scan(t, r, items).seeds)
    decreases |items|
  {
    if |items| != 0 {
      var p := Scan(t, r, items[..|items| - 1]);
      var x := items[|items| - 1];
      SeedsAvoidEarlierGroups(t, r, items[..|items| - 1]);
      if !(x.id in p.skip || |Within(t, x, r)| == 0) {
        SkipIsCovered(t, r, items[..|items| - 1]);
        var s := p.seeds + [x];
        forall k | 0 <= k < |s|
          ensures s[k].id !in CoveredIds(t, r, s[..k])
        {
          if k < |p.seeds| {
            assert s[..k] == p.seeds[..k];
          } else {
            assert s[..k] == p.seeds;
          }
        }
      }
    }
  }

  /** The seeds of one pass have pairwise distinct IDs. */
  lemma SeedsDistinct(t: Tree, r: int)
    ensures DistinctIds(Seeds(t, r))
  {
    var s := Seeds(t, r);
    SeedsAvoidEarlierGroups(t, r, t.all);
    forall i, j | 0 <= i < j < |s|
      ensures s[i].id != s[j].id
    {
      CoveredIdsContains(t, r, s[..j], i);
      assert s[..j][i] == s[i];
      assert s[i].id in GroupIds(t, r, s[i]);
      assert s[i].id in CoveredIds(t, r, s[..j]);
      assert s[j].id !in CoveredIds(t, r, s[..j]);
    }
  }

  /** `xs` is `ys` with some elements left out. */
  predicate SubseqOf(xs: seq<Item>, ys: seq<Item>)
    decreases |ys|
  {
    |xs| == 0 ||
    (|ys| > 0 &&
     ((xs[|xs| - 1] == ys[|ys| - 1] && SubseqOf(xs[..|xs| - 1], ys[..|ys| - 1])) ||
      SubseqOf(xs, ys[..|ys| - 1])))
  }

  /** Seeds, and so groups, come out in the order the items are visited. */
  lemma {:induction false} SeedsInOrder(t: Tree, r: int, items: seq<Item>)
    ensures SubseqOf(Scan(t, r, items).seeds, items)
    decreases |items|
  {
    if |items| != 0 {
      var p := Scan(t, r, items[..|items| - 1]);
      SeedsInOrder(t, r, items[..|items| - 1]);
      var x := items[|items| - 1];
      if !(x.id in p.skip || |Within(t, x, r)| == 0) {
        assert (p.seeds + [x])[..|p.seeds|] == p.seeds;
      }
    }
  }

  /** Every visited item with a match ends up in the skip list: as a seed or as
      a member of some group. */
  lemma {:induction false} MatchedItemsGrouped(t: Tree, r: int, items: seq<Item>)
    ensures forall x :: x in items && |Within(t, x, r)| > 0 ==> x.id in Scan(t, r, items).skip
    decreases |items|
  {
    if |items| != 0 {
      var init := items[..|items| - 1];
      MatchedItemsGrouped(t, r, init);
      assert items == init + [items[|items| - 1]];
    }
  }

  /** Two items of a sequence with unique IDs and the same ID are the same item. */
  lemma SameId(items: seq<Item>, x: Item, y: Item)
    requires DistinctIds(items) && x in items && y in items && x.id == y.id
    ensures x == y
  {
    var i :| 0 <= i < |items| && items[i] == x;
    var j :| 0 <= j < |items| && items[j] == y;
    assert !(i < j) && !(j < i);
  }

  /** Matching is mutual: when `x` answers the query of `s`, `s` answers the
      query of `x`, the distance being symmetric. */
  lemma MatchIsMutual(t: Tree, r: int, s: Item, x: Item)
    requires s in t.all && x in Within(t, s, r)
    ensures s in Within(t, x, r)
  {
    DistanceSymmetric(s.hashes, x.hashes);
  }

  /** An item of the tree whose ID is covered by seeds with matches has a
      match of its own. */
  lemma CoveredItemMatched(t: Tree, r: int, seeds: seq<Item>, x: Item)
    requires DistinctIds(t.all) && x in t.all && x.id in CoveredIds(t, r, seeds)
    requires forall s :: s in seeds ==> s in t.all && |Within(t, s, r)| > 0
    ensures |Within(t, x, r)| > 0
  {
    CoveredIdsMember(t, r, seeds, x.id);
    var k :| 0 <= k < |seeds| && x.id in GroupIds(t, r, seeds[k]);
    var s := seeds[k];
    assert s in seeds;
    if x.id == s.id {
      SameId(t.all, x, s);
    } else {
      var found := Within(t, s, r);
      var j :| 0 <= j < |found| && Ids(found)[j] == x.id;
      var m := found[j];
      assert m in found;
      SameId(t.all, x, m);
      MatchIsMutual(t, r, s, x);
    }
  }

  /** An item of the tree is in some emitted group exactly when its own query
      has a match; in particular an item without matches is in no group. */
  lemma GroupedIffMatched(t: Tree, r: int)
    requires DistinctIds(t.all)
    ensures forall x :: x in t.all ==>
      (x.id in CoveredIds(t, r, Seeds(t, r)) <==> |Within(t, x, r)| > 0)
  {
    var seeds := Seeds(t, r);
    MatchedItemsGrouped(t, r, t.all);
    SkipIsCovered(t, r, t.all);
    SeedsAreMatched(t, r, t.all);
    forall x | x in t.all && x.id in CoveredIds(t, r, seeds)
      ensures |Within(t, x, r)| > 0
    {
      CoveredItemMatched(t, r, seeds, x);
    }
  }

  // ---------------------------------------------------------------------------
  // Small scenarios
  // ---------------------------------------------------------------------------

  /** Two images with identical fingerprints form exactly one group of two,
      seeded by the first, whatever the non-negative threshold. */
  lemma IdenticalPair(a: Item, b: Item, r: int)
    requires a.id != b.id && a.hashes == b.hashes && r >= 0
    ensures Seeds(Tree([a, b]), r) == [a]
    ensures GroupIds(Tree([a, b]), r, a) == [a.id, b.id]
  {
    var t := Tree([a, b]);
    DistanceSelf(a.hashes);
    assert [a, b][1..] == [b];
    assert [b][1..] == [];
    assert Within(Tree([b]), a, r) == [b];
    assert Within(t, a, r) == [b];
    assert GroupIds(t, r, a) == [a.id, b.id];
    assert [a, b][..1] == [a];
    assert [a][..0] == [];
    assert Scan(t, r, [a]) == Pass([a.id, b.id], [a]);
  }

  /** The distances of the example below: d(A,B) = d(B,C) = 1, d(A,C) = 2. */
  lemma ExampleDistances()
    ensures Distance([0], [1]) == 1 && Distance([3], [1]) == 1 && Distance([0], [3]) == 2 && Distance([3], [0]) == 2
  {
    assert BitDiff(0, 0) == 0;
    assert BitDiff(0, 1) == 1;
    assert BitDiff(1, 1) == 0;
    assert BitDiff(3, 1) == 1;
    assert BitDiff(0, 3) == 2;
    assert BitDiff(3, 0) == 2;
    var p0, p1, p3: seq<U64> := [0], [1], [3];
    assert p0[1..] == p1[1..] == p3[1..] == [];
  }

  /** The queries of the example below: A and C each match only B. */
  lemma ExampleQueries(a: Item, b: Item, c: Item)
    requires a == Item(0, [0]) && b == Item(1, [1]) && c == Item(2, [3])
    ensures Within(Tree([a, b, c]), a, 1) == [b]
    ensures Within(Tree([a, b, c]), c, 1) == [b]
  {
    ExampleDistances();
    assert [a, b, c][1..] == [b, c];
    assert [b, c][1..] == [c];
    assert [c][1..] == [];
    assert Within(Tree([c]), a, 1) == [];
    assert Within(Tree([b, c]), a, 1) == [b];
    assert Within(Tree([c]), c, 1) == [];
    assert Within(Tree([b, c]), c, 1) == [b];
  }

  /** Grouping is not exclusive: with d(A,B) = d(B,C) = 1, d(A,C) = 2 and
      threshold 1, visiting A, B, C emits the groups of A and of C, and B is
      a member of both. */
  lemma MembershipNotExclusive()
    ensures var a, b, c := Item(0, [0]), Item(1, [1]), Item(2, [3]);
      var t := Tree([a, b, c]);
      && Seeds(t, 1) == [a, c]
      && b.id in GroupIds(t, 1, a)
      && b.id in GroupIds(t, 1, c)
  {
    var a, b, c := Item(0, [0]), Item(1, [1]), Item(2, [3]);
    var t := Tree([a, b, c]);
    ExampleQueries(a, b, c);
    assert GroupIds(t, 1, a) == [0, 1];
    assert GroupIds(t, 1, c) == [2, 1];
    assert [a, b, c][..2] == [a, b];
    assert [a, b][..1] == [a];
    assert [a][..0] == [];
    assert Step(t, 1, Pass([], []), a) == Pass([0, 1], [a]);
    assert Scan(t, 1, [a]) == Pass([0, 1], [a]);
    assert Step(t, 1, Pass([0, 1], [a]), b) == Pass([0, 1], [a]);
    assert Scan(t, 1, [a, b]) == Pass([0, 1], [a]);
    assert Step(t, 1, Pass([0, 1], [a]), c) == Pass([0, 1, 2, 1], [a, c]);
    assert Scan(t, 1, [a, b, c]) == Pass([0, 1, 2, 1], [a, c]);
  }
}
