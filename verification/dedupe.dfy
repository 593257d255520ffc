/** The sequential decision logic of the deduplicator: collecting the hashed
    items, grouping duplicates in one pass over the tree, and looking up the
    matches of a single target image. */
module Dedupe {
  import opened Wrappers
  import opened Metric
  import opened Fingerprint
  import opened Index
  import opened Grouping

  /** An error value; how errors are wrapped and joined is not modelled. */
  datatype Error = Error(message: string)

  /** What building the tree hands back: the tree over the images that loaded,
      the file mapper that named them, and the joined load errors, if any. */
  datatype Built = Built(tree: Tree, files: FileMapper, err: Option<Error>)

  /** The shape assumed of building the tree: IDs unique in the tree, handed
      out by the mapper below its next free ID, and registered there. Whether
      the concurrent registrations keep this up is decided by the file mapper,
      which is not part of this model. */
  predicate Registered(b: Built)
  {
    && DistinctIds(b.tree.all)
    && Consistent(b.files)
    && (forall x :: x in b.tree.all ==> x.id in b.files.paths)
  }

  // ---------------------------------------------------------------------------
  // Collecting the hashed items
  // ---------------------------------------------------------------------------

  /** The items actually present in a stream of possibly-nil results, in
      arrival order. */
  function Present(results: seq<Option<Item>>): (items: seq<Item>)
    ensures forall x :: x in items <==> Some(x) in results
    ensures |items| <= |results|
    decreases |results|
  {
    if |results| == 0 then []
    else
      var last := results[|results| - 1];
      var init := Present(results[..|results| - 1]);
      assert results == results[..|results| - 1] + [last];
      if last.Some? then init + [last.value] else init
  }

  /** The accumulation loop that ends building the tree: nil results are
      dropped, every other result is kept, in order. */
  method CollectItems(results: seq<Option<Item>>) returns (items: seq<Item>)
    ensures items == Present(results)
    ensures forall x :: x in items <==> Some(x) in results
  {
    items := [];
    var i := 0;
    while i < |results|
      invariant 0 <= i <= |results|
      invariant items == Present(results[..i])
    {
      assert results[..i + 1][..i] == results[..i];
      if results[i].Some? {
        items := items + [results[i].value];
      }
      i := i + 1;
    }
    assert results[..i] == results;
  }

  // ---------------------------------------------------------------------------
  // Duplicate groups
  // ---------------------------------------------------------------------------

  /** Fills one group: the seed's path, then each match's path in query
      order; `added` lists the IDs that join the skip list, in the same order. */
  method FormGroup(files: FileMapper, seed: Item, found: seq<Item>) returns (group: seq<string>, added: seq<nat>)
    ensures group == [ByID(files, seed.id)] + Paths(files, found)
    ensures added == [seed.id] + Ids(found)
  {
    group := [ByID(files, seed.id)];
    added := [seed.id];
    var j := 0;
    while j < |found|
      invariant 0 <= j <= |found|
      invariant group == [ByID(files, seed.id)] + Paths(files, found[..j])
      invariant added == [seed.id] + Ids(found[..j])
    {
      group := group + [ByID(files, found[j].id)];
      added := added + [found[j].id];
      j := j + 1;
    }
    assert found[..j] == found;
  }

  /** The visit of one item by the grouping loop: an item whose ID is in the
      skip list, or whose query finds nothing, changes nothing; otherwise its
      group is appended, its IDs join the skip list and its size the total. */
  method Visit(t: Tree, r: int, files: FileMapper, item: Item,
               skip: seq<nat>, duplicates: seq<seq<string>>, total: int)
    returns (skip': seq<nat>, duplicates': seq<seq<string>>, total': int)
    ensures item.id in skip || |Within(t, item, r)| == 0 ==>
      skip' == skip && duplicates' == duplicates && total' == total
    ensures item.id !in skip && |Within(t, item, r)| > 0 ==>
      && skip' == skip + GroupIds(t, r, item)
      && duplicates' == duplicates + [GroupPaths(t, r, files, item)]
      && total' == total + |Within(t, item, r)| + 1
  {
    skip', duplicates', total' := skip, duplicates, total;
    if item.id in skip {
      return;
    }
    var found := Within(t, item, r);
    if |found| <= 0 {
      return;
    }
    var group, added := FormGroup(files, item, found);
    skip' := skip + added;
    total' := total + |group|;
    duplicates' := duplicates + [group];
  }

  /** The loop over `All()`: visits every item once, in order, and returns
      the groups of the seeds it met and the number of IDs it skipped. */
  method GroupingPass(t: Tree, r: int, files: FileMapper) returns (duplicates: seq<seq<string>>, total: int)
    ensures duplicates == Groups(t, r, files, Seeds(t, r))
    ensures total == |Scan(t, r, t.all).skip|
  {
    var all := t.all;
    var skip: seq<nat> := [];
    ghost var seeds: seq<Item> := [];
    duplicates := [];
    total := 0;
    var i := 0;
    while i < |all|
      invariant 0 <= i <= |all|
      invariant Pass(skip, seeds) == Scan(t, r, all[..i])
      invariant duplicates == Groups(t, r, files, seeds)
      invariant total == |skip|
    {
      assert all[..i + 1][..i] == all[..i];
      var item := all[i];
      if item.id !in skip && |Within(t, item, r)| > 0 {
        assert (seeds + [item])[..|seeds|] == seeds;
        seeds := seeds + [item];
      }
      skip, duplicates, total := Visit(t, r, files, item, skip, duplicates, total);
      i := i + 1;
    }
    assert all[..i] == all;
  }

  /** Finding the duplicate groups among the images the tree was built over:
      one group per seed, in seed order; each group is the seed's path
      followed by its matches' paths; `total` counts all entries; the error
      is the one building the tree reported. */
  method Duplicates(hashType: HashType, built: Built) returns (duplicates: seq<seq<string>>, total: int, err: Option<Error>)
    ensures err == built.err
    ensures |duplicates| == |Seeds(built.tree, hashType.threshold)|
    ensures forall k :: 0 <= k < |duplicates| ==>
      duplicates[k] == GroupPaths(built.tree, hashType.threshold, built.files, Seeds(built.tree, hashType.threshold)[k])
    ensures forall k :: 0 <= k < |duplicates| ==> |duplicates[k]| >= 2
    ensures total == SumLengths(duplicates)
    ensures built.tree.all == [] ==> duplicates == [] && total == 0
  {
    var t, r := built.tree, hashType.threshold;
    err := built.err;
    duplicates, total := GroupingPass(t, r, built.files);
    var seeds := Seeds(t, r);
    GroupsAt(t, r, built.files, seeds);
    GroupsTotal(t, r, built.files, seeds);
    SkipIsCovered(t, r, t.all);
    SeedsAreMatched(t, r, t.all);
    forall k | 0 <= k < |duplicates|
      ensures |duplicates[k]| >= 2
    {
      assert seeds[k] in seeds;
      assert |duplicates[k]| == |Within(t, seeds[k], r)| + 1;
    }
  }

  // ---------------------------------------------------------------------------
  // Looking up one target
  // ---------------------------------------------------------------------------

  /** The outcome of a comparison: matching paths and the error returned. */
  datatype Matches = Matches(filenames: seq<string>, err: Option<Error>)

  /** Compare a target image against the candidates. `target` is the outcome
      of loading the target; `candidates` is what building the tree over the
      candidate files returns. */
  function Compare<Img>(hashType: HashType, hasher: Hasher<Img>, targetPath: string,
                        target: Result<Img, Error>, candidates: Built): (m: Matches)
    ensures target.Failure? ==> m.filenames == [] && m.err == Some(target.error)
    ensures target.Success? ==> m.err == candidates.err
    ensures target.Success? ==> |m.filenames| <= |candidates.tree.all|
    ensures target.Success? && Registered(candidates) ==>
      m.filenames == Paths(candidates.files,
        Within(candidates.tree, Item(candidates.files.next, ImageHash(hashType, hasher, target.value)), hashType.threshold))
  {
    match target
    case Failure(e) => Matches([], Some(e))
    case Success(img) =>
      var hashes := ImageHash(hashType, hasher, img);
      var (id, files) := Register(candidates.files, targetPath);
      var results := Within(candidates.tree, Item(id, hashes), hashType.threshold);
      RegisterKeepsPaths(candidates, targetPath, results);
      if |results| == 0 then Matches([], candidates.err)
      else Matches(Paths(files, results), candidates.err)
  }

  /** Registering the target changes the path of no candidate. */
  lemma RegisterKeepsPaths(candidates: Built, targetPath: string, items: seq<Item>)
    requires forall x :: x in items ==> x in candidates.tree.all
    ensures Registered(candidates) ==>
      Paths(Register(candidates.files, targetPath).1, items) == Paths(candidates.files, items)
  {
    if Registered(candidates) {
      var files := candidates.files;
      forall k | 0 <= k < |items|
        ensures ByID(Register(files, targetPath).1, items[k].id) == ByID(files, items[k].id)
      {
        assert items[k] in items;
        assert items[k].id in files.paths;
      }
    }
  }

  /** The query the comparison runs excludes no candidate: the target's
      fresh ID belongs to none of them. */
  lemma TargetQuery(tree: Tree, files: FileMapper, hashes: seq<U64>, r: int, x: Item)
    requires Consistent(files) && (forall y :: y in tree.all ==> y.id in files.paths)
    ensures x in Within(tree, Item(files.next, hashes), r) <==> x in tree.all && Distance(hashes, x.hashes) <= r
  {
    if x in tree.all {
      assert x.id in files.paths;
    }
  }

  /** With a loaded target, the comparison returns the paths of exactly the
      candidates within the threshold of the target's fingerprint: `near` is
      that set of candidates, and the filenames are their paths, one each,
      in query order. */
  lemma CompareFindsNear<Img>(hashType: HashType, hasher: Hasher<Img>, targetPath: string,
                              img: Img, candidates: Built)
    returns (near: seq<Item>)
    requires Registered(candidates)
    ensures Compare(hashType, hasher, targetPath, Success(img), candidates).filenames
              == Paths(candidates.files, near)
    ensures forall x :: x in near <==>
              x in candidates.tree.all && Distance(ImageHash(hashType, hasher, img), x.hashes) <= hashType.threshold
  {
    var hashes := ImageHash(hashType, hasher, img);
    var tree, files, r := candidates.tree, candidates.files, hashType.threshold;
    near := Within(tree, Item(files.next, hashes), r);
    forall x
      ensures x in near <==> x in tree.all && Distance(hashes, x.hashes) <= r
    {
      TargetQuery(tree, files, hashes, r, x);
    }
  }
}
