/** The interface of the index the duplicate search runs on: fingerprinted
    items, the tree seen through `All` and `Within`, and the file mapper that
    turns item IDs back into paths. */
module Index {
  import opened Metric

  /** A fingerprinted image; `id` is assigned by the file mapper. */
  datatype Item = Item(id: nat, hashes: seq<U64>)

  /** The tree, seen only through `All()`: every item, once each, in the
      tree's traversal order. */
  datatype Tree = Tree(all: seq<Item>)

  predicate DistinctIds(items: seq<Item>)
  {
    forall i, j :: 0 <= i < j < |items| ==> items[i].id != items[j].id
  }

  /** The radius query of the tree: the items of `All()`, in their order,
      other than `q` itself (by ID) that lie within distance `r` of `q`. The
      tree's pruned search is replaced by this filter, which returns the same
      items. */
  function Within(t: Tree, q: Item, r: int): (found: seq<Item>)
    ensures forall x {:trigger x in found} :: x in found <==> x in t.all && x.id != q.id && Distance(q.hashes, x.hashes) <= r
    ensures |found| <= |t.all|
    decreases |t.all|
  {
    if |t.all| == 0 then []
    else
      var rest := Within(Tree(t.all[1..]), q, r);
      if t.all[0].id != q.id && Distance(q.hashes, t.all[0].hashes) <= r then [t.all[0]] + rest
      else rest
  }

  /** Registry of paths by ID; `next` is the ID the next registration gets. */
  datatype FileMapper = FileMapper(paths: map<nat, string>, next: nat)

  /** Every registered ID was handed out before `next`. */
  predicate Consistent(files: FileMapper)
  {
    forall id :: id in files.paths ==> id < files.next
  }

  /** The path registered under `id`, or the empty string for an unknown ID. */
  function ByID(files: FileMapper, id: nat): string
  {
    if id in files.paths then files.paths[id] else ""
  }

  /** Registers `path` under a fresh ID, as creating an item does; returns the
      ID and the extended mapper. */
  function Register(files: FileMapper, path: string): (res: (nat, FileMapper))
    ensures ByID(res.1, res.0) == path
    ensures forall id :: id != res.0 ==> ByID(res.1, id) == ByID(files, id)
    ensures Consistent(files) ==> res.0 !in files.paths && Consistent(res.1)
  {
    (files.next, FileMapper(files.paths[files.next := path], files.next + 1))
  }
}
