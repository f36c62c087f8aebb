/** The two ways the repository drives the iterator: a plain scan with
    `hasNext`/`next`, and the remove-all loop of the benchmark that calls
    `next` and then `remove` until `hasNext` is false. */
module Clients {
  import Trees
  import opened Arena
  import opened Bst

  /** A scan of a fresh iterator returns every element exactly once, in
      strictly increasing order. */
  method Scan(t: BinarySearchTree) returns (xs: seq<int>)
    requires t.Valid()
    ensures xs == Trees.Inorder(View(t.shape))
    ensures Trees.Increasing(xs)
    ensures forall y :: y in xs <==> y in t.Elements()
  {
    ghost var all := Trees.Inorder(View(t.shape));
    var it := new BinarySearchTreeIterator(t);
    xs := [];
    while it.HasNext()
      invariant fresh(it) && it.tree == t && it.Valid()
      invariant xs + it.Remaining() == all
      decreases |it.Remaining()|
    {
      xs := Pull(it, xs, all);
    }
    assert xs + [] == xs;
    Trees.InorderIncreasing(View(t.shape));
  }

  /** One round of the scan: `next` moves the first owed value to the end
      of what was returned. */
  method Pull(it: BinarySearchTreeIterator, xs: seq<int>, ghost all: seq<int>) returns (ys: seq<int>)
    requires it.Valid() && it.Remaining() != [] && xs + it.Remaining() == all
    modifies it
    ensures it.Valid() && ys + it.Remaining() == all
    ensures |it.Remaining()| < old(|it.Remaining()|)
  {
    ghost var owed := it.Remaining();
    var r := it.Next();
    assert owed == [r.value] + it.Remaining();
    ys := xs + [r.value];
    assert ys + it.Remaining() == xs + owed;
  }

  /** `hasNext`, `next`, `remove` in a loop: each round takes out the value
      just returned and leaves the rest of the scan as it was, so the loop
      ends with the tree empty and `size` zero. */
  method RemoveAll(t: BinarySearchTree)
    requires t.Valid()
    modifies t
    ensures t.Valid() && t.Elements() == {} && t.size == 0
  {
    var it := new BinarySearchTreeIterator(t);
    while it.HasNext()
      invariant fresh(it) && it.tree == t && it.Valid()
      invariant it.done == [] && it.Remaining() == Trees.Inorder(View(t.shape))
      decreases |it.Remaining()|
    {
      var _ := it.Next();
      var _ := it.Remove();
    }
    assert Trees.Inorder(View(t.shape)) == [];
  }
}
