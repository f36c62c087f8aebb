/** `BinarySearchTree` of BinarySearchTree.kt over the node arena: `Node`
    objects are cells of `nodes`, references are ids, and the ghost field
    `shape` records the tree the fields hold. Elements are `int`s ordered by
    `<`, standing for `Comparable.compareTo`. */
module Bst {
  import Trees
  import opened Arena
  import Traversal

  datatype Error = NoSuchElement | IllegalState

  datatype Result<T> = Success(value: T) | Failure(error: Error)

  /** `find(start, value)`: go left or right by comparison until the value
      or an empty slot in its direction is met, and return the node there. */
  function Find(h: seq<Cell>, n: int, x: int, ghost s: Shape): (r: int)
    requires Rep(h, n, s) && s.Branch?
    ensures r in Ids(s) && 0 <= r < |h|
    ensures h[r].value == x || (x < h[r].value && h[r].left == Nil) || (h[r].value < x && h[r].right == Nil)
    ensures Trees.BST(View(s)) ==> (h[r].value == x <==> x in Trees.Elements(View(s)))
    decreases s
  {
    var c := h[n];
    RepIds(h, c.left, s.left);
    RepIds(h, c.right, s.right);
    assert View(s) == Trees.Node(View(s.left), c.value, View(s.right));
    if x == c.value then n
    else if x < c.value then
      if c.left == Nil then n else Find(h, c.left, x, s.left)
    else
      if c.right == Nil then n else Find(h, c.right, x, s.right)
  }

  /** `minNode`: the leftmost node, which holds the least value. */
  function MinNode(h: seq<Cell>, n: int, ghost s: Shape): (m: int)
    requires Rep(h, n, s) && s.Branch?
    ensures m in Ids(s) && 0 <= m < |h| && h[m].left == Nil
    ensures h[m].value == Trees.Min(View(s))
    decreases s
  {
    RepIds(h, h[n].left, s.left);
    assert View(s) == Trees.Node(View(s.left), h[n].value, View(s.right));
    if h[n].left == Nil then n else MinNode(h, h[n].left, s.left)
  }

  /** The node q with a new leaf holding x hung in the empty slot on x's side. */
  function Attach(q: Shape, x: int, id: int): Shape
    requires q.Branch?
  {
    if x < q.value then Branch(Branch(Empty, id, x, Empty), q.id, q.value, q.right)
    else Branch(q.left, q.id, q.value, Branch(Empty, id, x, Empty))
  }

  /** Hanging the new leaf at the node `find` stops at is `Trees.Insert`. */
  lemma {:induction false} AttachAtFind(h: seq<Cell>, n: int, x: int, s: Shape, id: int)
    requires Rep(h, n, s) && s.Branch? && Unique(s) && Trees.BST(View(s))
    requires x !in Trees.Elements(View(s))
    ensures var c := Find(h, n, x, s);
      c in Ids(s) && Sub(s, c).Branch? && View(ReplaceAt(s, c, Attach(Sub(s, c), x, id))) == Trees.Insert(View(s), x)
    decreases s
  {
    var c := Find(h, n, x, s);
    var cell := h[n];
    SubIn(s, c);
    if c != n {
      if x < cell.value {
        AttachAtFind(h, cell.left, x, s.left, id);
        ReplaceAtAbsent(s.right, c, Attach(Sub(s, c), x, id));
      } else {
        AttachAtFind(h, cell.right, x, s.right, id);
        ReplaceAtAbsent(s.left, c, Attach(Sub(s, c), x, id));
      }
    }
  }

  /** The arena after `add` hangs the new cell |h| below c = `find`'s node
      holds the tree `Trees.Insert` builds. */
  lemma AttachRep(h: seq<Cell>, h': seq<Cell>, root: int, s: Shape, x: int)
    requires Rep(h, root, s) && s.Branch? && Unique(s) && Trees.BST(View(s))
    requires x !in Trees.Elements(View(s))
    requires var c := Find(h, root, x, s);
      var h1 := h + [Cell(x, Nil, Nil)];
      h' == if x < h[c].value then h1[c := h1[c].(left := |h|)] else h1[c := h1[c].(right := |h|)]
    ensures var c := Find(h, root, x, s);
      && Sub(s, c).Branch?
      && var s' := ReplaceAt(s, c, Attach(Sub(s, c), x, |h|));
      && Rep(h', root, s') && Unique(s') && View(s') == Trees.Insert(View(s), x)
  {
    var c := Find(h, root, x, s);
    RepIds(h, root, s);
    RepSub(h, root, s, c);
    SubIn(s, c);
    var t := Attach(Sub(s, c), x, |h|);
    AttachCell(h, h', c, Sub(s, c), x);
    RepReplaceAt(h, h', root, s, c, t);
    ReplaceAtIds(s, c, t);
    AttachAtFind(h, root, x, s, |h|);
  }

  /** The cell c, holding q, with the new leaf |h| hung on x's side. */
  lemma AttachCell(h: seq<Cell>, h': seq<Cell>, c: int, q: Shape, x: int)
    requires Rep(h, c, q) && q.Branch? && Unique(q) && x != q.value
    requires x < q.value ==> q.left.Empty?
    requires q.value < x ==> q.right.Empty?
    requires var h1 := h + [Cell(x, Nil, Nil)];
      h' == if x < h[c].value then h1[c := h1[c].(left := |h|)] else h1[c := h1[c].(right := |h|)]
    ensures Rep(h', c, Attach(q, x, |h|))
    ensures Ids(Attach(q, x, |h|)) == Ids(q) + {|h|} && Unique(Attach(q, x, |h|))
    ensures forall i :: 0 <= i < |h| && i != c ==> i < |h'| && h'[i] == h[i]
  {
    RepIds(h, c, q);
    RepIds(h, h[c].left, q.left);
    RepIds(h, h[c].right, q.right);
    if x < h[c].value {
      RepFrame(h, h', h[c].right, q.right);
    } else {
      RepFrame(h, h', h[c].left, q.left);
    }
  }

  /** h' holds s' at r where h held s at the same place: cells outside s
      are untouched and every node of s' was in s or is new. */
  ghost predicate Rebuilt(h: seq<Cell>, h': seq<Cell>, s: Shape, r: int, s': Shape) {
    && Rep(h', r, s') && Unique(s') && |h| <= |h'|
    && (forall i :: 0 <= i < |h| && i !in Ids(s) ==> h'[i] == h[i])
    && (forall i :: i in Ids(s') ==> i in Ids(s) || |h| <= i)
  }

  /** `this.left = it.first` after the recursive call on the left child. */
  lemma RebuildLeft(h: seq<Cell>, h1: seq<Cell>, n: int, s: Shape, l: int, ls: Shape)
    requires Rep(h, n, s) && s.Branch? && Unique(s) && Rebuilt(h, h1, s.left, l, ls)
    ensures Rebuilt(h, h1[n := h[n].(left := l)], s, n, Branch(ls, n, s.value, s.right))
  {
    RebuildLeftRep(h, h1, n, s, l, ls);
    RepIds(h, n, s);
  }

  /** The re-pointed cell n holds its rebuilt left subtree and its old right
      one, and their nodes stay distinct. */
  lemma RebuildLeftRep(h: seq<Cell>, h1: seq<Cell>, n: int, s: Shape, l: int, ls: Shape)
    requires Rep(h, n, s) && s.Branch? && Unique(s) && Rebuilt(h, h1, s.left, l, ls)
    ensures Rep(h1[n := h[n].(left := l)], n, Branch(ls, n, s.value, s.right)) && Unique(Branch(ls, n, s.value, s.right))
  {
    RepIds(h, n, s);
    RepIds(h, h[n].right, s.right);
    RepIds(h1, l, ls);
    var h2 := h1[n := h[n].(left := l)];
    assert n !in Ids(ls) by {
      assert n !in Ids(s.left) && n < |h|;
    }
    RepFrame(h, h2, h[n].right, s.right);
    RepFrame(h1, h2, l, ls);
    assert Ids(ls) !! Ids(s.right) by {
      forall i | i in Ids(ls) ensures i !in Ids(s.right) {
        assert i in Ids(s.left) || |h| <= i;
      }
    }
  }

  /** `this.right = it.first` after the recursive call on the right child. */
  lemma RebuildRight(h: seq<Cell>, h1: seq<Cell>, n: int, s: Shape, rt: int, rs: Shape)
    requires Rep(h, n, s) && s.Branch? && Unique(s) && Rebuilt(h, h1, s.right, rt, rs)
    ensures Rebuilt(h, h1[n := h[n].(right := rt)], s, n, Branch(s.left, n, s.value, rs))
  {
    RebuildRightRep(h, h1, n, s, rt, rs);
    RepIds(h, n, s);
  }

  /** The re-pointed cell n holds its old left subtree and its rebuilt right
      one, and their nodes stay distinct. */
  lemma RebuildRightRep(h: seq<Cell>, h1: seq<Cell>, n: int, s: Shape, rt: int, rs: Shape)
    requires Rep(h, n, s) && s.Branch? && Unique(s) && Rebuilt(h, h1, s.right, rt, rs)
    ensures Rep(h1[n := h[n].(right := rt)], n, Branch(s.left, n, s.value, rs)) && Unique(Branch(s.left, n, s.value, rs))
  {
    RepIds(h, n, s);
    RepIds(h, h[n].left, s.left);
    RepIds(h1, rt, rs);
    var h2 := h1[n := h[n].(right := rt)];
    assert n !in Ids(rs) by {
      assert n !in Ids(s.right) && n < |h|;
    }
    RepFrame(h, h2, h[n].left, s.left);
    RepFrame(h1, h2, rt, rs);
    assert Ids(s.left) !! Ids(rs) by {
      forall i | i in Ids(rs) ensures i !in Ids(s.left) {
        assert i in Ids(s.right) || |h| <= i;
      }
    }
  }

  /** The two-children case: a new cell |h| with the successor's value m, the
      old left child, and the right subtree with m removed. */
  lemma RebuildCopy(h: seq<Cell>, h2: seq<Cell>, n: int, s: Shape, m: int, rt: int, rs: Shape)
    requires Rep(h, n, s) && s.Branch? && Unique(s)
    requires Rebuilt(h + [Cell(m, h[n].left, Nil)], h2, s.right, rt, rs)
    ensures var h3 := h2[|h| := h2[|h|].(right := rt)];
      && Rebuilt(h, h3, s, |h|, Branch(s.left, |h|, m, rs))
      && h3[n] == h[n]
  {
    var id := |h|;
    var h1 := h + [Cell(m, h[n].left, Nil)];
    RepIds(h, n, s);
    RepIds(h, h[n].left, s.left);
    RepIds(h, h[n].right, s.right);
    RepIds(h2, rt, rs);
    var h3 := h2[id := h2[id].(right := rt)];
    assert id !in Ids(rs) by {
      assert id !in Ids(s.right) && id < |h1|;
    }
    assert h2[id] == h1[id];
    RepFrame(h, h3, h[n].left, s.left);
    RepFrame(h2, h3, rt, rs);
    assert Ids(s.left) !! Ids(rs) by {
      forall i | i in Ids(rs) ensures i !in Ids(s.left) {
        assert i in Ids(s.right) || |h1| <= i;
      }
    }
    assert n !in Ids(s.right) && n < |h|;
  }

  class BinarySearchTree {
    var nodes: seq<Cell>
    var root: int
    var size: int
    ghost var shape: Shape

    /** The arena holds `shape` at `root`, `shape` is an ordered tree with
        distinct node ids, and `_size` counts its nodes. */
    ghost predicate Valid()
      reads this
    {
      && Rep(nodes, root, shape) && Unique(shape) && Trees.BST(View(shape))
      && size == Trees.Size(View(shape))
    }

    /** The set the tree holds. */
    ghost function Elements(): set<int>
      reads this
    {
      Trees.Elements(View(shape))
    }

    constructor()
      ensures Valid() && Elements() == {} && size == 0
    {
      nodes := [];
      root := Nil;
      size := 0;
      shape := Empty;
    }

    /** `contains`: look up the closest node and compare. */
    function Contains(x: int): (b: bool)
      reads this
      requires Valid()
      ensures b <==> x in Elements()
    {
      root != Nil && nodes[Find(nodes, root, x, shape)].value == x
    }

    /** `size`: the counter kept by `add` and `remove` is the number of
        elements. */
    function Size(): (n: int)
      reads this
      requires Valid()
      ensures n == |Elements()|
    {
      Trees.SizeIsCardinality(View(shape));
      size
    }

    /** `add`: a value not yet present hangs as a new leaf where `find`
        stops; a present value leaves the tree untouched. */
    method Add(x: int) returns (added: bool)
      requires Valid()
      modifies this
      ensures Valid()
      ensures added <==> x !in old(Elements())
      ensures Elements() == old(Elements()) + {x}
      ensures View(shape) == Trees.Insert(old(View(shape)), x)
      ensures size == if added then old(size) + 1 else old(size)
    {
      var closest := if root == Nil then Nil else Find(nodes, root, x, shape);
      if closest != Nil && x == nodes[closest].value {
        return false;
      }
      ghost var h := nodes;
      var newNode := |nodes|;
      nodes := nodes + [Cell(x, Nil, Nil)];
      if closest == Nil {
        root := newNode;
        shape := Branch(Empty, newNode, x, Empty);
      } else {
        if x < nodes[closest].value {
          assert nodes[closest].left == Nil;
          nodes := nodes[closest := nodes[closest].(left := newNode)];
        } else {
          assert nodes[closest].right == Nil;
          nodes := nodes[closest := nodes[closest].(right := newNode)];
        }
        AttachRep(h, nodes, root, shape, x);
        SubIn(shape, closest);
        shape := ReplaceAt(shape, closest, Attach(Sub(shape, closest), x, newNode));
      }
      size := size + 1;
      return true;
    }

    /** `removeNode` on the subtree at n: returns the node to put in its
        place and whether x was found. Cells outside the subtree keep their
        fields; the two-children case allocates the successor's copy. */
    method RemoveNode(n: int, x: int, ghost s: Shape) returns (r: int, found: bool, ghost s': Shape)
      requires Rep(nodes, n, s) && s.Branch? && Unique(s) && Trees.BST(View(s))
      modifies this
      ensures (View(s'), found) == Trees.RemoveNode(View(s), x)
      ensures Rebuilt(old(nodes), nodes, s, r, s')
      ensures root == old(root) && size == old(size) && shape == old(shape)
      ensures x == s.value ==> nodes[n] == old(nodes[n])
      ensures x == s.value && (s.left.Empty? || s.right.Empty?) ==>
        s' == if s.left.Empty? then s.right else s.left
      ensures x == s.value && s.left.Branch? && s.right.Branch? ==>
        r == |old(nodes)| && s' == Branch(s.left, r, Trees.Min(View(s.right)), s'.right)
      ensures x != s.value ==> r == n && s'.Branch? && s'.id == n && s'.value == s.value
      decreases s, 1
    {
      RepIds(nodes, n, s);
      var cell := nodes[n];
      RepIds(nodes, cell.left, s.left);
      RepIds(nodes, cell.right, s.right);
      if x < cell.value {
        if cell.left == Nil {
          return n, false, s;
        }
        r, found, s' := RemoveLeft(n, x, s);
        return;
      }
      if x > cell.value {
        if cell.right == Nil {
          return n, false, s;
        }
        r, found, s' := RemoveRight(n, x, s);
        return;
      }
      if cell.left == Nil && cell.right == Nil {
        return Nil, true, Empty;
      }
      if cell.left == Nil {
        return cell.right, true, s.right;
      }
      if cell.right == Nil {
        return cell.left, true, s.left;
      }
      r, s' := ReplaceBySuccessor(n, s);
      found := true;
    }

    /** `removeNode` below a node whose value exceeds x: the left subtree
        is rebuilt without x and the node keeps its place. */
    method RemoveLeft(n: int, x: int, ghost s: Shape) returns (r: int, found: bool, ghost s': Shape)
      requires Rep(nodes, n, s) && s.Branch? && Unique(s) && Trees.BST(View(s))
      requires x < s.value && s.left.Branch?
      modifies this
      ensures (View(s'), found) == Trees.RemoveNode(View(s), x)
      ensures Rebuilt(old(nodes), nodes, s, r, s')
      ensures root == old(root) && size == old(size) && shape == old(shape)
      ensures r == n && s' == Branch(s'.left, n, s.value, s.right)
      ensures nodes[n] == old(nodes[n]).(left := RootId(s'.left))
      decreases s, 0
    {
      var cell := nodes[n];
      RepIds(nodes, n, s);
      RepIds(nodes, cell.left, s.left);
      var l, f, ls := RemoveNode(cell.left, x, s.left);
      RebuildLeft(old(nodes), nodes, n, s, l, ls);
      nodes := nodes[n := cell.(left := l)];
      return n, f, Branch(ls, n, s.value, s.right);
    }

    /** `removeNode` below a node whose value is less than x: the right
        subtree is rebuilt without x and the node keeps its place. */
    method RemoveRight(n: int, x: int, ghost s: Shape) returns (r: int, found: bool, ghost s': Shape)
      requires Rep(nodes, n, s) && s.Branch? && Unique(s) && Trees.BST(View(s))
      requires x > s.value && s.right.Branch?
      modifies this
      ensures (View(s'), found) == Trees.RemoveNode(View(s), x)
      ensures Rebuilt(old(nodes), nodes, s, r, s')
      ensures root == old(root) && size == old(size) && shape == old(shape)
      ensures r == n && s' == Branch(s.left, n, s.value, s'.right)
      ensures nodes[n] == old(nodes[n]).(right := RootId(s'.right))
      decreases s, 0
    {
      var cell := nodes[n];
      RepIds(nodes, n, s);
      RepIds(nodes, cell.right, s.right);
      var rt, f, rs := RemoveNode(cell.right, x, s.right);
      RebuildRight(old(nodes), nodes, n, s, rt, rs);
      nodes := nodes[n := cell.(right := rt)];
      return n, f, Branch(s.left, n, s.value, rs);
    }

    /** `removeNode` on a node with two children: a copy of the node that
        carries the in-order successor's value takes its place, and the
        successor is removed from the right subtree. */
    method ReplaceBySuccessor(n: int, ghost s: Shape) returns (r: int, ghost s': Shape)
      requires Rep(nodes, n, s) && s.Branch? && Unique(s) && Trees.BST(View(s))
      requires s.left.Branch? && s.right.Branch?
      modifies this
      ensures (View(s'), true) == Trees.RemoveNode(View(s), s.value)
      ensures Rebuilt(old(nodes), nodes, s, r, s')
      ensures root == old(root) && size == old(size) && shape == old(shape)
      ensures nodes[n] == old(nodes[n])
      ensures r == |old(nodes)| && s' == Branch(s.left, r, Trees.Min(View(s.right)), s'.right)
      ensures nodes[r] == Cell(Trees.Min(View(s.right)), old(nodes[n]).left, RootId(s'.right))
      ensures View(s'.right) == Trees.RemoveNode(View(s.right), Trees.Min(View(s.right))).0
      decreases s, 0
    {
      var cell := nodes[n];
      RepIds(nodes, n, s);
      RepIds(nodes, cell.right, s.right);
      var minNode := MinNode(nodes, cell.right, s.right);
      var m := nodes[minNode].value;
      var id := |nodes|;
      nodes := nodes + [Cell(m, cell.left, Nil)];
      RepFrame(old(nodes), nodes, cell.right, s.right);
      var rt, _, rs := RemoveNode(cell.right, m, s.right);
      RebuildCopy(old(nodes), nodes, n, s, m, rt, rs);
      nodes := nodes[id := nodes[id].(right := rt)];
      return id, Branch(s.left, id, m, rs);
    }

    /** `remove`: remove x from the tree rooted at `root` and count it. */
    method Remove(x: int) returns (removed: bool)
      requires Valid()
      modifies this
      ensures Valid()
      ensures removed <==> x in old(Elements())
      ensures Elements() == old(Elements()) - {x}
      ensures View(shape) == Trees.RemoveNode(old(View(shape)), x).0
      ensures !removed ==> View(shape) == old(View(shape)) && root == old(root)
      ensures Trees.Height(View(shape)) <= old(Trees.Height(View(shape)))
      ensures size == if removed then old(size) - 1 else old(size)
    {
      if root == Nil {
        return false;
      }
      var r, found, s' := RemoveNode(root, x, shape);
      root := r;
      if found {
        size := size - 1;
      }
      shape := s';
      return found;
    }

    /** `first`: follow left children from the root. */
    method First() returns (r: Result<int>)
      requires Valid()
      ensures Elements() == {} ==> r == Failure(NoSuchElement)
      ensures Elements() != {} ==> r.Success? && r.value in Elements()
      ensures r.Success? ==> forall y :: y in Elements() ==> r.value <= y
    {
      if root == Nil {
        return Failure(NoSuchElement);
      }
      var current := root;
      ghost var t := shape;
      while nodes[current].left != Nil
        invariant Rep(nodes, current, t) && t.Branch?
        invariant Trees.Min(View(t)) == Trees.Min(View(shape))
        decreases t
      {
        current := nodes[current].left;
        t := t.left;
      }
      return Success(nodes[current].value);
    }

    /** `last`: follow right children from the root. */
    method Last() returns (r: Result<int>)
      requires Valid()
      ensures Elements() == {} ==> r == Failure(NoSuchElement)
      ensures Elements() != {} ==> r.Success? && r.value in Elements()
      ensures r.Success? ==> forall y :: y in Elements() ==> y <= r.value
    {
      if root == Nil {
        return Failure(NoSuchElement);
      }
      var current := root;
      ghost var t := shape;
      while nodes[current].right != Nil
        invariant Rep(nodes, current, t) && t.Branch?
        invariant Trees.Max(View(t)) == Trees.Max(View(shape))
        decreases t
      {
        current := nodes[current].right;
        t := t.right;
      }
      return Success(nodes[current].value);
    }
  }

  // ---------------------------------------------------------------------
  // The iterator

  /** The cell of `currentNode` mirrors its subtree: value and children. */
  lemma CurrentCell(h: seq<Cell>, root: int, s: Shape, cur: int)
    requires Rep(h, root, s) && (cur != Nil ==> cur in Ids(s))
    ensures cur != Nil ==>
      && 0 <= cur < |h| && Sub(s, cur).Branch?
      && h[cur].value == Sub(s, cur).value
      && h[cur].left == RootId(Sub(s, cur).left) && h[cur].right == RootId(Sub(s, cur).right)
      && (h[cur].left != Nil <==> Sub(s, cur).left.Branch?)
      && (h[cur].right != Nil <==> Sub(s, cur).right.Branch?)
  {
    if cur != Nil {
      RepSub(h, root, s, cur);
      RepIds(h, h[cur].left, Sub(s, cur).left);
      RepIds(h, h[cur].right, Sub(s, cur).right);
    }
  }

  /** `removeNode` on `currentNode` c returns a subtree t that may take c's
      place: it owns nodes of c's subtree or new ones only. */
  lemma RemovedReplaceable(h: seq<Cell>, h1: seq<Cell>, root: int, s: Shape, c: int, r: int, t: Shape)
    requires Rep(h, root, s) && Unique(s) && c in Ids(s) && Sub(s, c).Branch?
    requires Rebuilt(h, h1, Sub(s, c), r, t)
    ensures Replaceable(s, c, t) && Nil !in Ids(t) && r == RootId(t)
    ensures forall i :: 0 <= i < |h| && i !in Ids(Sub(s, c)) ==> h1[i] == h[i]
  {
    RepIds(h, root, s);
    RepIds(h1, r, t);
    SubIn(s, c);
    forall i | i in Ids(t)
      ensures i !in Ids(s) - Ids(Sub(s, c))
    {
    }
  }

  /** With no parent, c was the root and t becomes the whole tree. */
  lemma RelinkRoot(h: seq<Cell>, h1: seq<Cell>, root: int, s: Shape, c: int, t: Shape)
    requires Rep(h, root, s) && Unique(s) && c in Ids(s) && Sub(s, c).Branch? && Path(s, c) == [c]
    requires Rebuilt(h, h1, Sub(s, c), RootId(t), t) && 0 <= c < |h| && h1[c] == h[c]
    ensures Rep(h1, RootId(t), ReplaceAt(s, c, t)) && Rep(h1, RootId(t), t)
    ensures Replaceable(s, c, t) && Nil !in Ids(t) && 0 <= c < |h1| && h1[c] == h[c]
  {
    RemovedReplaceable(h, h1, root, s, c, RootId(t), t);
  }

  /** The parent p of c, with `removeNode` done on c: re-pointing the child
      field of p that the values select puts t in c's place. */
  lemma RelinkParent(h: seq<Cell>, h1: seq<Cell>, h2: seq<Cell>, root: int, s: Shape, c: int, t: Shape, parents: seq<int>)
    requires Rep(h, root, s) && Unique(s) && Trees.BST(View(s)) && c in Ids(s) && Sub(s, c).Branch?
    requires parents != [] && parents + [c] == Path(s, c)
    requires Rebuilt(h, h1, Sub(s, c), RootId(t), t) && 0 <= c < |h| && h1[c] == h[c]
    requires var p := parents[|parents| - 1];
      0 <= p < |h|
      && h2 == if h1[p].value < h1[c].value then h1[p := h1[p].(right := RootId(t))]
               else h1[p := h1[p].(left := RootId(t))]
    ensures Rep(h2, root, ReplaceAt(s, c, t)) && Rep(h2, RootId(t), t)
    ensures Replaceable(s, c, t) && Nil !in Ids(t) && 0 <= c < |h2| && h2[c] == h[c]
  {
    var p := parents[|parents| - 1];
    RemovedReplaceable(h, h1, root, s, c, RootId(t), t);
    ParentOfCurrent(h, root, s, c, parents);
    assert h1[p] == h[p];
    var q := Sub(s, p);
    var toRight := q.right.Branch? && q.right.id == c;
    RelinkFrame(h, h1, h2, root, s, c, t, p, toRight);
  }

  /** In a search tree the values tell on which side of its parent p a
      node c hangs: on the right exactly when p's value is the smaller. */
  lemma ChildSide(h: seq<Cell>, root: int, s: Shape, p: int, c: int)
    requires Rep(h, root, s) && Unique(s) && Trees.BST(View(s)) && p in Ids(s)
    requires var q := Sub(s, p);
      q.Branch? && ((q.left.Branch? && q.left.id == c) || (q.right.Branch? && q.right.id == c))
    ensures 0 <= p < |h| && 0 <= c < |h|
    ensures var q := Sub(s, p);
      q.right.Branch? && q.right.id == c <==> h[p].value < h[c].value
  {
    SubIn(s, p);
    SubChildren(s, p);
    var q := Sub(s, p);
    RepSub(h, root, s, p);
    assert c in Ids(q);
    SubSub(s, p, c);
    RepSub(h, root, s, c);
    assert Trees.BST(View(q));
    if q.left.Branch? && q.left.id == c {
      assert h[c].value in Trees.Elements(View(q.left));
      assert c !in Ids(q.right);
    } else {
      assert h[c].value in Trees.Elements(View(q.right));
    }
  }

  /** Re-pointing the child field of c's parent p that held c puts t in
      c's place and leaves t as it is. */
  lemma RelinkFrame(h: seq<Cell>, h1: seq<Cell>, h2: seq<Cell>, root: int, s: Shape, c: int, t: Shape, p: int, toRight: bool)
    requires Rep(h, root, s) && Unique(s) && p in Ids(s) && 0 <= p < |h|
    requires var q := Sub(s, p);
      && q.Branch?
      && (if toRight then q.right.Branch? && q.right.id == c else q.left.Branch? && q.left.id == c)
      && Ids(Sub(s, c)) <= Ids(q) && p !in Ids(Sub(s, c))
    requires Rep(h1, RootId(t), t) && |h| <= |h1|
    requires forall i :: 0 <= i < |h| && i !in Ids(Sub(s, c)) ==> h1[i] == h[i]
    requires forall i :: i in Ids(t) ==> i in Ids(Sub(s, c)) || |h| <= i
    requires h2 == h1[p := if toRight then h1[p].(right := RootId(t)) else h1[p].(left := RootId(t))]
    ensures Rep(h2, root, ReplaceAt(s, c, t)) && Rep(h2, RootId(t), t)
  {
    RepIds(h, root, s);
    RepIds(h1, RootId(t), t);
    SubIn(s, p);
    RepFrame(h1, h2, RootId(t), t);
    RepRelink(h, h2, root, s, c, t, p, toRight);
  }

  /** The top p of the parents stack is the parent of c: c hangs below p
      on the side that the values select, and p is outside c's subtree. */
  lemma ParentOfCurrent(h: seq<Cell>, root: int, s: Shape, c: int, parents: seq<int>)
    requires Rep(h, root, s) && Unique(s) && Trees.BST(View(s)) && c in Ids(s)
    requires parents != [] && parents + [c] == Path(s, c)
    ensures var p := parents[|parents| - 1];
      var q := Sub(s, p);
      && p in Ids(s) && q.Branch? && 0 <= p < |h| && 0 <= c < |h|
      && ((q.left.Branch? && q.left.id == c) || (q.right.Branch? && q.right.id == c))
      && (q.right.Branch? && q.right.id == c <==> h[p].value < h[c].value)
      && Ids(Sub(s, c)) <= Ids(q) && p !in Ids(Sub(s, c))
  {
    var p := parents[|parents| - 1];
    var path := Path(s, c);
    assert p == path[|path| - 2];
    ChildOfPath(s, p, c);
    SubIn(s, p);
    SubIn(s, c);
    SubSub(s, p, c);
    Traversal.NotAbove(s, p, c);
    ChildSide(h, root, s, p, c);
  }

  /** Putting t in place of the node c that `next` returned last removes
      exactly that value, one element fewer, and leaves the rest of the
      traversal as it was. */
  lemma RemoveAccounts(s: Shape, stack: seq<int>, parents: seq<int>, c: int, done: seq<int>, t: Shape, found: bool, s': Shape)
    requires Traversal.IterInv(s, stack, parents, c, done) && c != Nil
    requires Replaceable(s, c, t) && Nil !in Ids(t) && s' == ReplaceAt(s, c, t)
    requires (View(t), found) == Trees.RemoveNode(View(Sub(s, c)), Sub(s, c).value)
    ensures found && Unique(s') && Trees.BST(View(s'))
    ensures Traversal.IterInv(s', stack + Traversal.Pushed(Sub(s, c), t), parents + Traversal.Pushed(Sub(s, c), t),
      Nil, done[..|done| - 1])
    ensures Traversal.Remaining(s', Nil, stack + Traversal.Pushed(Sub(s, c), t)) == Traversal.Remaining(s, c, stack)
    ensures Trees.Elements(View(s')) == Trees.Elements(View(s)) - {done[|done| - 1]}
    ensures Trees.Size(View(s')) == Trees.Size(View(s)) - 1
    ensures View(s') == Trees.RemoveNode(View(s), done[|done| - 1]).0
    ensures Nil !in Ids(Sub(s, c))
    ensures Sub(s, c).Branch? && Sub(s, c).left.Branch? && Sub(s, c).right.Branch? ==> t.Branch?
    ensures Traversal.Pushed(Sub(s, c), t) ==
      if Sub(s, c).left.Branch? && Sub(s, c).right.Branch? then [RootId(t)]
      else if Sub(s, c).right.Branch? then Spine(t) else []
  {
    SubIn(s, c);
    Traversal.RemoveInv(s, stack, parents, c, done, t);
    RemoveInPlace(s, c, t);
  }

  /** `BinarySearchTreeIterator` with neither bound, which is what
      `iterator()` creates: in-order traversal by an explicit stack, with a
      second stack of ancestors so that `remove` can re-point the parent. */
  class BinarySearchTreeIterator {
    const tree: BinarySearchTree
    var iterationStack: seq<int>
    var iterationParentsStack: seq<int>
    var currentNode: int
    /** The values `next` has returned, less those `remove` took out. */
    ghost var done: seq<int>

    /** The tree is valid and the stacks, `currentNode` and `done` agree with it.
        */
    ghost predicate Valid()
      reads this, tree
    {
      tree.Valid() && Traversal.IterInv(tree.shape, iterationStack, iterationParentsStack, currentNode, done)
    }

    /** What the following calls of `next` return, in order. */
    ghost function Remaining(): seq<int>
      reads this, tree
    {
      Traversal.Remaining(tree.shape, currentNode, iterationStack)
    }

    /** `init`: push the left spine of the whole tree. */
    constructor(t: BinarySearchTree)
      requires t.Valid()
      ensures tree == t && Valid()
      ensures done == [] && Remaining() == Trees.Inorder(View(t.shape))
    {
      tree := t;
      iterationStack := [];
      iterationParentsStack := [];
      currentNode := Nil;
      done := [];
      new;
      if t.root != Nil {
        FillIterationStack(t.root, t.shape);
      }
      RepIds(t.nodes, t.root, t.shape);
      Traversal.InitInv(t.shape);
      assert iterationStack == Spine(t.shape) && iterationParentsStack == Spine(t.shape);
    }

    /** `fillIterationStack`: push n and its left descendants on both stacks. */
    method FillIterationStack(n: int, ghost sub: Shape)
      requires Rep(tree.nodes, n, sub)
      modifies this
      ensures iterationStack == old(iterationStack) + Spine(sub)
      ensures iterationParentsStack == old(iterationParentsStack) + Spine(sub)
      ensures currentNode == old(currentNode) && done == old(done)
    {
      var current := n;
      ghost var t := sub;
      while current != Nil
        invariant Rep(tree.nodes, current, t)
        invariant iterationStack + Spine(t) == old(iterationStack) + Spine(sub)
        invariant iterationParentsStack + Spine(t) == old(iterationParentsStack) + Spine(sub)
        invariant currentNode == old(currentNode) && done == old(done)
        decreases t
      {
        Traversal.Associate(iterationStack, [current], Spine(t.left));
        Traversal.Associate(iterationParentsStack, [current], Spine(t.left));
        iterationStack := iterationStack + [current];
        iterationParentsStack := iterationParentsStack + [current];
        current := tree.nodes[current].left;
        t := t.left;
      }
      assert iterationStack + [] == iterationStack;
      assert iterationParentsStack + [] == iterationParentsStack;
    }

    /** `hasNext`: the stack is non-empty or the last node returned has a
        right child. */
    function HasNext(): (b: bool)
      reads this, tree
      requires Valid()
      ensures b <==> Remaining() != []
    {
      CurrentCell(tree.nodes, tree.root, tree.shape, currentNode);
      Traversal.RemainingEmpty(tree.shape, iterationStack, iterationParentsStack, currentNode, done);
      iterationStack != [] || (currentNode != Nil && tree.nodes[currentNode].right != Nil)
    }

    /** `parentOfCurrentNode`: the top of the parents stack, which is the
        parent of `currentNode` in the tree, or no node when `currentNode`
        is the root. */
    function ParentOfCurrentNode(): (p: int)
      reads this, tree
      requires Valid() && currentNode != Nil
      ensures p == Nil <==> tree.shape.id == currentNode
      ensures p != Nil ==>
        && p in Ids(tree.shape) && Sub(tree.shape, p).Branch?
        && var q := Sub(tree.shape, p);
           (q.left.Branch? && q.left.id == currentNode) || (q.right.Branch? && q.right.id == currentNode)
    {
      if iterationParentsStack == [] then
        Nil
      else
        ChildOfPath(tree.shape, iterationParentsStack[|iterationParentsStack| - 1], currentNode);
        iterationParentsStack[|iterationParentsStack| - 1]
    }

    /** The first half of `next`: when the node returned last has a right
        child, push that node on the parents stack and the right child's
        left spine on both stacks. Nothing is owed any more by the current
        node; `currentNode` itself is left as it is. */
    method DescendRight()
      requires Valid()
      modifies this
      ensures tree.Valid() && Traversal.IterInv(tree.shape, iterationStack, iterationParentsStack, Nil, done)
      ensures Traversal.Remaining(tree.shape, Nil, iterationStack) == old(Remaining())
      ensures currentNode == old(currentNode) && done == old(done)
      ensures old(Remaining()) == [] ==> unchanged(this)
    {
      ghost var s := tree.shape;
      CurrentCell(tree.nodes, tree.root, s, currentNode);
      Traversal.RemainingEmpty(s, iterationStack, iterationParentsStack, currentNode, done);
      if currentNode != Nil && tree.nodes[currentNode].right != Nil {
        PushRightSpine();
      } else if currentNode != Nil {
        Traversal.Forget(s, iterationStack, iterationParentsStack, currentNode, done);
      }
    }

    /** `next` when the current node has a right subtree: push that
        subtree's left spine, with the current node as an extra parent. */
    method PushRightSpine()
      requires Valid() && currentNode != Nil
      requires 0 <= currentNode < |tree.nodes| && tree.nodes[currentNode].right != Nil
      modifies this
      ensures tree.Valid() && Traversal.IterInv(tree.shape, iterationStack, iterationParentsStack, Nil, done)
      ensures Traversal.Remaining(tree.shape, Nil, iterationStack) == old(Remaining())
      ensures currentNode == old(currentNode) && done == old(done)
    {
      ghost var s := tree.shape;
      var right := tree.nodes[currentNode].right;
      CurrentCell(tree.nodes, tree.root, s, currentNode);
      RepSub(tree.nodes, tree.root, s, currentNode);
      Traversal.Advance(s, iterationStack, iterationParentsStack, currentNode, done);
      iterationParentsStack := iterationParentsStack + [currentNode];
      FillIterationStack(right, Sub(s, currentNode).right);
    }

    /** The second half of `next`: pop the next node into `currentNode`
        and cut the parents stack back to that node's ancestors. */
    method PopCurrent() returns (value: int)
      requires tree.Valid() && Traversal.IterInv(tree.shape, iterationStack, iterationParentsStack, Nil, done)
      requires iterationStack != []
      modifies this
      ensures Valid() && currentNode != Nil
      ensures done == old(done) + [value]
      ensures [value] + Remaining() == old(Traversal.Remaining(tree.shape, Nil, iterationStack))
      ensures old(done) != [] ==> old(done)[|old(done)| - 1] < value
    {
      ghost var s, stack0, parents0, d := tree.shape, iterationStack, iterationParentsStack, done;
      Traversal.PopStep(s, stack0, parents0, d);
      currentNode := iterationStack[|iterationStack| - 1];
      iterationStack := iterationStack[..|iterationStack| - 1];
      ghost var g := currentNode;
      ghost var p := Path(s, g);
      PopParents(p);
      CurrentCell(tree.nodes, tree.root, s, g);
      value := tree.nodes[currentNode].value;
      if d != [] {
        Traversal.ReturnedInOrder(s, stack0[..|stack0| - 1], p[..|p| - 1], g, d, value);
      }
      done := done + [value];
    }

    /** The loop of `next` that pops the parents stack while it holds
        `currentNode`: what stays is the path p to it, less itself. */
    method PopParents(ghost p: seq<int>)
      requires |p| > 0 && p[|p| - 1] == currentNode && currentNode !in p[..|p| - 1]
      requires |p| <= |iterationParentsStack| && iterationParentsStack[..|p|] == p
      modifies this`iterationParentsStack
      ensures iterationParentsStack == p[..|p| - 1]
    {
      ghost var parents0 := iterationParentsStack;
      ghost var n := |parents0|;
      while currentNode in iterationParentsStack
        invariant |p| - 1 <= n <= |parents0| && iterationParentsStack == parents0[..n]
        decreases n
      {
        iterationParentsStack := iterationParentsStack[..|iterationParentsStack| - 1];
        n := n - 1;
      }
      Traversal.CutParents(parents0, p, n, currentNode);
    }

    /** `next`: `DescendRight`, then `PopCurrent` unless the stack is
        empty. Values come out in increasing order. */
    method Next() returns (r: Result<int>)
      requires Valid()
      modifies this
      ensures Valid()
      ensures old(Remaining()) == [] ==> r == Failure(NoSuchElement) && unchanged(this)
      ensures old(Remaining()) != [] ==>
        && r == Success(old(Remaining())[0])
        && Remaining() == old(Remaining())[1..]
        && done == old(done) + [r.value]
      ensures r.Success? && old(done) != [] ==> old(done)[|old(done)| - 1] < r.value
      ensures r.Success? ==> currentNode != Nil
      ensures Trees.Increasing(done + Remaining())
    {
      DescendRight();
      if iterationStack == [] {
        Traversal.ScanIncreasing(tree.shape, iterationStack, iterationParentsStack, currentNode, done);
        return Failure(NoSuchElement);
      }
      var value := PopCurrent();
      Traversal.ScanIncreasing(tree.shape, iterationStack, iterationParentsStack, currentNode, done);
      return Success(value);
    }

    /** The relinking in `remove`: hang newNode from the parent of `it` on
        the side the values compare, or make it the root when `it` has no
        parent. The parent is what `ParentOfCurrentNode` returns, the top of
        `iterationParentsStack`; it is read off the stack directly because
        the tree is being updated here and `Valid()` does not hold. */
    method LinkReplacement(it: int, newNode: int, ghost s: Shape, ghost h: seq<Cell>, ghost t: Shape)
      requires Rep(h, tree.root, s) && Unique(s) && Trees.BST(View(s)) && it in Ids(s) && Sub(s, it).Branch?
      requires iterationParentsStack + [it] == Path(s, it)
      requires Rebuilt(h, tree.nodes, Sub(s, it), newNode, t) && newNode == RootId(t)
      requires 0 <= it < |h| && tree.nodes[it] == h[it]
      modifies tree`nodes, tree`root
      ensures Rep(tree.nodes, tree.root, ReplaceAt(s, it, t)) && Rep(tree.nodes, newNode, t)
      ensures Replaceable(s, it, t) && Nil !in Ids(t) && 0 <= it < |tree.nodes| && tree.nodes[it] == h[it]
    {
      if iterationParentsStack != [] {
        LinkToParent(it, newNode, s, h, t);
      } else {
        RelinkRoot(h, tree.nodes, tree.root, s, it, t);
        tree.root := newNode;
      }
    }

    /** `parentNode.right = newNode` or `parentNode.left = newNode`, by
        comparing the parent's value with the removed node's. */
    method LinkToParent(it: int, newNode: int, ghost s: Shape, ghost h: seq<Cell>, ghost t: Shape)
      requires Rep(h, tree.root, s) && Unique(s) && Trees.BST(View(s)) && it in Ids(s) && Sub(s, it).Branch?
      requires iterationParentsStack != [] && iterationParentsStack + [it] == Path(s, it)
      requires Rebuilt(h, tree.nodes, Sub(s, it), newNode, t) && newNode == RootId(t)
      requires 0 <= it < |h| && tree.nodes[it] == h[it]
      modifies tree`nodes
      ensures Rep(tree.nodes, tree.root, ReplaceAt(s, it, t)) && Rep(tree.nodes, newNode, t)
      ensures Replaceable(s, it, t) && Nil !in Ids(t) && 0 <= it < |tree.nodes| && tree.nodes[it] == h[it]
    {
      ghost var h1, parents := tree.nodes, iterationParentsStack;
      var parentNode := iterationParentsStack[|iterationParentsStack| - 1];
      PathBelow(s, it, |parents| - 1);
      RepIds(h, tree.root, s);
      if tree.nodes[parentNode].value < tree.nodes[it].value {
        tree.nodes := tree.nodes[parentNode := tree.nodes[parentNode].(right := newNode)];
      } else {
        tree.nodes := tree.nodes[parentNode := tree.nodes[parentNode].(left := newNode)];
      }
      RelinkParent(h, h1, tree.nodes, tree.root, s, it, t, parents);
    }

    /** The first half of `remove`: `removeNode` on `currentNode`, then
        hang the node it returns from the parent on the side the values
        compare, or make it the root when there is no parent. */
    method ReplaceCurrent() returns (newNode: int, successfulRemoval: bool, ghost t: Shape)
      requires tree.Valid() && Nil !in Ids(tree.shape)
      requires currentNode in Ids(tree.shape) && iterationParentsStack + [currentNode] == Path(tree.shape, currentNode)
      modifies tree
      ensures var s, c := old(tree.shape), currentNode;
        && Sub(s, c).Branch?
        && Replaceable(s, c, t) && Nil !in Ids(t) && newNode == RootId(t)
        && (View(t), successfulRemoval) == Trees.RemoveNode(View(Sub(s, c)), Sub(s, c).value)
        && (Sub(s, c).left.Empty? || Sub(s, c).right.Empty? ==>
             t == if Sub(s, c).left.Empty? then Sub(s, c).right else Sub(s, c).left)
        && tree.shape == ReplaceAt(s, c, t)
        && Rep(tree.nodes, tree.root, tree.shape) && Rep(tree.nodes, newNode, t)
        && 0 <= c < |tree.nodes|
        && tree.nodes[c].left == RootId(Sub(s, c).left) && tree.nodes[c].right == RootId(Sub(s, c).right)
      ensures successfulRemoval && tree.size == old(tree.size) - 1
      ensures iterationStack == old(iterationStack) && iterationParentsStack == old(iterationParentsStack)
      ensures currentNode == old(currentNode) && done == old(done)
    {
      ghost var s := tree.shape;
      ghost var h := tree.nodes;
      var it := currentNode;
      CurrentCell(h, tree.root, s, it);
      RepSub(h, tree.root, s, it);
      SubIn(s, it);
      newNode, successfulRemoval, t := tree.RemoveNode(it, tree.nodes[it].value, Sub(s, it));
      RepIds(tree.nodes, newNode, t);
      LinkReplacement(it, newNode, s, h, t);
      tree.shape := ReplaceAt(s, it, t);
      assert successfulRemoval;
      tree.size := tree.size - 1;
    }

    /** The end of `remove`, once the tree holds t in place of q, the
        subtree of the node `currentNode` names: push the new node when q
        had two children, or the left spine of its right child when it had
        only that one; then forget `currentNode`. */
    method PushReplacement(newNode: int, ghost q: Shape, ghost t: Shape)
      requires q.Branch? && Nil !in Ids(q) && 0 <= currentNode < |tree.nodes|
      requires tree.nodes[currentNode].left == RootId(q.left) && tree.nodes[currentNode].right == RootId(q.right)
      requires Rep(tree.nodes, newNode, t) && newNode == RootId(t)
      requires q.left.Empty? ==> t == q.right
      requires Traversal.Pushed(q, t) ==
        if q.left.Branch? && q.right.Branch? then [newNode] else if q.right.Branch? then Spine(t) else []
      requires tree.Valid() && done != []
      requires Traversal.IterInv(tree.shape, iterationStack + Traversal.Pushed(q, t),
        iterationParentsStack + Traversal.Pushed(q, t), Nil, done[..|done| - 1])
      modifies this
      ensures Valid()
      ensures iterationStack == old(iterationStack) + Traversal.Pushed(q, t)
      ensures currentNode == Nil && done == old(done)[..|old(done)| - 1]
    {
      PushStacks(newNode, q, t);
      currentNode := Nil;
      done := done[..|done| - 1];
    }

    /** The pushes of `remove`: the replacing node when the removed node had
        two children, the left spine of its right subtree when it had only
        that one, and nothing when it had no right child. */
    method PushStacks(newNode: int, ghost q: Shape, ghost t: Shape)
      requires q.Branch? && Nil !in Ids(q) && 0 <= currentNode < |tree.nodes|
      requires tree.nodes[currentNode].left == RootId(q.left) && tree.nodes[currentNode].right == RootId(q.right)
      requires Rep(tree.nodes, newNode, t) && newNode == RootId(t)
      requires q.left.Empty? ==> t == q.right
      requires Traversal.Pushed(q, t) ==
        if q.left.Branch? && q.right.Branch? then [newNode] else if q.right.Branch? then Spine(t) else []
      modifies this
      ensures iterationStack == old(iterationStack) + Traversal.Pushed(q, t)
      ensures iterationParentsStack == old(iterationParentsStack) + Traversal.Pushed(q, t)
      ensures currentNode == old(currentNode) && done == old(done)
    {
      var left, right := tree.nodes[currentNode].left, tree.nodes[currentNode].right;
      if right != Nil && left != Nil {
        iterationStack := iterationStack + [newNode];
        iterationParentsStack := iterationParentsStack + [newNode];
      } else if right != Nil {
        FillIterationStack(right, t);
      } else {
        assert iterationStack + [] == iterationStack && iterationParentsStack + [] == iterationParentsStack;
      }
    }

    /** `removeNode` on `currentNode` and the relinking (`ReplaceCurrent`),
        seen from the iterator: the tree has lost the value returned last,
        and the stacks, once `PushReplacement` extends them, owe what they
        owed before. */
    method UnlinkCurrent() returns (newNode: int, ghost q: Shape, ghost t: Shape)
      requires Valid() && currentNode != Nil
      modifies tree
      ensures q.Branch? && Nil !in Ids(q) && 0 <= currentNode < |tree.nodes|
      ensures tree.nodes[currentNode].left == RootId(q.left) && tree.nodes[currentNode].right == RootId(q.right)
      ensures Rep(tree.nodes, newNode, t) && newNode == RootId(t)
      ensures q.left.Empty? ==> t == q.right
      ensures Traversal.Pushed(q, t) ==
        if q.left.Branch? && q.right.Branch? then [newNode] else if q.right.Branch? then Spine(t) else []
      ensures Traversal.IterInv(tree.shape, iterationStack + Traversal.Pushed(q, t),
        iterationParentsStack + Traversal.Pushed(q, t), Nil, done[..|done| - 1])
      ensures Traversal.Remaining(tree.shape, Nil, iterationStack + Traversal.Pushed(q, t))
        == Traversal.Remaining(old(tree.shape), currentNode, iterationStack)
      ensures Trees.Elements(View(tree.shape)) == Trees.Elements(View(old(tree.shape))) - {done[|done| - 1]}
      ensures View(tree.shape) == Trees.RemoveNode(View(old(tree.shape)), done[|done| - 1]).0
      ensures Trees.Height(View(tree.shape)) <= Trees.Height(View(old(tree.shape)))
      ensures tree.Valid() && tree.size == old(tree.size) - 1
    {
      ghost var s, stack, parents, c, d := tree.shape, iterationStack, iterationParentsStack, currentNode, done;
      var successfulRemoval;
      newNode, successfulRemoval, t := ReplaceCurrent();
      RemoveAccounts(s, stack, parents, c, d, t, successfulRemoval, tree.shape);
      q := Sub(s, c);
    }

    /** `remove`: take the node returned last out of the tree and put what
        `removeNode` returns in its place, so that `next` still owes exactly
        what it owed before. */
    method Remove() returns (r: Result<()>)
      requires Valid()
      modifies this, tree
      ensures Valid()
      ensures old(currentNode) == Nil ==> r == Failure(IllegalState) && unchanged(this) && unchanged(tree)
      ensures old(currentNode) != Nil ==>
        && r == Success(())
        && tree.Elements() == old(tree.Elements()) - {old(done)[|old(done)| - 1]}
        && View(tree.shape) == Trees.RemoveNode(old(View(tree.shape)), old(done)[|old(done)| - 1]).0
        && Trees.Height(View(tree.shape)) <= old(Trees.Height(View(tree.shape)))
        && tree.size == old(tree.size) - 1
        && done == old(done)[..|old(done)| - 1]
        && Remaining() == old(Remaining())
        && currentNode == Nil
      ensures Trees.Increasing(done + Remaining())
    {
      if currentNode == Nil {
        Traversal.ScanIncreasing(tree.shape, iterationStack, iterationParentsStack, currentNode, done);
        return Failure(IllegalState);
      }
      var newNode, q, t := UnlinkCurrent();
      PushReplacement(newNode, q, t);
      Traversal.ScanIncreasing(tree.shape, iterationStack, iterationParentsStack, currentNode, done);
      return Success(());
    }
  }
}
