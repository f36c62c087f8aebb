/** The node graph of BinarySearchTree.kt held in an arena: every `Node`
    object is a cell addressed by a stable id, and a child reference is the
    child's id or Nil. A ghost Shape records which ids form the tree and how,
    so that the arena can be read back as a Trees.Tree. */
module Arena {
  import Trees

  /** The null reference. */
  const Nil: int := -1

  /** The fields of one `Node` object: its value and its children's ids. */
  datatype Cell = Cell(value: int, left: int, right: int)

  /** The tree as it sits in the arena: each branch carries its node's id. */
  datatype Shape = Empty | Branch(left: Shape, id: int, value: int, right: Shape)

  function Ids(s: Shape): set<int> {
    match s
    case Empty => {}
    case Branch(l, i, _, r) => Ids(l) + {i} + Ids(r)
  }

  function RootId(s: Shape): int {
    if s.Empty? then Nil else s.id
  }

  /** No node is reachable twice: children are owned by exactly one parent. */
  predicate Unique(s: Shape) {
    match s
    case Empty => true
    case Branch(l, i, _, r) =>
      Unique(l) && Unique(r) && i !in Ids(l) && i !in Ids(r) && Ids(l) !! Ids(r)
  }

  /** The value tree the shape stands for. */
  function View(s: Shape): Trees.Tree {
    match s
    case Empty => Trees.Leaf
    case Branch(l, _, v, r) => Trees.Node(View(l), v, View(r))
  }

  /** The arena h holds shape s with its root at id n. */
  predicate Rep(h: seq<Cell>, n: int, s: Shape)
    decreases s
  {
    match s
    case Empty => n == Nil
    case Branch(l, i, v, r) =>
      && n == i && 0 <= i < |h| && h[i].value == v
      && Rep(h, h[i].left, l) && Rep(h, h[i].right, r)
  }

  /** The subtree rooted at node q (Empty when q is not in s). */
  function Sub(s: Shape, q: int): Shape {
    match s
    case Empty => Empty
    case Branch(l, i, _, r) =>
      if i == q then s else if q in Ids(l) then Sub(l, q) else Sub(r, q)
  }

  /** s with the subtree rooted at node q replaced by t. */
  function ReplaceAt(s: Shape, q: int, t: Shape): Shape {
    match s
    case Empty => Empty
    case Branch(l, i, v, r) =>
      if i == q then t else Branch(ReplaceAt(l, q, t), i, v, ReplaceAt(r, q, t))
  }

  /** The ids from the root of s down to q, both included. */
  function Path(s: Shape, q: int): (p: seq<int>)
    requires q in Ids(s)
    ensures |p| > 0 && p[0] == s.id && p[|p| - 1] == q
  {
    if s.id == q then [q]
    else if q in Ids(s.left) then [s.id] + Path(s.left, q)
    else [s.id] + Path(s.right, q)
  }

  /** The left spine: the root of s, its left child, and so on. */
  function Spine(s: Shape): (p: seq<int>)
    ensures forall k :: 0 <= k < |p| ==> p[k] in Ids(s)
  {
    if s.Empty? then [] else [s.id] + Spine(s.left)
  }

  // ---------------------------------------------------------------------
  // Arena facts

  /** The root id matches the shape, and every node of the shape is a cell of the
      arena. */
  lemma {:induction false} RepIds(h: seq<Cell>, n: int, s: Shape)
    requires Rep(h, n, s)
    ensures n == RootId(s)
    ensures forall i :: i in Ids(s) ==> 0 <= i < |h|
    decreases s
  {
    if s.Branch? {
      RepIds(h, h[s.id].left, s.left);
      RepIds(h, h[s.id].right, s.right);
    }
  }

  /** Writes outside the shape's nodes, and growth of the arena, do not
      disturb it. */
  lemma {:induction false} RepFrame(h: seq<Cell>, h': seq<Cell>, n: int, s: Shape)
    requires Rep(h, n, s)
    requires forall i :: i in Ids(s) ==> 0 <= i < |h| && i < |h'| && h'[i] == h[i]
    ensures Rep(h', n, s)
    decreases s
  {
    if s.Branch? {
      RepFrame(h, h', h[s.id].left, s.left);
      RepFrame(h, h', h[s.id].right, s.right);
    }
  }

  /** Reading node q of the arena gives the root of the subtree at q. */
  lemma {:induction false} RepSub(h: seq<Cell>, n: int, s: Shape, q: int)
    requires Rep(h, n, s) && q in Ids(s)
    ensures Sub(s, q).Branch? && Sub(s, q).id == q
    ensures Rep(h, q, Sub(s, q))
    ensures h[q].value == Sub(s, q).value
    ensures h[q].left == RootId(Sub(s, q).left) && h[q].right == RootId(Sub(s, q).right)
    decreases s
  {
    var l, r := s.left, s.right;
    if s.id != q {
      if q in Ids(l) {
        RepSub(h, h[s.id].left, l, q);
      } else {
        RepSub(h, h[s.id].right, r, q);
      }
    } else {
      RepIds(h, h[q].left, l);
      RepIds(h, h[q].right, r);
    }
  }

  // ---------------------------------------------------------------------
  // Subtrees

  /** The subtree at q is a node of s with id q, and inherits its properties. */
  lemma {:induction false} SubIn(s: Shape, q: int)
    requires q in Ids(s)
    ensures Sub(s, q).Branch? && Sub(s, q).id == q
    ensures Ids(Sub(s, q)) <= Ids(s)
    ensures Unique(s) ==> Unique(Sub(s, q))
    ensures View(Sub(s, q)) == View(s) || Trees.Size(View(Sub(s, q))) < Trees.Size(View(s))
    ensures Trees.BST(View(s)) ==> Trees.BST(View(Sub(s, q)))
    ensures Trees.Elements(View(Sub(s, q))) <= Trees.Elements(View(s))
  {
    if s.id != q {
      if q in Ids(s.left) {
        SubIn(s.left, q);
      } else {
        SubIn(s.right, q);
      }
    }
  }

  /** A subtree of a subtree is the subtree of the whole. */
  lemma {:induction false} SubSub(s: Shape, q: int, i: int)
    requires Unique(s) && q in Ids(s) && i in Ids(Sub(s, q))
    ensures i in Ids(s) && Sub(s, i) == Sub(Sub(s, q), i)
  {
    SubIn(s, q);
    if s.id != q {
      if q in Ids(s.left) {
        SubSub(s.left, q, i);
        SubIn(s.left, q);
      } else {
        SubSub(s.right, q, i);
        SubIn(s.right, q);
      }
    }
  }

  /** The children of node q are the subtrees at their ids. */
  lemma SubChildren(s: Shape, q: int)
    requires Unique(s) && q in Ids(s)
    ensures var t := Sub(s, q);
      && t.Branch?
      && (t.left.Branch? ==> Sub(s, t.left.id) == t.left)
      && (t.right.Branch? ==> Sub(s, t.right.id) == t.right)
  {
    SubIn(s, q);
    var t := Sub(s, q);
    if t.left.Branch? {
      SubSub(s, q, t.left.id);
    }
    if t.right.Branch? {
      SubSub(s, q, t.right.id);
    }
  }

  // ---------------------------------------------------------------------
  // Replacing a subtree

  /** Replacing at an id that is not in s changes nothing. */
  lemma {:induction false} ReplaceAtAbsent(s: Shape, q: int, t: Shape)
    requires q !in Ids(s)
    ensures ReplaceAt(s, q, t) == s
  {
    if s.Branch? {
      ReplaceAtAbsent(s.left, q, t);
      ReplaceAtAbsent(s.right, q, t);
    }
  }

  /** Replacing the subtree at q by t: which ids remain, and they stay owned
      once. */
  lemma {:induction false} ReplaceAtIds(s: Shape, q: int, t: Shape)
    requires Unique(s) && q in Ids(s) && Unique(t)
    requires Ids(t) !! (Ids(s) - Ids(Sub(s, q)))
    ensures Ids(ReplaceAt(s, q, t)) == (Ids(s) - Ids(Sub(s, q))) + Ids(t)
    ensures Unique(ReplaceAt(s, q, t))
    ensures RootId(ReplaceAt(s, q, t)) == if s.id == q then RootId(t) else s.id
  {
    if s.id != q {
      if q in Ids(s.left) {
        SubIn(s.left, q);
        ReplaceAtIds(s.left, q, t);
        ReplaceAtAbsent(s.right, q, t);
        ReplacedLeft(s, q, t);
      } else {
        SubIn(s.right, q);
        ReplaceAtIds(s.right, q, t);
        ReplaceAtAbsent(s.left, q, t);
        ReplacedRight(s, q, t);
      }
    }
  }

  /** The step of ReplaceAtIds when q lies in the left subtree. */
  lemma ReplacedLeft(s: Shape, q: int, t: Shape)
    requires Unique(s) && s.Branch? && s.id != q && q in Ids(s.left) && Unique(t)
    requires Ids(t) !! (Ids(s) - Ids(Sub(s, q))) && Ids(Sub(s.left, q)) <= Ids(s.left)
    requires Ids(ReplaceAt(s.left, q, t)) == (Ids(s.left) - Ids(Sub(s.left, q))) + Ids(t)
    requires Unique(ReplaceAt(s.left, q, t)) && ReplaceAt(s.right, q, t) == s.right
    ensures Ids(ReplaceAt(s, q, t)) == (Ids(s) - Ids(Sub(s, q))) + Ids(t)
    ensures Unique(ReplaceAt(s, q, t))
  {
    assert Sub(s, q) == Sub(s.left, q);
    assert s.id !in Ids(t) && Ids(s.right) !! Ids(t);
  }

  /** The step of ReplaceAtIds when q lies in the right subtree. */
  lemma ReplacedRight(s: Shape, q: int, t: Shape)
    requires Unique(s) && s.Branch? && s.id != q && q !in Ids(s.left) && q in Ids(s.right) && Unique(t)
    requires Ids(t) !! (Ids(s) - Ids(Sub(s, q))) && Ids(Sub(s.right, q)) <= Ids(s.right)
    requires Ids(ReplaceAt(s.right, q, t)) == (Ids(s.right) - Ids(Sub(s.right, q))) + Ids(t)
    requires Unique(ReplaceAt(s.right, q, t)) && ReplaceAt(s.left, q, t) == s.left
    ensures Ids(ReplaceAt(s, q, t)) == (Ids(s) - Ids(Sub(s, q))) + Ids(t)
    ensures Unique(ReplaceAt(s, q, t))
  {
    assert Sub(s, q) == Sub(s.right, q);
    assert s.id !in Ids(t) && Ids(s.left) !! Ids(t);
  }

  /** The arena holds the replaced shape when the new subtree is in place at
      q's id and nothing outside q's old subtree was written. */
  lemma {:induction false} RepReplaceAt(h: seq<Cell>, h': seq<Cell>, n: int, s: Shape, q: int, t: Shape)
    requires Rep(h, n, s) && Unique(s) && q in Ids(s)
    requires t.Branch? && t.id == q && Rep(h', q, t)
    requires forall i :: i in Ids(s) && i !in Ids(Sub(s, q)) ==> 0 <= i < |h| && i < |h'| && h'[i] == h[i]
    ensures Rep(h', n, ReplaceAt(s, q, t))
    decreases s
  {
    if s.id != q {
      var l, r := s.left, s.right;
      if q in Ids(l) {
        SubIn(l, q);
        RepReplaceAt(h, h', h[s.id].left, l, q, t);
        ReplaceAtAbsent(r, q, t);
        RepFrame(h, h', h[s.id].right, r);
      } else {
        SubIn(r, q);
        RepReplaceAt(h, h', h[s.id].right, r, q, t);
        ReplaceAtAbsent(l, q, t);
        RepFrame(h, h', h[s.id].left, l);
      }
    }
  }

  // ---------------------------------------------------------------------
  // Paths from the root

  /** The path to a node below p runs through p. */
  lemma {:induction false} PathThrough(s: Shape, p: int, q: int)
    requires Unique(s) && p in Ids(s) && q in Ids(Sub(s, p))
    ensures q in Ids(s)
    ensures Path(s, q) == Path(s, p)[..|Path(s, p)| - 1] + Path(Sub(s, p), q)
  {
    SubIn(s, p);
    if s.id != p {
      var c := if p in Ids(s.left) then s.left else s.right;
      SubIn(c, p);
      PathThrough(c, p, q);
      PathThroughStep(s, c, p, q);
    }
  }

  /** One level of `PathThrough`: the path through the child c gains the
      root in front on both sides. */
  lemma PathThroughStep(s: Shape, c: Shape, p: int, q: int)
    requires Unique(s) && s.Branch? && (c == s.left || c == s.right) && p in Ids(c)
    requires q in Ids(Sub(c, p)) && Ids(Sub(c, p)) <= Ids(c) && Sub(s, p) == Sub(c, p)
    requires Path(c, q) == Path(c, p)[..|Path(c, p)| - 1] + Path(Sub(c, p), q)
    ensures Path(s, q) == Path(s, p)[..|Path(s, p)| - 1] + Path(Sub(s, p), q)
  {
    ChildPath(s, c, p);
    ChildPath(s, c, q);
    DropLastCons(s.id, Path(c, p), Path(Sub(c, p), q));
  }

  /** Every node on the path to q has q below it. */
  lemma {:induction false} PathBelow(s: Shape, q: int, k: int)
    requires Unique(s) && q in Ids(s) && 0 <= k < |Path(s, q)|
    ensures Path(s, q)[k] in Ids(s)
    ensures q in Ids(Sub(s, Path(s, q)[k]))
    ensures Path(s, Path(s, q)[k]) == Path(s, q)[..k + 1]
  {
    if k == 0 {
      assert Path(s, q)[..1] == [s.id];
    } else {
      var c := if q in Ids(s.left) then s.left else s.right;
      PathBelow(c, q, k - 1);
      PathBelowStep(s, c, q, k);
    }
  }

  /** The step of PathBelow from a child c of the root up to the root. */
  lemma PathBelowStep(s: Shape, c: Shape, q: int, k: int)
    requires Unique(s) && q in Ids(s) && 1 <= k < |Path(s, q)|
    requires c == if q in Ids(s.left) then s.left else s.right
    requires q in Ids(c) && k - 1 < |Path(c, q)|
    requires var x := Path(c, q)[k - 1];
      x in Ids(c) && q in Ids(Sub(c, x)) && Path(c, x) == Path(c, q)[..k]
    ensures Path(s, q)[k] in Ids(s)
    ensures q in Ids(Sub(s, Path(s, q)[k]))
    ensures Path(s, Path(s, q)[k]) == Path(s, q)[..k + 1]
  {
    ChildPath(s, c, q);
    var x := Path(c, q)[k - 1];
    assert Path(s, q)[k] == x;
    ChildPath(s, c, x);
    ConsTake(s.id, Path(c, q), k);
  }

  /** Sequence helper for PathBelowStep: taking a prefix commutes with
      putting one element in front. */
  lemma ConsTake(a: int, b: seq<int>, k: int)
    requires 0 <= k <= |b|
    ensures ([a] + b)[..k + 1] == [a] + b[..k]
  {
    assert forall i :: 0 <= i <= k ==> ([a] + b)[..k + 1][i] == ([a] + b[..k])[i];
  }

  /** Below the root, paths and subtrees are those of the child that holds
      the node. */
  lemma ChildPath(s: Shape, c: Shape, x: int)
    requires Unique(s) && s.Branch? && (c == s.left || c == s.right) && x in Ids(c)
    ensures Path(s, x) == [s.id] + Path(c, x) && Sub(s, x) == Sub(c, x)
  {
    assert x != s.id;
    if c == s.right {
      assert x !in Ids(s.left);
    }
  }

  /** A node with q below it lies on the path to q. */
  lemma PathAbove(s: Shape, p: int, q: int)
    requires Unique(s) && p in Ids(s) && q in Ids(Sub(s, p))
    ensures q in Ids(s) && p in Path(s, q)
  {
    PathThrough(s, p, q);
    SubIn(s, p);
    assert Path(Sub(s, p), q)[0] == p;
  }

  /** No node appears twice on a path. */
  lemma {:induction false} PathDistinct(s: Shape, q: int)
    requires Unique(s) && q in Ids(s)
    ensures forall i, j :: 0 <= i < j < |Path(s, q)| ==> Path(s, q)[i] != Path(s, q)[j]
    ensures forall k :: 0 <= k < |Path(s, q)| ==> Path(s, q)[k] in Ids(s)
  {
    if s.id != q {
      var c := if q in Ids(s.left) then s.left else s.right;
      PathDistinct(c, q);
      assert Path(s, q) == [s.id] + Path(c, q);
    }
  }

  /** The two-step path [t.id, q] means q is a child of t. */
  lemma ChildOfPath(s: Shape, p: int, q: int)
    requires Unique(s) && q in Ids(s) && |Path(s, q)| >= 2 && p == Path(s, q)[|Path(s, q)| - 2]
    ensures p in Ids(s)
    ensures var t := Sub(s, p);
      && t.Branch? && t.id == p
      && ((t.left.Branch? && t.left.id == q) || (t.right.Branch? && t.right.id == q))
  {
    var n := |Path(s, q)|;
    PathBelow(s, q, n - 2);
    SubIn(s, p);
    PathThrough(s, p, q);
    var t := Sub(s, p);
    assert Path(t, q) == [p, q];
    if t.left.Branch? && q in Ids(t.left) {
      assert Path(t.left, q)[0] == q;
    } else {
      assert Path(t.right, q)[0] == q;
    }
  }

  /** Replacing inside the subtree at p is replacing in the whole tree. */
  lemma {:induction false} ReplaceThrough(s: Shape, p: int, c: int, t: Shape)
    requires Unique(s) && p in Ids(s) && c in Ids(Sub(s, p))
    ensures ReplaceAt(s, p, ReplaceAt(Sub(s, p), c, t)) == ReplaceAt(s, c, t)
  {
    var x := ReplaceAt(Sub(s, p), c, t);
    if s.id != p {
      if p in Ids(s.left) {
        SubIn(s.left, p);
        ReplaceThrough(s.left, p, c, t);
        ReplaceAtAbsent(s.right, p, x);
        ReplaceAtAbsent(s.right, c, t);
      } else {
        SubIn(s.right, p);
        ReplaceThrough(s.right, p, c, t);
        ReplaceAtAbsent(s.left, p, x);
        ReplaceAtAbsent(s.left, c, t);
      }
    }
  }

  /** Re-pointing the child field of c's parent p at the root of t puts t in
      place of the subtree at c, provided nothing else outside that subtree
      changed and t shares no node with what stays. */
  lemma RepRelink(h: seq<Cell>, h': seq<Cell>, n: int, s: Shape, c: int, t: Shape, p: int, toRight: bool)
    requires Rep(h, n, s) && Unique(s) && p in Ids(s)
    requires var q := Sub(s, p);
      && q.Branch?
      && 0 <= p < |h| && p < |h'|
      && (if toRight then q.right.Branch? && q.right.id == c && h'[p] == h[p].(right := RootId(t))
          else q.left.Branch? && q.left.id == c && h'[p] == h[p].(left := RootId(t)))
    requires Rep(h', RootId(t), t)
    requires forall i :: i in Ids(s) && i !in Ids(Sub(s, p)) ==> 0 <= i < |h| && i < |h'| && h'[i] == h[i]
    requires forall i :: i in Ids(Sub(s, p)) && i !in Ids(Sub(s, c)) && i != p ==> 0 <= i < |h| && i < |h'| && h'[i] == h[i]
    ensures Rep(h', n, ReplaceAt(s, c, t))
  {
    var q := Sub(s, p);
    SubIn(s, p);
    RepSub(h, n, s, p);
    var x := ReplaceAt(q, c, t);
    if toRight {
      assert c in Ids(q) && c != p;
      ReplaceAtAbsent(q.left, c, t);
      assert ReplaceAt(q.right, c, t) == t;
      assert x == Branch(q.left, p, q.value, t);
      SubSub(s, p, c);
      RepFrame(h, h', h[p].left, q.left);
    } else {
      assert c in Ids(q) && c != p;
      ReplaceAtAbsent(q.right, c, t);
      assert ReplaceAt(q.left, c, t) == t;
      assert x == Branch(t, p, q.value, q.right);
      SubSub(s, p, c);
      RepFrame(h, h', h[p].right, q.right);
    }
    RepReplaceAt(h, h', n, s, p, x);
    ReplaceThrough(s, p, c, t);
  }

  // ---------------------------------------------------------------------
  // Subtrees and paths after replacing the subtree at c by t

  /** t may take the place of the subtree at c: both are owned once and t
      shares no node with what stays. */
  predicate Replaceable(s: Shape, c: int, t: Shape) {
    Unique(s) && c in Ids(s) && Unique(t) && Ids(t) !! (Ids(s) - Ids(Sub(s, c)))
  }

  /** Above c, a subtree changes only by the replacement inside it. */
  lemma {:induction false} SubReplaceAbove(s: Shape, c: int, t: Shape, p: int)
    requires Replaceable(s, c, t) && p in Ids(s) && c in Ids(Sub(s, p)) && p != c
    ensures p in Ids(ReplaceAt(s, c, t))
    ensures Sub(ReplaceAt(s, c, t), p) == ReplaceAt(Sub(s, p), c, t)
  {
    SubIn(s, p);
    SubIn(s, c);
    ReplaceAtIds(s, c, t);
    PathAbove(s, p, c);
    if s.id != p {
      var l, r := s.left, s.right;
      if p in Ids(l) {
        SubIn(l, p);
        SubSub(l, p, c);
        ReplaceAtIds(l, c, t);
        SubReplaceAbove(l, c, t, p);
      } else {
        SubIn(r, p);
        SubSub(r, p, c);
        ReplaceAtIds(r, c, t);
        ReplaceAtAbsent(l, c, t);
        SubReplaceAbove(r, c, t, p);
      }
    }
  }

  /** Inside t, subtrees are those of t. */
  lemma {:induction false} SubReplaceInside(s: Shape, c: int, t: Shape, q: int)
    requires Replaceable(s, c, t) && q in Ids(t)
    ensures q in Ids(ReplaceAt(s, c, t))
    ensures Sub(ReplaceAt(s, c, t), q) == Sub(t, q)
  {
    ReplaceAtIds(s, c, t);
    if s.id != c {
      var l, r := s.left, s.right;
      if c in Ids(l) {
        SubIn(l, c);
        ReplaceAtIds(l, c, t);
        ReplaceAtAbsent(r, c, t);
        SubReplaceInside(l, c, t, q);
      } else {
        SubIn(r, c);
        ReplaceAtIds(r, c, t);
        ReplaceAtAbsent(l, c, t);
        SubReplaceInside(r, c, t, q);
      }
    }
  }

  /** Paths to nodes outside the replaced subtree do not change. */
  lemma {:induction false} PathReplaceOutside(s: Shape, c: int, t: Shape, q: int)
    requires Replaceable(s, c, t) && q in Ids(s) && q !in Ids(Sub(s, c))
    ensures q in Ids(ReplaceAt(s, c, t))
    ensures Path(ReplaceAt(s, c, t), q) == Path(s, q)
  {
    ReplaceAtIds(s, c, t);
    if s.id != q {
      var l, r := s.left, s.right;
      if c in Ids(l) {
        SubIn(l, c);
        ReplaceAtIds(l, c, t);
        ReplaceAtAbsent(r, c, t);
        if q in Ids(l) {
          PathReplaceOutside(l, c, t, q);
        }
      } else {
        SubIn(r, c);
        ReplaceAtIds(r, c, t);
        ReplaceAtAbsent(l, c, t);
        if q in Ids(r) {
          PathReplaceOutside(r, c, t, q);
        }
      }
    }
  }

  /** Paths into t run through c's old position. */
  lemma {:induction false} PathReplaceInside(s: Shape, c: int, t: Shape, q: int)
    requires Replaceable(s, c, t) && q in Ids(t)
    ensures q in Ids(ReplaceAt(s, c, t))
    ensures Path(ReplaceAt(s, c, t), q) == Path(s, c)[..|Path(s, c)| - 1] + Path(t, q)
  {
    if s.id == c {
      assert Path(s, c)[..|Path(s, c)| - 1] == [];
    } else {
      var sub := if c in Ids(s.left) then s.left else s.right;
      ReplaceableChild(s, c, t, sub);
      PathReplaceInside(sub, c, t, q);
      InsideStep(s, c, t, q, sub);
    }
  }

  /** Replacing below the root of s is replacing in the child that holds c. */
  lemma ReplaceableChild(s: Shape, c: int, t: Shape, sub: Shape)
    requires Replaceable(s, c, t) && s.id != c && sub == if c in Ids(s.left) then s.left else s.right
    ensures Replaceable(sub, c, t) && Sub(sub, c) == Sub(s, c)
    ensures ReplaceAt(s, c, t) == if c in Ids(s.left) then Branch(ReplaceAt(s.left, c, t), s.id, s.value, s.right)
      else Branch(s.left, s.id, s.value, ReplaceAt(s.right, c, t))
  {
    SubIn(sub, c);
    if c in Ids(s.left) {
      ReplaceAtAbsent(s.right, c, t);
    } else {
      ReplaceAtAbsent(s.left, c, t);
    }
  }

  /** The step of PathReplaceInside from the child that holds c up to s. */
  lemma InsideStep(s: Shape, c: int, t: Shape, q: int, sub: Shape)
    requires Replaceable(s, c, t) && s.id != c && q in Ids(t)
    requires sub == if c in Ids(s.left) then s.left else s.right
    requires Replaceable(sub, c, t) && Sub(sub, c) == Sub(s, c)
    requires ReplaceAt(s, c, t) == if c in Ids(s.left) then Branch(ReplaceAt(s.left, c, t), s.id, s.value, s.right)
      else Branch(s.left, s.id, s.value, ReplaceAt(s.right, c, t))
    requires q in Ids(ReplaceAt(sub, c, t))
    requires Path(ReplaceAt(sub, c, t), q) == Path(sub, c)[..|Path(sub, c)| - 1] + Path(t, q)
    ensures q in Ids(ReplaceAt(s, c, t))
    ensures Path(ReplaceAt(s, c, t), q) == Path(s, c)[..|Path(s, c)| - 1] + Path(t, q)
  {
    var s' := ReplaceAt(s, c, t);
    ReplaceAtIds(s, c, t);
    ChildPath(s, sub, c);
    ChildPath(s', ReplaceAt(sub, c, t), q);
    DropLastCons(s.id, Path(sub, c), Path(t, q));
  }

  /** Sequence helper for PathThroughStep and InsideStep: dropping the last
      element commutes with putting one in front. */
  lemma DropLastCons(x: int, p: seq<int>, u: seq<int>)
    requires |p| > 0
    ensures ([x] + p)[..|p|] + u == [x] + (p[..|p| - 1] + u)
  {
  }

  /** Removing x at its own node c and putting the result in c's place is
      what removing x from the whole ordered tree does. */
  lemma {:induction false} RemoveInPlace(s: Shape, c: int, t: Shape)
    requires Unique(s) && Trees.BST(View(s)) && c in Ids(s) && Sub(s, c).Branch?
    requires View(t) == Trees.RemoveNode(View(Sub(s, c)), Sub(s, c).value).0
    ensures View(ReplaceAt(s, c, t)) == Trees.RemoveNode(View(s), Sub(s, c).value).0
  {
    SubIn(s, c);
    var x := Sub(s, c).value;
    if s.id != c {
      var l, r := s.left, s.right;
      if c in Ids(l) {
        SubIn(l, c);
        assert x in Trees.Elements(View(l));
        ReplaceAtAbsent(r, c, t);
        RemoveInPlace(l, c, t);
      } else {
        SubIn(r, c);
        assert x in Trees.Elements(View(r));
        ReplaceAtAbsent(l, c, t);
        RemoveInPlace(r, c, t);
      }
    }
  }
}
