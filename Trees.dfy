/** The binary search tree of BinarySearchTree.kt as a value: the set of
    elements it holds, its in-order sequence, the ordering invariant, and the
    value-level effect of `add` and of the recursive `removeNode`. These are
    the specification functions the node arena in Bst.dfy is proved against. */
module Trees {

  datatype Tree = Leaf | Node(left: Tree, value: int, right: Tree)

  /** The set the tree stands for. */
  function Elements(t: Tree): set<int> {
    match t
    case Leaf => {}
    case Node(l, v, r) => Elements(l) + {v} + Elements(r)
  }

  /** Number of nodes (what `_size` counts). */
  function Size(t: Tree): nat {
    match t
    case Leaf => 0
    case Node(l, _, r) => Size(l) + 1 + Size(r)
  }

  function Height(t: Tree): nat {
    match t
    case Leaf => 0
    case Node(l, _, r) => 1 + if Height(l) < Height(r) then Height(r) else Height(l)
  }

  /** In-order traversal: left subtree, node, right subtree. */
  function Inorder(t: Tree): (s: seq<int>)
    ensures |s| == Size(t)
    ensures forall y :: y in s <==> y in Elements(t)
  {
    match t
    case Leaf => []
    case Node(l, v, r) => Inorder(l) + [v] + Inorder(r)
  }

  /** Strict ordering: left values below the node's value, right values above. */
  predicate BST(t: Tree) {
    match t
    case Leaf => true
    case Node(l, v, r) =>
      && BST(l) && BST(r)
      && (forall y :: y in Elements(l) ==> y < v)
      && (forall y :: y in Elements(r) ==> v < y)
  }

  /** Strictly increasing, hence without repetitions. */
  predicate Increasing(s: seq<int>) {
    forall i, j :: 0 <= i < j < |s| ==> s[i] < s[j]
  }

  /** The sequence with every occurrence of x dropped. */
  function Without(s: seq<int>, x: int): seq<int> {
    if s == [] then []
    else if s[0] == x then Without(s[1..], x)
    else [s[0]] + Without(s[1..], x)
  }

  /** Smallest value: the value of the leftmost node (`minNode`). */
  function Min(t: Tree): (m: int)
    requires t.Node?
    ensures m in Elements(t)
    ensures BST(t) ==> forall y :: y in Elements(t) ==> m <= y
  {
    if t.left == Leaf then t.value else Min(t.left)
  }

  /** Largest value: the value of the rightmost node. */
  function Max(t: Tree): (m: int)
    requires t.Node?
    ensures m in Elements(t)
    ensures BST(t) ==> forall y :: y in Elements(t) ==> y <= m
  {
    if t.right == Leaf then t.value else Max(t.right)
  }

  /** What `add` does to the tree, as a value: descend by comparison and hang
      a new leaf in the empty slot where the search stops; an equal value
      leaves the tree as it is. */
  function Insert(t: Tree, x: int): (r: Tree)
    ensures Elements(r) == Elements(t) + {x}
    ensures BST(t) ==> BST(r)
    ensures BST(t) && x in Elements(t) ==> r == t
    ensures x !in Elements(t) ==> Size(r) == Size(t) + 1
  {
    match t
    case Leaf => Node(Leaf, x, Leaf)
    case Node(l, v, rt) =>
      if x < v then Node(Insert(l, x), v, rt)
      else if v < x then Node(l, v, Insert(rt, x))
      else t
  }

  /** `removeNode`: the subtree to put in place of `t` and whether a node
      holding x was found. A missing child yields (Leaf, false), which is the
      `?: false` of the callers in the source. */
  function RemoveNode(t: Tree, x: int): (r: (Tree, bool))
    ensures r.1 ==> x in Elements(t)
    ensures BST(t) ==> r.1 == (x in Elements(t))
    ensures BST(t) ==> BST(r.0) && Elements(r.0) == Elements(t) - {x}
    ensures BST(t) ==> Size(r.0) == if r.1 then Size(t) - 1 else Size(t)
    ensures !r.1 ==> r.0 == t
    ensures Height(r.0) <= Height(t)
  {
    match t
    case Leaf => (Leaf, false)
    case Node(l, v, rt) =>
      if x < v then
        var (l', found) := RemoveNode(l, x);
        (Node(l', v, rt), found)
      else if v < x then
        var (rt', found) := RemoveNode(rt, x);
        (Node(l, v, rt'), found)
      else if l == Leaf && rt == Leaf then (Leaf, true)
      else if l == Leaf then (rt, true)
      else if rt == Leaf then (l, true)
      else
        var m := Min(rt);
        var rt' := RemoveNode(rt, m).0;
        if BST(t) then
          CopiedSuccessor(l, x, rt, rt');
          (Node(l, m, rt'), true)
        else
          (Node(l, m, rt'), true)
  }

  /** The two-children case of `RemoveNode`: with the right subtree's
      minimum m copied up and removed below, the node is ordered and holds
      the old elements minus x. */
  lemma CopiedSuccessor(l: Tree, x: int, rt: Tree, rt': Tree)
    requires BST(Node(l, x, rt)) && rt.Node?
    requires BST(rt') && Elements(rt') == Elements(rt) - {Min(rt)}
    ensures BST(Node(l, Min(rt), rt'))
    ensures Elements(Node(l, Min(rt), rt')) == Elements(Node(l, x, rt)) - {x}
  {
    var m := Min(rt);
    assert forall y :: y in Elements(l) ==> y < m;
    assert forall y :: y in Elements(rt') ==> m < y;
  }

  /** Dropping x distributes over concatenation. */
  lemma {:induction false} WithoutConcat(a: seq<int>, b: seq<int>, x: int)
    ensures Without(a + b, x) == Without(a, x) + Without(b, x)
  {
    if a == [] {
      assert a + b == b;
    } else {
      assert (a + b)[0] == a[0] && (a + b)[1..] == a[1..] + b;
      WithoutConcat(a[1..], b, x);
    }
  }

  /** Dropping a value that does not occur changes nothing. */
  lemma {:induction false} WithoutAbsent(s: seq<int>, x: int)
    requires x !in s
    ensures Without(s, x) == s
  {
    if s != [] {
      WithoutAbsent(s[1..], x);
    }
  }

  /** Dropping the last element of a strictly increasing a + r: no other
      position holds that value. */
  lemma WithoutLast(a: seq<int>, r: seq<int>)
    requires Increasing(a + r) && a != []
    ensures Without(a + r, a[|a| - 1]) == a[..|a| - 1] + r
  {
    var n := |a|;
    var v := a[n - 1];
    var b := a[..n - 1];
    assert a + r == b + ([v] + r);
    WithoutConcat(b, [v] + r, v);
    WithoutConcat([v], r, v);
    forall k | 0 <= k < |b| ensures b[k] != v {
      assert b[k] == (a + r)[k] && v == (a + r)[n - 1];
    }
    forall k | 0 <= k < |r| ensures r[k] != v {
      assert r[k] == (a + r)[n + k] && v == (a + r)[n - 1];
    }
    WithoutAbsent(b, v);
    WithoutAbsent(r, v);
    assert Without([v], v) == [];
  }

  /** In a strictly increasing sequence a value is above all before it. */
  lemma IncreasingStep(a: seq<int>, v: int, rest: seq<int>)
    requires Increasing(a + [v] + rest) && a != []
    ensures a[|a| - 1] < v
  {
    var s := a + [v] + rest;
    assert s[|a| - 1] == a[|a| - 1] && s[|a|] == v;
  }

  /** The in-order sequence of an ordered tree is strictly increasing, so
      every value appears in it exactly once and in ascending order. */
  lemma {:induction false} InorderIncreasing(t: Tree)
    requires BST(t)
    ensures Increasing(Inorder(t))
  {
    if t.Node? {
      InorderIncreasing(t.left);
      InorderIncreasing(t.right);
      var a, b := Inorder(t.left), Inorder(t.right);
      var s := Inorder(t);
      assert s == a + [t.value] + b;
      forall i, j | 0 <= i < j < |s| ensures s[i] < s[j] {
        if i < |a| {
          assert s[i] in Elements(t.left);
        } else if i > |a| {
          assert s[i] == b[i - |a| - 1];
        }
        if j < |a| {
          assert s[j] == a[j];
        } else if j > |a| {
          assert s[j] == b[j - |a| - 1];
          assert s[j] in Elements(t.right);
        }
      }
    }
  }

  /** The smallest value comes first in the in-order sequence. */
  lemma {:induction false} InorderStartsWithMin(t: Tree)
    requires t.Node?
    ensures Inorder(t)[0] == Min(t)
  {
    if t.left != Leaf {
      InorderStartsWithMin(t.left);
    }
  }

  /** Removing x from an ordered tree removes exactly x from its in-order
      sequence and leaves every other value where it was. */
  lemma {:induction false} InorderRemoveNode(t: Tree, x: int)
    requires BST(t)
    ensures Inorder(RemoveNode(t, x).0) == Without(Inorder(t), x)
    decreases t, 1
  {
    match t
    case Leaf =>
    case Node(l, v, r) =>
      WithoutConcat(Inorder(l) + [v], Inorder(r), x);
      WithoutConcat(Inorder(l), [v], x);
      if x < v {
        InorderRemoveNode(l, x);
        InorderRemoveBelow(t, x);
      } else if v < x {
        InorderRemoveNode(r, x);
        InorderRemoveAbove(t, x);
      } else {
        InorderRemoveHere(t);
      }
  }

  /** In an ordered tree the root's value occurs once in the in-order
      sequence: taking it out leaves the two subtrees' sequences. */
  lemma WithoutRoot(t: Tree)
    requires BST(t) && t.Node?
    ensures Without(Inorder(t), t.value) == Inorder(t.left) + Inorder(t.right)
  {
    var x := t.value;
    var a, b := Inorder(t.left), Inorder(t.right);
    assert x !in Elements(t.left) && x !in Elements(t.right);
    calc {
      Without(Inorder(t), x);
      { assert Inorder(t) == (a + [x]) + b; }
      Without((a + [x]) + b, x);
      { WithoutConcat(a + [x], b, x); }
      Without(a + [x], x) + Without(b, x);
      { WithoutConcat(a, [x], x); assert Without([x], x) == []; }
      (Without(a, x) + []) + Without(b, x);
      { WithoutAbsent(a, x); WithoutAbsent(b, x); assert a + [] == a; }
      a + b;
    }
  }

  /** One step of InorderRemoveNode: x is the value of the root. */
  lemma InorderRemoveHere(t: Tree)
    requires BST(t) && t.Node?
    ensures Inorder(RemoveNode(t, t.value).0) == Without(Inorder(t), t.value)
    decreases t, 0
  {
    var x := t.value;
    WithoutRoot(t);
    if t.left == Leaf && t.right == Leaf {
      assert RemoveNode(t, x).0 == Leaf;
    } else if t.left == Leaf {
      assert RemoveNode(t, x).0 == t.right;
    } else if t.right == Leaf {
      assert RemoveNode(t, x).0 == t.left;
    } else {
      var m := Min(t.right);
      InorderRemoveMin(t.right);
      assert RemoveNode(t, x).0 == Node(t.left, m, RemoveNode(t.right, m).0);
    }
  }

  /** One step of InorderRemoveNode: x is searched in the left subtree. */
  lemma InorderRemoveBelow(t: Tree, x: int)
    requires BST(t) && t.Node? && x < t.value
    requires Inorder(RemoveNode(t.left, x).0) == Without(Inorder(t.left), x)
    requires Without(Inorder(t), x) == Without(Inorder(t.left), x) + Without([t.value], x) + Without(Inorder(t.right), x)
    ensures Inorder(RemoveNode(t, x).0) == Without(Inorder(t), x)
  {
    var l' := RemoveNode(t.left, x).0;
    assert RemoveNode(t, x).0 == Node(l', t.value, t.right);
    assert Without([t.value], x) == [t.value];
    assert x !in Inorder(t.right);
    WithoutAbsent(Inorder(t.right), x);
  }

  /** One step of InorderRemoveNode: x is searched in the right subtree. */
  lemma InorderRemoveAbove(t: Tree, x: int)
    requires BST(t) && t.Node? && t.value < x
    requires Inorder(RemoveNode(t.right, x).0) == Without(Inorder(t.right), x)
    requires Without(Inorder(t), x) == Without(Inorder(t.left), x) + Without([t.value], x) + Without(Inorder(t.right), x)
    ensures Inorder(RemoveNode(t, x).0) == Without(Inorder(t), x)
  {
    var r' := RemoveNode(t.right, x).0;
    assert RemoveNode(t, x).0 == Node(t.left, t.value, r');
    assert Without([t.value], x) == [t.value];
    assert x !in Inorder(t.left);
    WithoutAbsent(Inorder(t.left), x);
  }

  /** The in-order sequence of a non-empty ordered tree is its minimum followed
      by the in-order sequence of the tree with the minimum removed. */
  lemma {:induction false} InorderRemoveMin(t: Tree)
    requires BST(t) && t.Node?
    ensures Inorder(t) == [Min(t)] + Inorder(RemoveNode(t, Min(t)).0)
    decreases t, 2
  {
    var m := Min(t);
    InorderRemoveNode(t, m);
    InorderStartsWithMin(t);
    InorderIncreasing(t);
    WithoutHead(Inorder(t));
  }

  /** Dropping the first element from an increasing sequence drops it
      exactly once and nothing else. */
  lemma WithoutHead(s: seq<int>)
    requires Increasing(s) && s != []
    ensures Without(s, s[0]) == s[1..]
  {
    var m := s[0];
    assert s == [m] + s[1..];
    WithoutConcat([m], s[1..], m);
    HeadNotInTail(s);
    WithoutAbsent(s[1..], m);
    assert Without([m], m) == [];
  }

  /** The first element of an increasing sequence does not come again. */
  lemma HeadNotInTail(s: seq<int>)
    requires Increasing(s) && s != []
    ensures s[0] !in s[1..]
  {
    forall k | 0 <= k < |s| - 1 ensures s[1..][k] != s[0] {
      assert s[1..][k] == s[k + 1];
    }
  }

  /** `size` counts the nodes, and in an ordered tree that is the number of
      distinct values. */
  lemma {:induction false} SizeIsCardinality(t: Tree)
    requires BST(t)
    ensures Size(t) == |Elements(t)|
  {
    if t.Node? {
      SizeIsCardinality(t.left);
      SizeIsCardinality(t.right);
      var a, b := Elements(t.left), Elements(t.right);
      forall y | y in a ensures y < t.value { }
      forall y | y in b ensures t.value < y { }
      assert a !! {t.value} && (a + {t.value}) !! b;
    }
  }

  /** In the two-children case the fresh node takes the smallest value of the
      right subtree: it is the next value after the removed one, above every
      value kept on the left and below every value kept on the right. */
  lemma {:induction false} SuccessorReplacement(t: Tree)
    requires BST(t) && t.Node? && t.left.Node? && t.right.Node?
    ensures var m := Min(t.right);
      && t.value < m
      && (forall y :: y in Elements(t.left) ==> y < m)
      && (forall y :: y in Elements(RemoveNode(t.right, m).0) ==> m < y)
      && (forall y :: y in Elements(t) && t.value < y ==> m <= y)
  {
    var m := Min(t.right);
    var r' := RemoveNode(t.right, m).0;
    assert Elements(r') == Elements(t.right) - {m};
    forall y | y in Elements(r') ensures m < y {
      assert y in Elements(t.right) && y != m;
    }
    forall y | y in Elements(t) && t.value < y ensures m <= y {
      assert y in Elements(t.right) by {
        assert y !in Elements(t.left);
      }
    }
  }
}
