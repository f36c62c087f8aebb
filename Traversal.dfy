/** What `BinarySearchTreeIterator` of BinarySearchTree.kt still has to
    return, read off its two stacks, and the invariant that ties the stacks
    and `currentNode` to the tree. A stack is a sequence whose last element
    is the top. */
module Traversal {
  import Trees
  import opened Arena

  /** Node q lies in the left subtree of node p. */
  predicate Below(s: Shape, p: int, q: int) {
    Sub(s, p).Branch? && q in Ids(Sub(s, p).left)
  }

  /** The values still owed for the nodes on `iterationStack`, top first:
      each entry yields its own value and then its right subtree. */
  function Pending(s: Shape, stack: seq<int>): seq<int>
    decreases |stack|
  {
    if stack == [] then []
    else
      var t := Sub(s, stack[|stack| - 1]);
      (if t.Branch? then [t.value] + Trees.Inorder(View(t.right)) else [])
      + Pending(s, stack[..|stack| - 1])
  }

  /** Everything `next` has yet to return: the right subtree of the node it
      returned last (unless that node was removed), then the stack. */
  function Remaining(s: Shape, cur: int, stack: seq<int>): seq<int> {
    var t := Sub(s, cur);
    if cur == Nil || t.Empty? then Pending(s, stack)
    else Trees.Inorder(View(t.right)) + Pending(s, stack)
  }

  /** Every stack entry is a node, each above the next in left-subtree order. */
  predicate StackShape(s: Shape, stack: seq<int>) {
    && (forall k :: 0 <= k < |stack| ==> stack[k] in Ids(s))
    && (forall i, j :: 0 <= i < j < |stack| ==> Below(s, stack[i], stack[j]))
  }

  /** `currentNode` is set: the parents stack is its path less itself, every
      stack entry has it in its left subtree, and its value was returned last. */
  predicate AtNode(s: Shape, stack: seq<int>, parents: seq<int>, cur: int, done: seq<int>) {
    && cur in Ids(s) && parents + [cur] == Path(s, cur)
    && (forall k :: 0 <= k < |stack| ==> Below(s, stack[k], cur))
    && Sub(s, cur).Branch? && |done| > 0 && done[|done| - 1] == Sub(s, cur).value
  }

  /** `currentNode` is unset: the parents stack is a path from the root and
      holds every stack entry. */
  predicate Between(s: Shape, stack: seq<int>, parents: seq<int>) {
    && (parents != [] ==> parents[|parents| - 1] in Ids(s) && parents == Path(s, parents[|parents| - 1]))
    && (forall k :: 0 <= k < |stack| ==> stack[k] in parents)
  }

  /** The iterator's state is consistent with the tree: `done` is what `next`
      has returned so far (less what `remove` took out), `cur` is
      `currentNode` and `parents` is `iterationParentsStack`. */
  predicate IterInv(s: Shape, stack: seq<int>, parents: seq<int>, cur: int, done: seq<int>) {
    && Unique(s) && Nil !in Ids(s) && Trees.BST(View(s))
    && StackShape(s, stack)
    && (if cur != Nil then AtNode(s, stack, parents, cur, done) else Between(s, stack, parents))
    && Trees.Inorder(View(s)) == done + Remaining(s, cur, stack)
  }

  // ---------------------------------------------------------------------
  // The stack contents

  /** What a stack owes is what its upper part owes, then its lower part. */
  lemma {:induction false} PendingConcat(s: Shape, a: seq<int>, b: seq<int>)
    ensures Pending(s, a + b) == Pending(s, b) + Pending(s, a)
    decreases |b|
  {
    if b == [] {
      assert a + b == a;
    } else {
      var n := |b|;
      var b', ab := b[..n - 1], a + b;
      assert ab[..|ab| - 1] == a + b';
      assert ab[|ab| - 1] == b[n - 1];
      var t := Sub(s, b[n - 1]);
      var own := if t.Branch? then [t.value] + Trees.Inorder(View(t.right)) else [];
      calc {
        Pending(s, ab);
        own + Pending(s, a + b');
        { PendingConcat(s, a, b'); }
        own + (Pending(s, b') + Pending(s, a));
        (own + Pending(s, b')) + Pending(s, a);
        Pending(s, b) + Pending(s, a);
      }
    }
  }

  /** Pushing the left spine of a subtree owes exactly its in-order sequence. */
  lemma {:induction false} PendingSpine(s: Shape, t: Shape)
    requires Unique(s) && (t.Branch? ==> t.id in Ids(s) && Sub(s, t.id) == t)
    ensures Pending(s, Spine(t)) == Trees.Inorder(View(t))
  {
    if t.Branch? {
      SubChildren(s, t.id);
      if t.left.Branch? {
        SubSub(s, t.id, t.left.id);
      }
      var l, r := Trees.Inorder(View(t.left)), Trees.Inorder(View(t.right));
      assert Pending(s, [t.id]) == [t.value] + r + [] == [t.value] + r;
      calc {
        Pending(s, Spine(t));
        Pending(s, [t.id] + Spine(t.left));
        { PendingConcat(s, [t.id], Spine(t.left)); }
        Pending(s, Spine(t.left)) + Pending(s, [t.id]);
        { PendingSpine(s, t.left); }
        l + ([t.value] + r);
        l + [t.value] + r;
        Trees.Inorder(View(t));
      }
    }
  }

  /** Each node of a left spine has the ones after it in its left subtree. */
  lemma {:induction false} SpineOrdered(s: Shape, t: Shape)
    requires Unique(s) && (t.Branch? ==> t.id in Ids(s) && Sub(s, t.id) == t)
    ensures forall k :: 0 <= k < |Spine(t)| ==> Spine(t)[k] in Ids(s)
    ensures forall i, j :: 0 <= i < j < |Spine(t)| ==> Below(s, Spine(t)[i], Spine(t)[j])
  {
    if t.Branch? {
      SubChildren(s, t.id);
      if t.left.Branch? {
        SubSub(s, t.id, t.left.id);
      }
      SubIn(s, t.id);
      SpineOrdered(s, t.left);
      var p := Spine(t);
      assert p == [t.id] + Spine(t.left);
      forall k | 0 <= k < |p| ensures p[k] in Ids(s) {
        assert p[k] in Ids(t);
      }
      forall i, j | 0 <= i < j < |p| ensures Below(s, p[i], p[j]) {
        if i == 0 {
          assert p[j] == Spine(t.left)[j - 1];
        } else {
          assert p[i] == Spine(t.left)[i - 1] && p[j] == Spine(t.left)[j - 1];
        }
      }
    }
  }

  /** The path to a node of the left spine is the spine down to it. */
  lemma {:induction false} PathSpine(t: Shape, k: int)
    requires Unique(t) && 0 <= k < |Spine(t)|
    ensures Path(t, Spine(t)[k]) == Spine(t)[..k + 1]
  {
    if k > 0 {
      var p := Spine(t);
      assert p == [t.id] + Spine(t.left);
      assert p[k] == Spine(t.left)[k - 1] && p[k] in Ids(t.left);
      PathSpine(t.left, k - 1);
      assert p[..k + 1] == [t.id] + Spine(t.left)[..k];
    }
  }

  /** A node strictly below c is not an ancestor of c. */
  lemma {:induction false} NotAbove(s: Shape, p: int, c: int)
    requires Unique(s) && p in Ids(s) && p != c && c in Ids(Sub(s, p))
    ensures p !in Ids(Sub(s, c))
  {
    SubIn(s, p);
    if c in Ids(s) {
      SubIn(s, c);
    }
    if s.id == p {
      if c in Ids(s.left) {
        SubIn(s.left, c);
      } else if c in Ids(s.right) {
        SubIn(s.right, c);
      }
    } else if s.id == c {
      if p in Ids(s.left) {
        SubIn(s.left, p);
      } else {
        SubIn(s.right, p);
      }
    } else if p in Ids(s.left) {
      SubIn(s.left, p);
      NotAbove(s.left, p, c);
    } else {
      SubIn(s.right, p);
      NotAbove(s.right, p, c);
    }
  }

  /** Whatever lies under a node of p's left subtree lies in p's left subtree. */
  lemma BelowSub(s: Shape, p: int, c: int, q: int)
    requires Unique(s) && p in Ids(s) && Below(s, p, c) && q in Ids(Sub(s, c))
    ensures Below(s, p, q)
  {
    var t := Sub(s, p);
    SubIn(s, p);
    SubSub(s, p, c);
    assert Sub(t, c) == Sub(t.left, c);
    SubIn(t.left, c);
  }

  /** The stack entries above `currentNode` are its ancestors, so they are on
      `iterationParentsStack`. */
  lemma StackOnParents(s: Shape, stack: seq<int>, parents: seq<int>, cur: int)
    requires Unique(s) && cur in Ids(s) && parents + [cur] == Path(s, cur)
    requires forall k :: 0 <= k < |stack| ==> stack[k] in Ids(s) && Below(s, stack[k], cur)
    ensures forall k :: 0 <= k < |stack| ==> stack[k] in parents
  {
    forall k | 0 <= k < |stack| ensures stack[k] in parents {
      var p := stack[k];
      SubIn(s, p);
      PathAbove(s, p, cur);
      assert p != cur;
    }
  }

  // ---------------------------------------------------------------------
  // The iterator's steps

  /** `init`: both stacks hold the left spine of the whole tree. */
  lemma InitInv(s: Shape)
    requires Unique(s) && Nil !in Ids(s) && Trees.BST(View(s))
    ensures IterInv(s, Spine(s), Spine(s), Nil, [])
    ensures Remaining(s, Nil, Spine(s)) == Trees.Inorder(View(s))
  {
    SpineOrdered(s, s);
    PendingSpine(s, s);
    InitParents(s);
    assert Trees.Inorder(View(s)) == [] + Remaining(s, Nil, Spine(s));
  }

  /** The left spine of the whole tree is a path from the root. */
  lemma InitParents(s: Shape)
    requires Unique(s)
    ensures Between(s, Spine(s), Spine(s))
  {
    SpineOrdered(s, s);
    var p := Spine(s);
    if p != [] {
      PathSpine(s, |p| - 1);
      assert p[..|p|] == p;
    }
  }

  /** `next` after a node without right child: the state is read as if
      `currentNode` were unset; nothing owed changes. */
  lemma Forget(s: Shape, stack: seq<int>, parents: seq<int>, cur: int, done: seq<int>)
    requires IterInv(s, stack, parents, cur, done) && cur != Nil && Sub(s, cur).right.Empty?
    ensures IterInv(s, stack, parents, Nil, done)
    ensures Remaining(s, Nil, stack) == Remaining(s, cur, stack)
  {
    ForgetParents(s, stack, parents, cur);
    assert Trees.Inorder(View(Sub(s, cur).right)) == [];
    assert Remaining(s, cur, stack) == [] + Pending(s, stack) == Pending(s, stack);
  }

  /** The ancestors of `currentNode` form a path from the root that holds
      every stack entry. */
  lemma ForgetParents(s: Shape, stack: seq<int>, parents: seq<int>, cur: int)
    requires Unique(s) && StackShape(s, stack) && cur in Ids(s) && parents + [cur] == Path(s, cur)
    requires forall k :: 0 <= k < |stack| ==> Below(s, stack[k], cur)
    ensures Between(s, stack, parents)
  {
    StackOnParents(s, stack, parents, cur);
    var n := |parents|;
    if n > 0 {
      PathBelow(s, cur, n - 1);
      assert Path(s, cur)[..n] == parents;
    }
  }

  /** `next` after a node with a right child R: `currentNode` goes onto the
      parents stack and the left spine of R onto both stacks. */
  lemma Advance(s: Shape, stack: seq<int>, parents: seq<int>, cur: int, done: seq<int>)
    requires IterInv(s, stack, parents, cur, done) && cur != Nil && Sub(s, cur).right.Branch?
    ensures var r := Sub(s, cur).right;
      && IterInv(s, stack + Spine(r), parents + [cur] + Spine(r), Nil, done)
      && Remaining(s, Nil, stack + Spine(r)) == Remaining(s, cur, stack)
  {
    var r := Sub(s, cur).right;
    SubIn(s, cur);
    SubChildren(s, cur);
    assert r.id in Ids(Sub(s, cur));
    PendingSpine(s, r);
    PendingConcat(s, stack, Spine(r));
    AdvanceStack(s, stack, cur);
    AdvanceParents(s, stack, parents, cur);
    assert Remaining(s, Nil, stack + Spine(r)) == Pending(s, stack + Spine(r));
  }

  /** Two well-shaped stacks stack up when every entry of the upper one lies
      in the left subtree of every entry of the lower one. */
  lemma StackConcat(s: Shape, a: seq<int>, b: seq<int>)
    requires StackShape(s, a) && StackShape(s, b)
    requires forall i, j :: 0 <= i < |a| && 0 <= j < |b| ==> Below(s, a[i], b[j])
    ensures StackShape(s, a + b)
  {
    var st := a + b;
    forall i, j | 0 <= i < j < |st| ensures Below(s, st[i], st[j]) {
      if j >= |a| {
        assert st[j] == b[j - |a|];
        if i >= |a| {
          assert st[i] == b[i - |a|];
        }
      }
    }
  }

  /** Pushing the left spine of the right subtree of `currentNode` keeps the stack
      well shaped. */
  lemma AdvanceStack(s: Shape, stack: seq<int>, cur: int)
    requires Unique(s) && StackShape(s, stack) && cur in Ids(s)
    requires Sub(s, cur).Branch? && Sub(s, cur).right.Branch?
    requires forall k :: 0 <= k < |stack| ==> Below(s, stack[k], cur)
    ensures StackShape(s, stack + Spine(Sub(s, cur).right))
  {
    var c := Sub(s, cur);
    var r := c.right;
    var sp := Spine(r);
    SubIn(s, cur);
    SubChildren(s, cur);
    SpineOrdered(s, r);
    forall i, j | 0 <= i < |stack| && 0 <= j < |sp| ensures Below(s, stack[i], sp[j]) {
      assert sp[j] in Ids(r);
      BelowSub(s, stack[i], cur, sp[j]);
    }
    StackConcat(s, stack, sp);
  }

  /** Pushing `currentNode` and then that spine on the parents stack leaves a path
      from the root that holds every stack entry. */
  lemma AdvanceParents(s: Shape, stack: seq<int>, parents: seq<int>, cur: int)
    requires Unique(s) && StackShape(s, stack) && cur in Ids(s) && parents + [cur] == Path(s, cur)
    requires forall k :: 0 <= k < |stack| ==> Below(s, stack[k], cur)
    requires Sub(s, cur).Branch? && Sub(s, cur).right.Branch?
    ensures var sp := Spine(Sub(s, cur).right);
      Between(s, stack + sp, parents + [cur] + sp)
  {
    var sp := Spine(Sub(s, cur).right);
    StackOnParents(s, stack, parents, cur);
    InParents(stack, parents + [cur], sp);
    SpinePath(s, parents, cur);
  }

  /** The path to the last node of the right child's left spine is the path
      to `currentNode` followed by that spine. */
  lemma SpinePath(s: Shape, parents: seq<int>, cur: int)
    requires Unique(s) && cur in Ids(s) && parents + [cur] == Path(s, cur)
    requires Sub(s, cur).Branch? && Sub(s, cur).right.Branch?
    ensures var sp := Spine(Sub(s, cur).right);
      && sp != [] && sp[|sp| - 1] in Ids(s)
      && parents + [cur] + sp == Path(s, sp[|sp| - 1])
  {
    var c := Sub(s, cur);
    var r := c.right;
    var sp := Spine(r);
    SubIn(s, cur);
    var last := sp[|sp| - 1];
    assert last in Ids(r);
    PathThrough(s, cur, last);
    PathSpine(r, |sp| - 1);
    assert sp[..|sp|] == sp;
    assert Path(c, last) == [cur] + Path(r, last);
    assert Path(s, cur)[..|Path(s, cur)| - 1] == parents;
    Associate(parents, [cur], sp);
  }

  /** `next` pops the top g of `iterationStack`, returns its value and cuts
      the parents stack back to g's ancestors; the popping loop stops there
      because a path repeats no node. */
  lemma PopStep(s: Shape, stack: seq<int>, parents: seq<int>, done: seq<int>)
    requires IterInv(s, stack, parents, Nil, done) && stack != []
    ensures var g := stack[|stack| - 1];
      && g in Ids(s) && Sub(s, g).Branch?
      && var p := Path(s, g);
      && |p| <= |parents| && parents[..|p|] == p && g !in p[..|p| - 1]
      && IterInv(s, stack[..|stack| - 1], p[..|p| - 1], g, done + [Sub(s, g).value])
      && Remaining(s, Nil, stack) == [Sub(s, g).value] + Remaining(s, g, stack[..|stack| - 1])
  {
    var g := stack[|stack| - 1];
    var st := stack[..|stack| - 1];
    PopPath(s, stack, parents);
    SubIn(s, g);
    var t := Sub(s, g);
    var v := t.value;
    var p := Path(s, g);
    PopAt(s, stack, p[..|p| - 1], done + [v]);
    StackPrefix(s, stack, |stack| - 1);
    var rest := Trees.Inorder(View(t.right)) + Pending(s, st);
    assert g != Nil;
    assert Remaining(s, g, st) == rest;
    Associate([v], Trees.Inorder(View(t.right)), Pending(s, st));
    assert Remaining(s, Nil, stack) == [v] + rest;
    Associate(done, [v], rest);
  }

  /** The values come out in increasing order: each one returned is above
      the one returned before it. */
  lemma ReturnedInOrder(s: Shape, stack: seq<int>, parents: seq<int>, cur: int, done: seq<int>, v: int)
    requires IterInv(s, stack, parents, cur, done + [v]) && done != []
    ensures done[|done| - 1] < v
  {
    Trees.InorderIncreasing(View(s));
    Trees.IncreasingStep(done, v, Remaining(s, cur, stack));
  }

  /** Whatever `next` and `remove` have done, the values returned and kept,
      followed by the values still owed, are strictly increasing. */
  lemma ScanIncreasing(s: Shape, stack: seq<int>, parents: seq<int>, cur: int, done: seq<int>)
    requires IterInv(s, stack, parents, cur, done)
    ensures Trees.Increasing(done + Remaining(s, cur, stack))
  {
    Trees.InorderIncreasing(View(s));
  }

  /** Popping the parents stack while it holds g stops at g's ancestors. */
  lemma CutParents(parents: seq<int>, p: seq<int>, n: int, g: int)
    requires |p| > 0 && p[|p| - 1] == g && g !in p[..|p| - 1]
    requires |p| <= |parents| && parents[..|p|] == p
    requires |p| - 1 <= n <= |parents| && g !in parents[..n]
    ensures parents[..n] == p[..|p| - 1]
  {
    assert n == |p| - 1;
  }

  lemma StackPrefix(s: Shape, stack: seq<int>, n: int)
    requires StackShape(s, stack) && 0 <= n <= |stack|
    ensures StackShape(s, stack[..n])
  {
    var st := stack[..n];
    forall k | 0 <= k < |st| ensures st[k] in Ids(s) {
      assert st[k] == stack[k];
    }
    forall i, j | 0 <= i < j < |st| ensures Below(s, st[i], st[j]) {
      assert st[i] == stack[i] && st[j] == stack[j];
    }
  }

  /** The top of the stack is on the parents stack, which is a path, so the
      top's own path is a prefix of it that holds the top only at its end. */
  lemma PopPath(s: Shape, stack: seq<int>, parents: seq<int>)
    requires Unique(s) && StackShape(s, stack) && Between(s, stack, parents) && stack != []
    ensures var g := stack[|stack| - 1];
      && g in Ids(s)
      && var p := Path(s, g);
      && |p| <= |parents| && parents[..|p|] == p && g !in p[..|p| - 1]
  {
    var g := stack[|stack| - 1];
    var n := |parents|;
    var last := parents[n - 1];
    var k :| 0 <= k < n && parents[k] == g;
    PathBelow(s, last, k);
    PathDistinct(s, g);
    var p := Path(s, g);
    assert p == parents[..k + 1];
    LastOnlyAtEnd(p);
  }

  /** In a sequence without repeats the last entry is not among the others. */
  lemma LastOnlyAtEnd(p: seq<int>)
    requires p != [] && forall i, j :: 0 <= i < j < |p| ==> p[i] != p[j]
    ensures p[|p| - 1] !in p[..|p| - 1]
  {
    var q := p[..|p| - 1];
    forall i | 0 <= i < |q| ensures q[i] != p[|p| - 1] {
      assert q[i] == p[i];
    }
  }

  /** After the pop, `currentNode` is the old top g. */
  lemma PopAt(s: Shape, stack: seq<int>, parents: seq<int>, done: seq<int>)
    requires Unique(s) && StackShape(s, stack) && stack != []
    requires var g := stack[|stack| - 1];
      g in Ids(s) && parents == Path(s, g)[..|Path(s, g)| - 1]
      && |done| > 0 && Sub(s, g).Branch? && done[|done| - 1] == Sub(s, g).value
    ensures AtNode(s, stack[..|stack| - 1], parents, stack[|stack| - 1], done)
  {
    var g := stack[|stack| - 1];
    var st := stack[..|stack| - 1];
    var p := Path(s, g);
    assert p[..|p| - 1] + [g] == p;
    forall i | 0 <= i < |st| ensures Below(s, st[i], g) {
      assert st[i] == stack[i];
    }
  }

  /** `hasNext`: something is owed exactly when the stack is non-empty or
      `currentNode` has a right child. */
  lemma RemainingEmpty(s: Shape, stack: seq<int>, parents: seq<int>, cur: int, done: seq<int>)
    requires IterInv(s, stack, parents, cur, done)
    ensures Remaining(s, cur, stack) != [] <==>
      stack != [] || (cur != Nil && Sub(s, cur).right.Branch?)
  {
    if stack != [] {
      SubIn(s, stack[|stack| - 1]);
    }
  }

  /** Sequence helper for SpinePath, PopStep and FillIterationStack:
      concatenation is associative. */
  lemma Associate(a: seq<int>, b: seq<int>, c: seq<int>)
    ensures a + b + c == a + (b + c)
  {
  }

  /** Pushing the same entries on both stacks keeps every entry of the
      first on the second. */
  lemma InParents(stack: seq<int>, parents: seq<int>, xs: seq<int>)
    requires forall k :: 0 <= k < |stack| ==> stack[k] in parents
    ensures forall k :: 0 <= k < |stack + xs| ==> (stack + xs)[k] in parents + xs
  {
    var st := stack + xs;
    forall k | 0 <= k < |st| ensures st[k] in parents + xs {
      if k >= |stack| {
        assert st[k] == xs[k - |stack|] == (parents + xs)[|parents| + k - |stack|];
      } else {
        assert st[k] == stack[k];
      }
    }
  }

  // ---------------------------------------------------------------------
  // The iterator's remove: the subtree at `currentNode` c is replaced by t,
  // the subtree `removeNode` returns, and the entries xs are pushed on both
  // stacks.

  /** Above c, a node keeps its value and right subtree; its left subtree
      trades the nodes under c for those of t. */
  lemma ReplaceBelow(s: Shape, c: int, t: Shape, p: int)
    requires Replaceable(s, c, t) && p in Ids(s) && Below(s, p, c)
    ensures var s' := ReplaceAt(s, c, t);
      var q := Sub(s, p);
      && p in Ids(s') && p != c
      && Sub(s', p) == Branch(ReplaceAt(q.left, c, t), p, q.value, q.right)
      && Ids(Sub(s', p).left) == (Ids(q.left) - Ids(Sub(s, c))) + Ids(t)
  {
    var q := Sub(s, p);
    SubIn(s, p);
    assert p != c;
    SubReplaceAbove(s, c, t, p);
    ReplaceAtAbsent(q.right, c, t);
    SubSub(s, p, c);
    assert Sub(q, c) == Sub(q.left, c);
    SubIn(q.left, c);
    ReplaceAtIds(q.left, c, t);
  }

  /** Entries above c owe after the replacement what they owed before. */
  lemma {:induction false} PendingReplace(s: Shape, c: int, t: Shape, stack: seq<int>)
    requires Replaceable(s, c, t)
    requires forall k :: 0 <= k < |stack| ==> stack[k] in Ids(s) && Below(s, stack[k], c)
    ensures Pending(ReplaceAt(s, c, t), stack) == Pending(s, stack)
    decreases |stack|
  {
    if stack != [] {
      ReplaceBelow(s, c, t, stack[|stack| - 1]);
      PendingReplace(s, c, t, stack[..|stack| - 1]);
    }
  }

  /** The stack above c keeps its shape, and each entry has all of t in its
      left subtree. */
  lemma StackReplace(s: Shape, c: int, t: Shape, stack: seq<int>)
    requires Replaceable(s, c, t) && StackShape(s, stack)
    requires forall k :: 0 <= k < |stack| ==> Below(s, stack[k], c)
    ensures var s' := ReplaceAt(s, c, t);
      && StackShape(s', stack)
      && forall k, x :: 0 <= k < |stack| && x in Ids(t) ==> Below(s', stack[k], x)
  {
    var s' := ReplaceAt(s, c, t);
    forall k | 0 <= k < |stack| ensures stack[k] in Ids(s') {
      ReplaceBelow(s, c, t, stack[k]);
    }
    forall i, j | 0 <= i < j < |stack| ensures Below(s', stack[i], stack[j]) {
      ReplaceBelow(s, c, t, stack[i]);
      SubIn(s, stack[j]);
      NotAbove(s, stack[j], c);
    }
    forall k, x | 0 <= k < |stack| && x in Ids(t) ensures Below(s', stack[k], x) {
      ReplaceBelow(s, c, t, stack[k]);
    }
  }

  /** What may be pushed for the replacement t: nothing, or the top part of
      its left spine. */
  predicate SpinePart(t: Shape, xs: seq<int>) {
    xs == [] || (t.Branch? && |xs| <= |Spine(t)| && xs == Spine(t)[..|xs|])
  }

  /** After `remove`, the stack with the pushed nodes is well shaped in the new
      tree. */
  lemma RemoveShape(s: Shape, c: int, t: Shape, stack: seq<int>, xs: seq<int>)
    requires Replaceable(s, c, t) && StackShape(s, stack) && SpinePart(t, xs)
    requires forall k :: 0 <= k < |stack| ==> Below(s, stack[k], c)
    ensures StackShape(ReplaceAt(s, c, t), stack + xs)
  {
    var s' := ReplaceAt(s, c, t);
    StackReplace(s, c, t, stack);
    ReplaceAtIds(s, c, t);
    if xs != [] {
      SubReplaceInside(s, c, t, t.id);
      SpineOrdered(s', t);
      StackPrefix(s', Spine(t), |xs|);
      forall i, j | 0 <= i < |stack| && 0 <= j < |xs| ensures Below(s', stack[i], xs[j]) {
        assert xs[j] == Spine(t)[j] && Spine(t)[j] in Ids(t);
      }
      StackConcat(s', stack, xs);
    } else {
      assert stack + xs == stack;
    }
  }

  /** After `remove`, the parents stack with the pushed nodes is a path in the new
      tree holding every stack entry. */
  lemma RemoveParents(s: Shape, c: int, t: Shape, stack: seq<int>, parents: seq<int>, xs: seq<int>)
    requires Replaceable(s, c, t) && SpinePart(t, xs) && StackShape(s, stack)
    requires parents + [c] == Path(s, c)
    requires forall k :: 0 <= k < |stack| ==> Below(s, stack[k], c)
    ensures Between(ReplaceAt(s, c, t), stack + xs, parents + xs)
  {
    StackOnParents(s, stack, parents, c);
    InParents(stack, parents, xs);
    if xs != [] {
      PushedPath(s, c, t, parents, xs);
    } else if parents != [] {
      KeptPath(s, c, t, parents);
      assert parents + xs == parents;
    }
  }

  /** With part of t's left spine pushed, the parents stack is the path to
      its last entry in the new tree. */
  lemma PushedPath(s: Shape, c: int, t: Shape, parents: seq<int>, xs: seq<int>)
    requires Replaceable(s, c, t) && SpinePart(t, xs) && xs != []
    requires parents + [c] == Path(s, c)
    ensures var ps := parents + xs;
      ps[|ps| - 1] in Ids(ReplaceAt(s, c, t)) && ps == Path(ReplaceAt(s, c, t), ps[|ps| - 1])
  {
    var ps := parents + xs;
    assert Path(s, c)[..|Path(s, c)| - 1] == parents;
    var m := |xs|;
    var x := xs[m - 1];
    assert x == Spine(t)[m - 1] && x in Ids(t);
    PathReplaceInside(s, c, t, x);
    SubIn(s, c);
    PathSpine(t, m - 1);
    assert ps[|ps| - 1] == x;
  }

  /** With nothing pushed, the ancestors of c keep their paths. */
  lemma KeptPath(s: Shape, c: int, t: Shape, parents: seq<int>)
    requires Replaceable(s, c, t) && parents != [] && parents + [c] == Path(s, c)
    ensures var p := parents[|parents| - 1];
      p in Ids(ReplaceAt(s, c, t)) && parents == Path(ReplaceAt(s, c, t), p)
  {
    var n := |parents|;
    var p := parents[n - 1];
    assert p == Path(s, c)[n - 1];
    PathBelow(s, c, n - 1);
    PathDistinct(s, c);
    assert Path(s, c)[..n] == parents;
    NotAbove(s, p, c);
    PathReplaceOutside(s, c, t, p);
  }


  /** Removing the value returned last: it leaves `done`, and what is owed is
      unchanged, given that the pushed entries owe c's right subtree. */
  lemma RemoveContents(s: Shape, c: int, t: Shape, stack: seq<int>, done: seq<int>, xs: seq<int>)
    requires Replaceable(s, c, t) && Trees.BST(View(s)) && Sub(s, c).Branch?
    requires forall k :: 0 <= k < |stack| ==> stack[k] in Ids(s) && Below(s, stack[k], c)
    requires c != Nil && |done| > 0 && done[|done| - 1] == Sub(s, c).value
    requires Trees.Inorder(View(s)) == done + Remaining(s, c, stack)
    requires View(t) == Trees.RemoveNode(View(Sub(s, c)), Sub(s, c).value).0
    requires Pending(ReplaceAt(s, c, t), xs) == Trees.Inorder(View(Sub(s, c).right))
    ensures var s' := ReplaceAt(s, c, t);
      && Remaining(s', Nil, stack + xs) == Remaining(s, c, stack)
      && Trees.Inorder(View(s')) == done[..|done| - 1] + Remaining(s', Nil, stack + xs)
  {
    var s' := ReplaceAt(s, c, t);
    var v := Sub(s, c).value;
    PendingReplace(s, c, t, stack);
    PendingConcat(s', stack, xs);
    assert Remaining(s', Nil, stack + xs) == Remaining(s, c, stack);
    RemoveInPlace(s, c, t);
    Trees.InorderRemoveNode(View(s), v);
    Trees.InorderIncreasing(View(s));
    Trees.WithoutLast(done, Remaining(s, c, stack));
  }

  /** The entries `remove` pushes on both stacks, by the shape of the
      removed node c: the new node when c had two children, the left spine of
      the replacement when it had only a right child, nothing otherwise. */
  function Pushed(c: Shape, t: Shape): seq<int> {
    if c.Branch? && c.left.Branch? && c.right.Branch? && t.Branch? then [t.id]
    else if c.Branch? && c.right.Branch? then Spine(t)
    else []
  }

  /** The pushed entries owe exactly the removed node's right subtree. */
  lemma PushedOwes(s: Shape, c: int, t: Shape)
    requires Replaceable(s, c, t) && Trees.BST(View(s)) && Sub(s, c).Branch?
    requires View(t) == Trees.RemoveNode(View(Sub(s, c)), Sub(s, c).value).0
    ensures var q := Sub(s, c);
      && SpinePart(t, Pushed(q, t))
      && Pending(ReplaceAt(s, c, t), Pushed(q, t)) == Trees.Inorder(View(q.right))
  {
    var q := Sub(s, c);
    if q.left.Branch? && q.right.Branch? {
      OwesSuccessor(s, c, t);
    } else if q.right.Branch? {
      OwesRightSpine(s, c, t);
    }
  }

  /** Two children: the copy of the successor is pushed, and it owes itself
      and the right subtree with the successor removed. */
  lemma OwesSuccessor(s: Shape, c: int, t: Shape)
    requires Replaceable(s, c, t) && Trees.BST(View(s)) && Sub(s, c).Branch?
    requires View(t) == Trees.RemoveNode(View(Sub(s, c)), Sub(s, c).value).0
    requires Sub(s, c).left.Branch? && Sub(s, c).right.Branch?
    ensures var q := Sub(s, c);
      && SpinePart(t, Pushed(q, t))
      && Pending(ReplaceAt(s, c, t), Pushed(q, t)) == Trees.Inorder(View(q.right))
  {
    var s' := ReplaceAt(s, c, t);
    var q := Sub(s, c);
    SubIn(s, c);
    ReplaceAtIds(s, c, t);
    var m := Trees.Min(View(q.right));
    assert View(t) == Trees.Node(View(q.left), m, Trees.RemoveNode(View(q.right), m).0);
    SubReplaceInside(s, c, t, t.id);
    Trees.InorderRemoveMin(View(q.right));
    assert Pending(s', [t.id]) == [t.value] + Trees.Inorder(View(t.right));
  }

  /** Only a right child: that child takes c's place and its left spine is
      pushed. */
  lemma OwesRightSpine(s: Shape, c: int, t: Shape)
    requires Replaceable(s, c, t) && Trees.BST(View(s)) && Sub(s, c).Branch?
    requires View(t) == Trees.RemoveNode(View(Sub(s, c)), Sub(s, c).value).0
    requires Sub(s, c).left.Empty? && Sub(s, c).right.Branch?
    ensures var q := Sub(s, c);
      && SpinePart(t, Pushed(q, t))
      && Pending(ReplaceAt(s, c, t), Pushed(q, t)) == Trees.Inorder(View(q.right))
  {
    var s' := ReplaceAt(s, c, t);
    var q := Sub(s, c);
    assert View(q) == Trees.Node(Trees.Leaf, q.value, View(q.right));
    assert View(t) == View(q.right) && t.Branch?;
    SubIn(s, c);
    ReplaceAtIds(s, c, t);
    SubReplaceInside(s, c, t, t.id);
    PendingSpine(s', t);
    assert Pushed(q, t) == Spine(t) && Spine(t)[..|Spine(t)|] == Spine(t);
  }

  /** `remove` keeps the iterator consistent with the tree it changed: the
      removed value leaves `done` and nothing owed changes. */
  lemma RemoveInv(s: Shape, stack: seq<int>, parents: seq<int>, c: int, done: seq<int>, t: Shape)
    requires IterInv(s, stack, parents, c, done) && c != Nil
    requires Replaceable(s, c, t) && Nil !in Ids(t)
    requires View(t) == Trees.RemoveNode(View(Sub(s, c)), Sub(s, c).value).0
    ensures var s' := ReplaceAt(s, c, t);
      var xs := Pushed(Sub(s, c), t);
      && IterInv(s', stack + xs, parents + xs, Nil, done[..|done| - 1])
      && Remaining(s', Nil, stack + xs) == Remaining(s, c, stack)
  {
    var s' := ReplaceAt(s, c, t);
    var xs := Pushed(Sub(s, c), t);
    PushedOwes(s, c, t);
    ReplaceAtIds(s, c, t);
    RemoveInPlace(s, c, t);
    RemoveShape(s, c, t, stack, xs);
    RemoveParents(s, c, t, stack, parents, xs);
    RemoveContents(s, c, t, stack, done, xs);
  }
}
