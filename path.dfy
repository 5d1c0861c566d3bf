/**
 * The descent of a pointer walk, as a ghost zipper.
 *
 * While `insert`, `find` and `remove` walk from `m_head` down through the child
 * slots, the nodes they have passed form a sequence of frames: each frame is a
 * node the walk left through its left or its right slot, together with the
 * subtree it did not enter.  `Plug(ctx, s)` puts the subtree `s` back into the
 * slot where the walk stands and rebuilds the whole tree.  The lemmas say that
 * coherence with the heap, sharing and the effect of `Ins`/`Del` can be split
 * at that slot, so a method only has to reason about the one slot it writes.
 */
module Path {
  import opened Tree

  /** A node the walk passed: it went down the left slot, or down the right slot. */
  datatype Frame<V> =
    | WentLeft(node: Node<V>, key: int, value: V, right: Tree<V>)
    | WentRight(left: Tree<V>, node: Node<V>, key: int, value: V)

  /** The subtree a frame holds on the side the walk did not take. */
  function Sibling<V>(f: Frame<V>): Tree<V>
  {
    if f.WentLeft? then f.right else f.left
  }

  /** The subtree of a frame's node once `s` is back in the slot the walk took. */
  function Fill<V>(f: Frame<V>, s: Tree<V>): Tree<V>
  {
    match f
    case WentLeft(n, k, v, r) => Br(s, n, k, v, r)
    case WentRight(l, n, k, v) => Br(l, n, k, v, s)
  }

  /** The whole tree, given the frames from the root down and the subtree in the current slot. */
  function Plug<V>(ctx: seq<Frame<V>>, s: Tree<V>): Tree<V>
    decreases |ctx|
  {
    if ctx == [] then s else Plug(ctx[..|ctx| - 1], Fill(ctx[|ctx| - 1], s))
  }

  /** The objects held by the frames (their nodes and the subtrees not entered). */
  function CtxNodes<V>(ctx: seq<Frame<V>>): set<Node<V>>
    decreases |ctx|
  {
    if ctx == [] then {}
    else CtxNodes(ctx[..|ctx| - 1]) + {ctx[|ctx| - 1].node} + Nodes(Sibling(ctx[|ctx| - 1]))
  }

  /** The frames share no object with each other. */
  predicate CtxDistinct<V>(ctx: seq<Frame<V>>)
    decreases |ctx|
  {
    ctx == [] ||
    var f := ctx[|ctx| - 1];
    CtxDistinct(ctx[..|ctx| - 1]) && Distinct(Sibling(f)) && f.node !in Nodes(Sibling(f)) &&
    CtxNodes(ctx[..|ctx| - 1]) !! ({f.node} + Nodes(Sibling(f)))
  }

  /** The heap agrees with a frame whose taken slot holds `h`. */
  ghost predicate FrameOk<V>(f: Frame<V>, h: Node?<V>)
    reads {f.node} + Nodes(Sibling(f))
  {
    f.node.key == f.key && f.node.value == f.value &&
    match f
    case WentLeft(n, _, _, r) => n.left == h && n.right == Root(r) && Coherent(r)
    case WentRight(l, n, _, _) => n.left == Root(l) && n.right == h && Coherent(l)
  }

  /** The heap agrees with every frame, the deepest one holding `h` in its taken slot. */
  ghost predicate CtxOk<V>(ctx: seq<Frame<V>>, h: Node?<V>)
    reads CtxNodes(ctx)
    decreases |ctx|
  {
    ctx == [] ||
    (CtxOk(ctx[..|ctx| - 1], ctx[|ctx| - 1].node) && FrameOk(ctx[|ctx| - 1], h))
  }

  /** Each frame is the branch the comparison with `k` takes: left when `k` is smaller. */
  predicate Toward<V>(ctx: seq<Frame<V>>, k: int)
  {
    forall i | 0 <= i < |ctx| :: if ctx[i].WentLeft? then k < ctx[i].key else ctx[i].key < k
  }

  /** A walk down the right spine only. */
  predicate AllRight<V>(ctx: seq<Frame<V>>)
  {
    forall i | 0 <= i < |ctx| :: ctx[i].WentRight?
  }

  // ---------------------------------------------------------------------------
  // One more step of the walk

  lemma PlugSnoc<V>(ctx: seq<Frame<V>>, f: Frame<V>, s: Tree<V>)
    ensures Plug(ctx + [f], s) == Plug(ctx, Fill(f, s))
    ensures CtxNodes(ctx + [f]) == CtxNodes(ctx) + {f.node} + Nodes(Sibling(f))
    ensures CtxDistinct(ctx + [f]) <==>
      CtxDistinct(ctx) && Distinct(Sibling(f)) && f.node !in Nodes(Sibling(f)) &&
      CtxNodes(ctx) !! ({f.node} + Nodes(Sibling(f)))
  {
  }

  lemma CtxOkSnoc<V>(ctx: seq<Frame<V>>, f: Frame<V>, h: Node?<V>)
    ensures CtxOk(ctx + [f], h) <==> CtxOk(ctx, f.node) && FrameOk(f, h)
  {
  }

  /** The slot at the top of a non-empty walk is `m_head`, holding the first frame's node. */
  lemma {:induction false} PlugRoot<V>(ctx: seq<Frame<V>>, s: Tree<V>)
    requires ctx != []
    ensures Root(Plug(ctx, s)) == ctx[0].node
    decreases |ctx|
  {
    var init := ctx[..|ctx| - 1];
    if init != [] {
      PlugRoot(init, Fill(ctx[|ctx| - 1], s));
    }
  }

  /** A walk continued by a second walk from the slot where the first one stands. */
  lemma {:induction false} PlugAppend<V>(a: seq<Frame<V>>, b: seq<Frame<V>>, s: Tree<V>)
    ensures Plug(a + b, s) == Plug(a, Plug(b, s))
    decreases |b|
  {
    if b == [] {
      assert a + b == a;
    } else {
      var init, g := b[..|b| - 1], b[|b| - 1];
      assert (a + b)[..|a + b| - 1] == a + init && (a + b)[|a + b| - 1] == g;
      PlugAppend(a, init, Fill(g, s));
    }
  }

  // ---------------------------------------------------------------------------
  // Splitting the tree at the current slot

  /** The tree's objects are the frames' objects and those of the current subtree. */
  lemma {:induction false} PlugNodes<V>(ctx: seq<Frame<V>>, s: Tree<V>)
    ensures Nodes(Plug(ctx, s)) == CtxNodes(ctx) + Nodes(s)
    decreases |ctx|
  {
    if ctx != [] {
      PlugNodes(ctx[..|ctx| - 1], Fill(ctx[|ctx| - 1], s));
    }
  }

  /** The tree is free of sharing exactly when the frames and the current subtree are, and apart. */
  lemma {:induction false} PlugDistinct<V>(ctx: seq<Frame<V>>, s: Tree<V>)
    ensures Distinct(Plug(ctx, s)) <==>
      CtxDistinct(ctx) && Distinct(s) && CtxNodes(ctx) !! Nodes(s)
    decreases |ctx|
  {
    if ctx != [] {
      var init, f := ctx[..|ctx| - 1], ctx[|ctx| - 1];
      PlugDistinct(init, Fill(f, s));
    }
  }

  /** The heap agrees with the tree exactly when it agrees with the frames and with the current subtree. */
  lemma {:induction false} PlugCoherent<V>(ctx: seq<Frame<V>>, s: Tree<V>)
    ensures Coherent(Plug(ctx, s)) <==> CtxOk(ctx, Root(s)) && Coherent(s)
    decreases |ctx|
  {
    if ctx != [] {
      var init, f := ctx[..|ctx| - 1], ctx[|ctx| - 1];
      PlugCoherent(init, Fill(f, s));
    }
  }

  // ---------------------------------------------------------------------------
  // The recursive definitions act at the end of the walk

  /** Every key of the current subtree is a key of the whole tree. */
  lemma {:induction false} PlugKeys<V>(ctx: seq<Frame<V>>, s: Tree<V>)
    ensures KeysOf(s) <= KeysOf(Plug(ctx, s))
    decreases |ctx|
  {
    if ctx != [] {
      var init, f := ctx[..|ctx| - 1], ctx[|ctx| - 1];
      PlugKeys(init, Fill(f, s));
    }
  }

  /**
   * Along the comparison chain of `k` in an ordered tree, the current subtree is
   * ordered and holds `k`, with the same value, exactly when the whole tree does.
   */
  lemma {:induction false} PlugFind<V>(ctx: seq<Frame<V>>, s: Tree<V>, k: int)
    requires Toward(ctx, k) && Ordered(Plug(ctx, s))
    ensures Ordered(s)
    ensures k in KeysOf(Plug(ctx, s)) <==> k in KeysOf(s)
    ensures k in KeysOf(s) ==> ValueAt(Plug(ctx, s), k) == ValueAt(s, k)
    decreases |ctx|
  {
    if ctx != [] {
      var init, f := ctx[..|ctx| - 1], ctx[|ctx| - 1];
      assert Toward(init, k);
      PlugFind(init, Fill(f, s), k);
      assert if f.WentLeft? then k < f.key else f.key < k;
    }
  }

  /** Along the comparison chain of `k`, insertion happens in the current slot. */
  lemma {:induction false} PlugIns<V>(ctx: seq<Frame<V>>, s: Tree<V>, k: int, v: V, n: Node<V>)
    requires Toward(ctx, k)
    ensures Ins(Plug(ctx, s), k, v, n) == Plug(ctx, Ins(s, k, v, n))
    decreases |ctx|
  {
    if ctx != [] {
      var init, f := ctx[..|ctx| - 1], ctx[|ctx| - 1];
      assert Toward(init, k);
      PlugIns(init, Fill(f, s), k, v, n);
      assert if f.WentLeft? then k < f.key else f.key < k;
    }
  }

  /** Along the comparison chain of `k`, deletion happens in the current slot. */
  lemma {:induction false} PlugDel<V>(ctx: seq<Frame<V>>, s: Tree<V>, k: int)
    requires Toward(ctx, k)
    ensures Del(Plug(ctx, s), k) == Plug(ctx, Del(s, k))
    decreases |ctx|
  {
    if ctx != [] {
      var init, f := ctx[..|ctx| - 1], ctx[|ctx| - 1];
      assert Toward(init, k);
      PlugDel(init, Fill(f, s), k);
      assert if f.WentLeft? then k < f.key else f.key < k;
    }
  }

  /** Down the right spine, the rightmost node and its removal are those of the current subtree. */
  lemma {:induction false} PlugRemoveMax<V>(spine: seq<Frame<V>>, s: Tree<V>)
    requires AllRight(spine) && s.Br?
    ensures Plug(spine, s).Br?
    ensures Rightmost(Plug(spine, s)) == Rightmost(s)
    ensures RemoveMax(Plug(spine, s)) == Plug(spine, RemoveMax(s))
    decreases |spine|
  {
    if spine != [] {
      var init, f := spine[..|spine| - 1], spine[|spine| - 1];
      assert AllRight(init);
      assert f.WentRight?;
      PlugRemoveMax(init, Fill(f, s));
    }
  }

  // ---------------------------------------------------------------------------
  // The whole effect of one write at the end of the walk

  /**
   * The walk for `k` ended in an empty slot: hanging the fresh node `n` there is
   * `Ins` on the whole tree, `k` was absent, and the tree gains exactly `n`.
   */
  lemma InsAtEmpty<V>(ctx: seq<Frame<V>>, k: int, v: V, n: Node<V>)
    requires Toward(ctx, k) && Ordered(Plug(ctx, Nil)) && Distinct(Plug(ctx, Nil))
    requires n !in Nodes(Plug(ctx, Nil))
    ensures var t, t' := Plug(ctx, Nil), Plug(ctx, Br(Nil, n, k, v, Nil));
      t' == Ins(t, k, v, n) && k !in KeysOf(t) &&
      Ordered(t') && Distinct(t') && Nodes(t') == Nodes(t) + {n} &&
      KeysOf(t') == KeysOf(t) + {k} && Contents(t') == Contents(t)[k := v] &&
      Count(t') == Count(t) + 1 &&
      (ctx != [] ==> Root(t') == Root(t))
    ensures CtxDistinct(ctx) && n !in CtxNodes(ctx)
  {
    var t, s' := Plug(ctx, Nil), Br(Nil, n, k, v, Nil);
    PlugIns(ctx, Nil, k, v, n);
    InsOrdered(t, k, v, n);
    InsContents(t, k, v, n);
    InsShape(t, k, v, n);
    InsDistinct(t, k, v, n);
    PlugNodes(ctx, Nil);
    PlugNodes(ctx, s');
    PlugDistinct(ctx, Nil);
    if ctx != [] {
      PlugRoot(ctx, Nil);
      PlugRoot(ctx, s');
    }
  }

  /**
   * The walk for `k` ended at the node holding `k`: overwriting its value is
   * `Ins` on the whole tree, and the nodes and the shape stay as they were.
   */
  lemma InsAtKey<V>(ctx: seq<Frame<V>>, sub: Tree<V>, k: int, v: V)
    requires sub.Br? && sub.key == k
    requires Toward(ctx, k) && Ordered(Plug(ctx, sub)) && Distinct(Plug(ctx, sub))
    ensures var t, t' := Plug(ctx, sub), Plug(ctx, Br(sub.left, sub.node, k, v, sub.right));
      t' == Ins(t, k, v, sub.node) && k in KeysOf(t) &&
      Ordered(t') && Distinct(t') && Nodes(t') == Nodes(t) &&
      Shape(t') == Shape(t) && Count(t') == Count(t) &&
      KeysOf(t') == KeysOf(t) && Contents(t') == Contents(t)[k := v] &&
      (ctx != [] ==> Root(t') == Root(t))
    ensures CtxDistinct(ctx) && Distinct(sub) && CtxNodes(ctx) !! Nodes(sub)
  {
    var t, s' := Plug(ctx, sub), Br(sub.left, sub.node, k, v, sub.right);
    PlugIns(ctx, sub, k, v, sub.node);
    PlugKeys(ctx, sub);
    InsOrdered(t, k, v, sub.node);
    InsContents(t, k, v, sub.node);
    InsShape(t, k, v, sub.node);
    PlugDistinct(ctx, sub);
    PlugDistinct(ctx, s');
    PlugNodes(ctx, sub);
    if ctx != [] {
      PlugRoot(ctx, sub);
      PlugRoot(ctx, s');
    }
  }

  /**
   * The walk for `k` ended at the node holding `k`: putting `DelRoot` of that
   * subtree in its slot is `Del` on the whole tree, which loses exactly the
   * entry of `k` and one node.
   */
  lemma DelAtKey<V>(ctx: seq<Frame<V>>, sub: Tree<V>, k: int)
    requires sub.Br? && sub.key == k
    requires Toward(ctx, k) && Ordered(Plug(ctx, sub)) && Distinct(Plug(ctx, sub))
    ensures var t, t' := Plug(ctx, sub), Plug(ctx, DelRoot(sub));
      t' == Del(t, k) && k in KeysOf(t) &&
      Ordered(t') && Distinct(t') && Nodes(t') <= Nodes(t) &&
      KeysOf(t') == KeysOf(t) - {k} && Contents(t') == Contents(t) - {k} &&
      Count(t') + 1 == Count(t) &&
      (ctx != [] ==> Root(t') == Root(t))
    ensures CtxDistinct(ctx) && Distinct(sub) && CtxNodes(ctx) !! Nodes(sub)
    ensures CtxNodes(ctx) !! Nodes(DelRoot(sub))
  {
    var t, s' := Plug(ctx, sub), DelRoot(sub);
    PlugDel(ctx, sub, k);
    PlugKeys(ctx, sub);
    DelOrdered(t, k);
    DelContents(t, k);
    DelNodes(t, k);
    PlugDistinct(ctx, sub);
    PlugDistinct(ctx, s');
    if ctx != [] {
      PlugRoot(ctx, sub);
      PlugRoot(ctx, s');
    }
  }

  /**
   * The third case of `remove`: `spine` leads down the right slots of the left
   * subtree of `s` to its rightmost node `lsub`.  Continuing the walk of `ctx`
   * through the left slot of the root, now holding `lsub`'s entry, and along
   * `spine`, rebuilds that tree; putting `lsub`'s left child in the slot of
   * `lsub` rebuilds the tree with `DelRoot(s)` in the place of `s`.
   */
  lemma PlugPredecessor<V>(ctx: seq<Frame<V>>, s: Tree<V>, spine: seq<Frame<V>>, lsub: Tree<V>)
    requires s.Br? && s.left.Br? && s.right.Br? && lsub.Br? && lsub.right.Nil?
    requires Plug(spine, lsub) == s.left && AllRight(spine)
    ensures var walk := ctx + [WentLeft(s.node, lsub.key, lsub.value, s.right)] + spine;
      Plug(walk, lsub) == Plug(ctx, Br(s.left, s.node, lsub.key, lsub.value, s.right)) &&
      Plug(walk, lsub.left) == Plug(ctx, DelRoot(s)) &&
      walk != [] && walk[|walk| - 1].node == (if spine == [] then s.node else spine[|spine| - 1].node) &&
      (walk[|walk| - 1].WentLeft? <==> spine == [])
  {
    var f := WentLeft(s.node, lsub.key, lsub.value, s.right);
    PlugAppend(ctx + [f], spine, lsub);
    PlugAppend(ctx + [f], spine, lsub.left);
    PlugSnoc(ctx, f, s.left);
    PlugSnoc(ctx, f, Plug(spine, lsub.left));
    PlugRemoveMax(spine, lsub);
  }
}
