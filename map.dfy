/**
 * The ordered map of Map.h: an unbalanced binary search tree of heap nodes
 * rooted at `head`, mirrored by the ordered key set `keySet`.
 *
 * The ghost field `tree` is the image of the node graph (see module Tree);
 * `Valid()` is the class invariant: the heap agrees with `tree`, no node is
 * shared, the keys are in BST order, and `keySet` holds exactly the keys of
 * the tree.  The public view of a map is `Entries()`, its key/value pairs.
 */
module OrderedMap {
  import opened Wrappers
  import opened Tree
  import opened Path

  class Map<V> {
    var head: Node?<V>
    var keySet: set<int>
    ghost var tree: Tree<V>
    ghost var Repr: set<Node<V>>

    ghost predicate Valid()
      reads this, Repr
    {
      Repr == Nodes(tree) && head == Root(tree) && Distinct(tree) && Ordered(tree) &&
      keySet == KeysOf(tree) && Coherent(tree)
    }

    /** The key/value pairs the map stores. */
    ghost function Entries(): map<int, V>
      reads this
    {
      Contents(tree)
    }

    /** An empty map. */
    constructor ()
      ensures Valid() && fresh(Repr)
      ensures Entries() == map[] && Count(tree) == 0
    {
      head := null;
      keySet := {};
      tree := Nil;
      Repr := {};
    }

    /** The copy constructor: clear, then deep-copy every node of `other`. */
    constructor CopyOf(other: Map<V>)
      requires other.Valid()
      ensures Valid() && fresh(Repr)
      ensures Mirror(tree, other.tree) && keySet == other.keySet && Entries() == other.Entries()
    {
      head := null;
      keySet := {};
      tree := Nil;
      Repr := {};
      new;
      Clear();
      Copy(other);
      MirrorContents(tree, other.tree);
    }

    /**
     * Deep copy from `other` into a map that callers have just cleared: a map
     * copied from an empty one is left as it was, otherwise it receives the key
     * set of `other` and fresh nodes with the same keys and values in the same places.
     */
    method Copy(other: Map<V>)
      requires Valid() && other.Valid() && other != this
      modifies this
      ensures Valid()
      ensures other.tree.Nil? ==> tree == old(tree) && keySet == old(keySet) && Repr == old(Repr)
      ensures other.tree.Br? ==> Mirror(tree, other.tree) && keySet == other.keySet && fresh(Repr)
    {
      if other.head == null {
        return;
      }
      keySet := other.keySet;
      var h := new Node(other.head.key, other.head.value);
      head := h;
      ghost var t := Populate(other.tree, other.Repr, other.head, h);
      assert Ordered(t) && keySet == KeysOf(t) && Nodes(t) == (Nodes(t) - {h}) + {h} by {
        MirrorContents(t, other.tree);
      }
      Commit(t);
    }

    /**
     * The recursive filler of `copy`: `dst` is a fresh node holding the key and
     * value of `src`; each child of `src` gets a freshly allocated twin hung
     * into the same slot of `dst`, and is filled in turn.
     */
    static method Populate(ghost t: Tree<V>, ghost owner: set<Node<V>>, src: Node<V>, dst: Node<V>)
      returns (ghost c: Tree<V>)
      requires t.Br? && src == t.node && Coherent(t) && Nodes(t) <= owner
      requires dst.key == t.key && dst.value == t.value && dst.left == null && dst.right == null
      requires dst !in owner
      modifies dst
      ensures c.Br? && c.node == dst && Coherent(c) && Distinct(c) && Mirror(c, t)
      ensures fresh(Nodes(c) - {dst}) && allocated(Nodes(c))
      decreases t, 0
    {
      ghost var lc := CopyChild(t.left, owner, src.left, dst, true);
      assert dst !in Nodes(lc) && allocated(Nodes(lc));
      ghost var rc := CopyChild(t.right, owner, src.right, dst, false);
      c := Br(lc, dst, t.key, t.value, rc);
    }

    /**
     * One child slot of `populate`: when the source child `src` exists, hang a
     * fresh node with its key and value into the left or right slot of `dst`
     * (as `isLeft` says) and fill it from `src`.
     */
    static method CopyChild(ghost t: Tree<V>, ghost owner: set<Node<V>>, src: Node?<V>, dst: Node<V>, isLeft: bool)
      returns (ghost c: Tree<V>)
      requires src == Root(t) && Coherent(t) && Nodes(t) <= owner && dst !in owner
      requires if isLeft then dst.left == null else dst.right == null
      modifies dst
      ensures dst.key == old(dst.key) && dst.value == old(dst.value)
      ensures isLeft ==> dst.left == Root(c) && dst.right == old(dst.right)
      ensures !isLeft ==> dst.right == Root(c) && dst.left == old(dst.left)
      ensures Coherent(c) && Distinct(c) && Mirror(c, t) && fresh(Nodes(c)) && allocated(Nodes(c))
      decreases t, 1
    {
      c := Nil;
      if src != null {
        var d := new Node(src.key, src.value);
        if isLeft {
          dst.left := d;
        } else {
          dst.right := d;
        }
        c := Populate(t, owner, src, d);
        assert Nodes(c) == (Nodes(c) - {d}) + {d};
      }
    }

    /**
     * The descent shared by `insert` and `remove`: from `head`, go left while
     * `k` is smaller and right while it is larger, stopping at the node that
     * holds `k` or in the empty slot where it would be.  `parent` is the node
     * whose slot that is (null for `head`), and `isLeft` says which slot.
     */
    method Locate(k: int) returns (node: Node?<V>, parent: Node?<V>, isLeft: bool,
                                   ghost ctx: seq<Frame<V>>, ghost sub: Tree<V>)
      requires Valid()
      ensures node != null <==> k in Entries()
      ensures node != null ==> node.key == k && node.value == Entries()[k]
      ensures Plug(ctx, sub) == tree && node == Root(sub) && Toward(ctx, k)
      ensures sub.Br? ==> sub.key == k
      ensures CtxOk(ctx, node) && Coherent(sub)
      ensures ctx == [] <==> parent == null
      ensures ctx != [] ==> parent == ctx[|ctx| - 1].node && isLeft == ctx[|ctx| - 1].WentLeft?
      ensures Nodes(sub) <= Repr && (parent != null ==> parent in Repr)
    {
      node, parent, isLeft := head, null, false;
      ctx, sub := [], tree;
      while node != null && node.key != k
        invariant Plug(ctx, sub) == tree && node == Root(sub) && Toward(ctx, k)
        invariant CtxOk(ctx, node) && Coherent(sub)
        invariant ctx == [] <==> parent == null
        invariant ctx != [] ==> parent == ctx[|ctx| - 1].node && isLeft == ctx[|ctx| - 1].WentLeft?
        decreases Count(sub)
      {
        parent := node;
        if k < node.key {
          ghost var f := WentLeft(node, sub.key, sub.value, sub.right);
          CtxOkSnoc(ctx, f, Root(sub.left));
          PlugSnoc(ctx, f, sub.left);
          ctx, sub := ctx + [f], sub.left;
          node, isLeft := node.left, true;
        } else {
          ghost var f := WentRight(sub.left, node, sub.key, sub.value);
          CtxOkSnoc(ctx, f, Root(sub.right));
          PlugSnoc(ctx, f, sub.right);
          ctx, sub := ctx + [f], sub.right;
          node, isLeft := node.right, false;
        }
      }
      PlugFind(ctx, sub, k);
      PlugNodes(ctx, sub);
    }

    /**
     * `insert(k, v)`: record `k` in the key set; an empty map gets a single
     * node; otherwise walk down from `head` and overwrite the value of the node
     * holding `k`, or attach a new node in the empty slot where the walk ends.
     */
    method Insert(k: int, v: V)
      requires Valid()
      modifies this, Repr
      ensures Valid() && fresh(Repr - old(Repr))
      ensures exists n: Node<V> :: tree == Ins(old(tree), k, v, n)
      ensures Entries() == old(Entries())[k := v]
      ensures k in old(Entries()) ==>
        Repr == old(Repr) && Shape(tree) == Shape(old(tree)) && Count(tree) == Count(old(tree))
      ensures k !in old(Entries()) ==> Count(tree) == Count(old(tree)) + 1
    {
      if head == null {
        keySet := keySet + {k};
        var n := new Node(k, v);
        head := n;
        tree := Br(Nil, n, k, v, Nil);
        Repr := {n};
        assert tree == Ins(old(tree), k, v, n);
        return;
      }

      var node, parent, isLeft, ctx, sub := Locate(k);
      if node != null {
        OverwriteAt(node, k, v, ctx, sub);
      } else {
        AttachAt(parent, isLeft, k, v, ctx);
      }
    }

    /** `insert` when the walk for `k` ended at `node`, which holds `k`: overwrite its value. */
    method OverwriteAt(node: Node<V>, k: int, v: V, ghost ctx: seq<Frame<V>>, ghost sub: Tree<V>)
      requires Valid() && Plug(ctx, sub) == tree && Toward(ctx, k)
      requires sub.Br? && sub.key == k && node == sub.node
      modifies this, Repr
      ensures Valid() && Repr == old(Repr) && k in old(Entries())
      ensures tree == Ins(old(tree), k, v, node)
      ensures Entries() == old(Entries())[k := v]
      ensures Shape(tree) == Shape(old(tree)) && Count(tree) == Count(old(tree))
    {
      keySet := keySet + {k};
      ghost var t' := Plug(ctx, Br(sub.left, node, k, v, sub.right));
      assert t' == Ins(tree, k, v, node) && k in KeysOf(tree) &&
        Ordered(t') && Distinct(t') && Root(t') == head && KeysOf(t') == keySet &&
        Nodes(t') == Repr && Shape(t') == Shape(tree) && Count(t') == Count(tree) &&
        Contents(t') == Contents(tree)[k := v] by {
        InsAtKey(ctx, sub, k, v);
      }
      assert node in Repr by {
        PlugNodes(ctx, sub);
      }
      Overwrite(node, v, ctx, sub);
      Commit(t');
    }

    /**
     * `insert` when the walk for `k` ended in an empty slot: the left or right
     * slot of `parent` as `isLeft` says.  Hang a new node there.
     */
    method AttachAt(parent: Node<V>, isLeft: bool, k: int, v: V, ghost ctx: seq<Frame<V>>)
      requires Valid() && Plug(ctx, Nil) == tree && Toward(ctx, k) && CtxOk(ctx, null)
      requires ctx != [] && parent == ctx[|ctx| - 1].node && isLeft == ctx[|ctx| - 1].WentLeft?
      modifies this, Repr
      ensures Valid() && fresh(Repr - old(Repr)) && k !in old(Entries())
      ensures exists n: Node<V> :: tree == Ins(old(tree), k, v, n)
      ensures Entries() == old(Entries())[k := v]
      ensures Count(tree) == Count(old(tree)) + 1
    {
      keySet := keySet + {k};
      var n := new Node(k, v);
      ghost var s' := Br(Nil, n, k, v, Nil);
      ghost var t' := Plug(ctx, s');
      assert t' == Ins(tree, k, v, n) && k !in KeysOf(tree) &&
        Ordered(t') && Distinct(t') && Root(t') == head && KeysOf(t') == keySet &&
        Nodes(t') == Repr + {n} && Count(t') == Count(tree) + 1 &&
        Contents(t') == Contents(tree)[k := v] by {
        InsAtEmpty(ctx, k, v, n);
      }
      assert parent in Repr by {
        PlugNodes(ctx, Nil);
      }
      Hang(parent, isLeft, n, ctx, Nil, s');
      Commit(t');
    }

    /** Record `t'` as the tree the heap now holds, and its nodes as the footprint. */
    ghost method Commit(t': Tree<V>)
      requires Coherent(t') && Distinct(t') && Ordered(t') && head == Root(t') && keySet == KeysOf(t')
      modifies this`tree, this`Repr
      ensures tree == t' && Repr == Nodes(t') && Valid()
    {
      tree, Repr := t', Nodes(t');
    }

    /** `size()`: the number of entries, which is also the number of nodes. */
    method Size() returns (n: nat)
      requires Valid()
      ensures n == |Entries()| && n == Count(tree)
    {
      n := |keySet|;
      assert Entries().Keys == keySet;
      CountIsSize(tree);
    }

    /** `keys()`: the ordered set of stored keys. */
    method Keys() returns (ks: set<int>)
      requires Valid()
      ensures ks == Entries().Keys
    {
      ks := keySet;
    }

    /** `contains(k)`, answered from the key set. */
    method Contains(k: int) returns (b: bool)
      requires Valid()
      ensures b <==> k in Entries()
    {
      b := k in keySet;
    }

    /** `find(k)`: follow the comparison chain from `head`; the stored value, or nothing. */
    method Find(k: int) returns (r: Option<V>)
      requires Valid()
      ensures r.Some? <==> k in Entries()
      ensures r.Some? ==> r.value == Entries()[k]
    {
      var node := head;
      ghost var sub := tree;
      while node != null
        invariant node == Root(sub) && Coherent(sub) && Ordered(sub)
        invariant k in KeysOf(tree) <==> k in KeysOf(sub)
        invariant k in KeysOf(sub) ==> ValueAt(sub, k) == ValueAt(tree, k)
        decreases Count(sub)
      {
        if node.key == k {
          return Some(node.value);
        } else if k < node.key {
          node, sub := node.left, sub.left;
        } else {
          node, sub := node.right, sub.right;
        }
      }
      return None;
    }

    /** `operator[](k)`: the stored value, or the KeyNotFound failure when `k` is absent. */
    method Get(k: int) returns (r: Result<V>)
      requires Valid()
      ensures r.Ok? <==> k in Entries()
      ensures r.Ok? ==> r.value == Entries()[k]
      ensures r.Err? ==> r.error == KeyNotFound
    {
      var p := Find(k);
      if p.Some? {
        return Ok(p.value);
      }
      return Err(KeyNotFound);
    }

    /** `clear()`: drop the whole tree and empty the key set. */
    method Clear()
      requires Valid()
      modifies this
      ensures Valid() && tree == Nil && Repr == {}
      ensures Entries() == map[] && keySet == {}
    {
      head := null;
      keySet := {};
      tree := Nil;
      Repr := {};
    }

    /**
     * `remove(k)`: erase `k` from the key set, walk down to the node holding
     * it (doing nothing if there is none) and delete that node: empty its slot
     * when it is a leaf, promote its only child (the left one if present), or
     * give it the entry of its in-order predecessor and splice that one out.
     */
    method Remove(k: int)
      requires Valid()
      modifies this, Repr
      ensures Valid() && Repr <= old(Repr)
      ensures tree == Del(old(tree), k)
      ensures Entries() == old(Entries()) - {k}
      ensures k in old(Entries()) ==> Count(tree) + 1 == Count(old(tree))
      ensures k !in old(Entries()) ==> tree == old(tree) && unchanged(Repr)
    {
      var node, parent, isLeft, ctx, sub := Locate(k);
      if node == null {
        keySet := keySet - {k};
        assert tree == Del(tree, k) && keySet == KeysOf(tree) && Contents(tree) == Contents(tree) - {k} by {
          DelAbsent(tree, k);
          DelContents(tree, k);
        }
        return;
      }

      DeleteAt(node, parent, isLeft, k, ctx, sub);
    }

    /**
     * `remove` once the walk for `k` has found `node`, the root of `sub`: erase
     * `k` from the key set and unlink the node by one of the three cases.
     */
    method DeleteAt(node: Node<V>, parent: Node?<V>, isLeft: bool, k: int,
                    ghost ctx: seq<Frame<V>>, ghost sub: Tree<V>)
      requires Valid() && Plug(ctx, sub) == tree && Toward(ctx, k)
      requires sub.Br? && sub.key == k && node == sub.node && Nodes(sub) <= Repr
      requires ctx == [] <==> parent == null
      requires ctx != [] ==> parent == ctx[|ctx| - 1].node && isLeft == ctx[|ctx| - 1].WentLeft?
      requires parent != null ==> parent in Repr
      modifies this, Repr
      ensures Valid() && Repr <= old(Repr) && k in old(Entries())
      ensures tree == Del(old(tree), k)
      ensures Entries() == old(Entries()) - {k}
      ensures Count(tree) + 1 == Count(old(tree))
    {
      keySet := keySet - {k};
      ghost var s' := DelRoot(sub);
      ghost var t' := Plug(ctx, s');
      assert t' == Del(tree, k) && Ordered(t') && Distinct(t') && Nodes(t') <= Repr &&
        KeysOf(t') == keySet && Contents(t') == Contents(tree) - {k} && k in KeysOf(tree) &&
        Count(t') + 1 == Count(tree) && (ctx != [] ==> Root(t') == head) by {
        DelAtKey(ctx, sub, k);
      }
      assert Coherent(sub) by {
        PlugCoherent(ctx, sub);
      }
      if node.left == null && node.right == null {
        // a leaf: empty its slot
        Relink(parent, isLeft, null, ctx, sub, s');
      } else if node.left == null || node.right == null {
        // one child: promote it
        var child := if node.left != null then node.left else node.right;
        Relink(parent, isLeft, child, ctx, sub, s');
      } else {
        // two children: take over the in-order predecessor's entry
        TakePredecessor(node, ctx, sub);
      }
      Commit(t');
    }

    /**
     * The third case of `remove`: `node`, the root of `s`, has two children.
     * Find the largest key of its left subtree, move that node's entry into
     * `node`, and hang its left child in its place.
     */
    static method TakePredecessor(node: Node<V>, ghost ctx: seq<Frame<V>>, ghost s: Tree<V>)
      requires s.Br? && node == s.node && s.left.Br? && s.right.Br?
      requires Coherent(Plug(ctx, s)) && Distinct(Plug(ctx, s)) && Distinct(Plug(ctx, DelRoot(s)))
      modifies Nodes(s)
      ensures Coherent(Plug(ctx, DelRoot(s)))
    {
      assert Coherent(s) && Distinct(s) by {
        PlugCoherent(ctx, s);
        PlugDistinct(ctx, s);
      }
      assert allocated(Nodes(Plug(ctx, s)));
      var largest, parentOfLargest, spine, lsub := FindPredecessor(node, s);
      // the walk from the root to the predecessor's slot, with `node` holding its new entry
      ghost var walk := ctx + [WentLeft(node, lsub.key, lsub.value, s.right)] + spine;
      PlugPredecessor(ctx, s, spine, lsub);
      SetEntry(node, largest.key, largest.value, ctx, s);
      assert Coherent(lsub.left) && largest.left == Root(lsub.left) by {
        PlugCoherent(walk, lsub);
      }
      Hang(parentOfLargest, parentOfLargest == node, largest.left, walk, lsub, lsub.left);
    }

    /**
     * The walk of the third case of `remove`: from the left child of `node`,
     * the root of `s`, follow right slots to the node with the largest key of
     * the left subtree.  `spine` holds the nodes passed on the way, and
     * `parentOfLargest` is the last of them, or `node` when there is none.
     */
    static method FindPredecessor(node: Node<V>, ghost s: Tree<V>)
      returns (largest: Node<V>, parentOfLargest: Node<V>, ghost spine: seq<Frame<V>>, ghost lsub: Tree<V>)
      requires s.Br? && node == s.node && s.left.Br? && Coherent(s) && Distinct(s)
      ensures lsub.Br? && lsub.right.Nil? && largest == lsub.node && Coherent(lsub)
      ensures Plug(spine, lsub) == s.left && AllRight(spine)
      ensures lsub == Rightmost(s.left)
      ensures spine == [] <==> parentOfLargest == node
      ensures spine != [] ==> parentOfLargest == spine[|spine| - 1].node
      ensures parentOfLargest in Nodes(s)
    {
      largest, parentOfLargest := node.left, node;
      spine, lsub := [], s.left;
      while largest.right != null
        invariant lsub.Br? && largest == lsub.node && Coherent(lsub)
        invariant Plug(spine, lsub) == s.left && AllRight(spine)
        invariant spine == [] ==> parentOfLargest == node
        invariant spine != [] ==> parentOfLargest == spine[|spine| - 1].node
        decreases Count(lsub)
      {
        ghost var g := WentRight(lsub.left, largest, lsub.key, lsub.value);
        PlugSnoc(spine, g, lsub.right);
        spine, lsub := spine + [g], lsub.right;
        parentOfLargest := largest;
        largest := largest.right;
      }
      PlugRemoveMax(spine, lsub);
      if spine != [] {
        PlugNodes(spine, lsub);
      }
    }

    /** Store the entry `k'`, `v'` in `node`, the root of `s` in the slot where a walk stands. */
    static method SetEntry(node: Node<V>, k': int, v': V, ghost ctx: seq<Frame<V>>, ghost s: Tree<V>)
      requires s.Br? && node == s.node && Coherent(Plug(ctx, s)) && Distinct(Plug(ctx, s))
      modifies node
      ensures Coherent(Plug(ctx, Br(s.left, node, k', v', s.right)))
    {
      PlugCoherent(ctx, s);
      PlugDistinct(ctx, s);
      node.key := k';
      node.value := v';
      assert CtxOk(ctx, node);
      assert Coherent(Br(s.left, node, k', v', s.right));
      PlugCoherent(ctx, Br(s.left, node, k', v', s.right));
    }

    /** Store `v` as the value of `node`, the root of `s` in the slot where a walk stands. */
    static method Overwrite(node: Node<V>, v: V, ghost ctx: seq<Frame<V>>, ghost s: Tree<V>)
      requires s.Br? && node == s.node && Coherent(Plug(ctx, s)) && Distinct(Plug(ctx, s))
      modifies node
      ensures Coherent(Plug(ctx, Br(s.left, node, s.key, v, s.right)))
    {
      PlugCoherent(ctx, s);
      PlugDistinct(ctx, s);
      node.value := v;
      assert CtxOk(ctx, node);
      assert Coherent(Br(s.left, node, s.key, v, s.right));
      PlugCoherent(ctx, Br(s.left, node, s.key, v, s.right));
    }

    /**
     * Store `x` in the slot where a walk stands: `head` when it never left the
     * root, otherwise the left or right slot of `parent` as `isLeft` says.
     * The subtree `s'` rooted at `x` replaces `s`.
     */
    method Relink(parent: Node?<V>, isLeft: bool, x: Node?<V>,
                  ghost ctx: seq<Frame<V>>, ghost s: Tree<V>, ghost s': Tree<V>)
      requires ctx == [] <==> parent == null
      requires ctx != [] ==> parent == ctx[|ctx| - 1].node && isLeft == ctx[|ctx| - 1].WentLeft?
      requires x == Root(s') && Coherent(s')
      requires Coherent(Plug(ctx, s)) && Distinct(Plug(ctx, s'))
      modifies this`head, parent
      ensures ctx == [] ==> head == x
      ensures ctx != [] ==> head == old(head)
      ensures Coherent(Plug(ctx, s'))
    {
      if parent == null {
        head := x;
      } else {
        Hang(parent, isLeft, x, ctx, s, s');
      }
    }

    /**
     * Store `x` in the left or right slot of `parent`, the last node a walk
     * passed; the subtree `s'` rooted at `x` replaces `s`.
     */
    static method Hang(parent: Node<V>, isLeft: bool, x: Node?<V>,
                       ghost ctx: seq<Frame<V>>, ghost s: Tree<V>, ghost s': Tree<V>)
      requires ctx != [] && parent == ctx[|ctx| - 1].node && isLeft == ctx[|ctx| - 1].WentLeft?
      requires x == Root(s') && Coherent(s')
      requires Coherent(Plug(ctx, s)) && Distinct(Plug(ctx, s'))
      modifies parent
      ensures Coherent(Plug(ctx, s'))
    {
      PlugCoherent(ctx, s);
      PlugDistinct(ctx, s');
      ghost var init, f := ctx[..|ctx| - 1], ctx[|ctx| - 1];
      assert ctx == init + [f];
      CtxOkSnoc(init, f, Root(s));
      PlugSnoc(init, f, s');
      if isLeft {
        parent.left := x;
      } else {
        parent.right := x;
      }
      assert CtxOk(init, parent);
      assert FrameOk(f, x);
      CtxOkSnoc(init, f, x);
      PlugCoherent(ctx, s');
    }
  }
}
