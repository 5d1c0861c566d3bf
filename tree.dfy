/**
 * The nodes of the map's binary search tree and a ghost image of the tree.
 *
 * `Node` is the heap object of Map.h (key, value and two exclusively owned
 * child slots).  `Tree` is a value that records, for every node, its identity
 * together with its key and value; `Coherent` ties the heap to such a value and
 * `Distinct` says that no node is shared, i.e. the child slots really own their
 * subtrees.  `Ins` and `Del` are the recursive definitions of what the
 * pointer-walking `insert` and `remove` of the map do to the tree; the lemmas of
 * this module state what they mean for the stored entries.
 */
module Tree {

  /** One tree vertex: a key, its value and the owned left and right children. */
  class Node<V> {
    var key: int
    var value: V
    var left: Node?<V>
    var right: Node?<V>

    constructor (k: int, v: V)
      ensures key == k && value == v && left == null && right == null
    {
      key, value := k, v;
      left, right := null, null;
    }
  }

  /** The ghost image of a (sub)tree: the node objects with their contents. */
  datatype Tree<V> = Nil | Br(left: Tree<V>, node: Node<V>, key: int, value: V, right: Tree<V>)

  /** The same tree without its values: which node holds which key, and where. */
  datatype Skeleton<V> = Leaf | Fork(left: Skeleton<V>, node: Node<V>, key: int, right: Skeleton<V>)

  /** The object stored in the slot that owns `t` (null for an empty slot). */
  function Root<V>(t: Tree<V>): Node?<V>
  {
    if t.Nil? then null else t.node
  }

  function Nodes<V>(t: Tree<V>): set<Node<V>>
  {
    match t
    case Nil => {}
    case Br(l, n, _, _, r) => Nodes(l) + Nodes(r) + {n}
  }

  function Count<V>(t: Tree<V>): nat
  {
    match t
    case Nil => 0
    case Br(l, _, _, _, r) => Count(l) + Count(r) + 1
  }

  function Shape<V>(t: Tree<V>): Skeleton<V>
  {
    match t
    case Nil => Leaf
    case Br(l, n, k, _, r) => Fork(Shape(l), n, k, Shape(r))
  }

  /** The keys stored in `t`. */
  function KeysOf<V>(t: Tree<V>): set<int>
  {
    match t
    case Nil => {}
    case Br(l, _, k, _, r) => KeysOf(l) + KeysOf(r) + {k}
  }

  /** The value stored under `x`: at the vertex itself, else in the left subtree, else in the right one. */
  function ValueAt<V>(t: Tree<V>, x: int): V
    requires x in KeysOf(t)
  {
    if x == t.key then t.value
    else if x in KeysOf(t.left) then ValueAt(t.left, x)
    else ValueAt(t.right, x)
  }

  /** The key/value entries stored in `t`. */
  function Contents<V>(t: Tree<V>): map<int, V>
  {
    map x | x in KeysOf(t) :: ValueAt(t, x)
  }

  /** BST order: smaller keys to the left, larger keys to the right, at every node. */
  predicate Ordered<V>(t: Tree<V>)
  {
    match t
    case Nil => true
    case Br(l, _, k, _, r) =>
      Ordered(l) && Ordered(r) &&
      (forall x | x in KeysOf(l) :: x < k) &&
      (forall x | x in KeysOf(r) :: k < x)
  }

  /** No node object occurs twice: each slot owns its subtree exclusively. */
  predicate Distinct<V>(t: Tree<V>)
  {
    match t
    case Nil => true
    case Br(l, n, _, _, r) =>
      Distinct(l) && Distinct(r) && Nodes(l) !! Nodes(r) && n !in Nodes(l) && n !in Nodes(r)
  }

  /** The heap agrees with `t`: every node holds its key, value and children. */
  ghost predicate Coherent<V>(t: Tree<V>)
    reads Nodes(t)
  {
    match t
    case Nil => true
    case Br(l, n, k, v, r) =>
      n.key == k && n.value == v && n.left == Root(l) && n.right == Root(r) &&
      Coherent(l) && Coherent(r)
  }

  /**
   * What `insert(k, v)` does to `t`: follow the comparison chain; overwrite the
   * value of a node with key `k`, or hang the new node `n` in the empty slot
   * where the descent ends.
   */
  function Ins<V>(t: Tree<V>, k: int, v: V, n: Node<V>): (r: Tree<V>)
    ensures r.Br? && KeysOf(r) == KeysOf(t) + {k}
    ensures Count(t) <= Count(r) <= Count(t) + 1
  {
    match t
    case Nil => Br(Nil, n, k, v, Nil)
    case Br(l, m, k', v', r) =>
      if k < k' then Br(Ins(l, k, v, n), m, k', v', r)
      else if k > k' then Br(l, m, k', v', Ins(r, k, v, n))
      else Br(l, m, k', v, r)
  }

  /** The node with the largest key: the end of the right spine. */
  function Rightmost<V>(t: Tree<V>): (p: Tree<V>)
    requires t.Br?
    ensures p.Br? && p.right.Nil? && p.key in KeysOf(t) && p.node in Nodes(t)
  {
    if t.right.Nil? then t else Rightmost(t.right)
  }

  /** `t` without its rightmost node, whose left child takes its slot. */
  function RemoveMax<V>(t: Tree<V>): (r: Tree<V>)
    requires t.Br?
    ensures KeysOf(r) <= KeysOf(t) && Count(r) + 1 == Count(t)
  {
    if t.right.Nil? then t.left else Br(t.left, t.node, t.key, t.value, RemoveMax(t.right))
  }

  /**
   * What `remove` does to the node that holds the key: no child, the slot is
   * emptied; one child, the child (the left one if present) is promoted; two
   * children, the node takes the entry of its in-order predecessor, which is
   * spliced out of the left subtree.
   */
  function DelRoot<V>(t: Tree<V>): (r: Tree<V>)
    requires t.Br?
    ensures KeysOf(r) <= KeysOf(t) && Count(r) + 1 == Count(t)
  {
    if t.left.Nil? && t.right.Nil? then Nil
    else if t.left.Nil? || t.right.Nil? then (if t.left.Br? then t.left else t.right)
    else
      var p := Rightmost(t.left);
      Br(RemoveMax(t.left), t.node, p.key, p.value, t.right)
  }

  /** What `remove(k)` does to `t`: follow the comparison chain to `k` and delete there. */
  function Del<V>(t: Tree<V>, k: int): (r: Tree<V>)
    ensures KeysOf(r) <= KeysOf(t) && Count(r) <= Count(t) <= Count(r) + 1
  {
    match t
    case Nil => Nil
    case Br(l, m, k', v', r) =>
      if k == k' then DelRoot(t)
      else if k < k' then Br(Del(l, k), m, k', v', r)
      else Br(l, m, k', v', Del(r, k))
  }

  /** `a` and `b` hold the same keys and values in the same places, whatever their node objects. */
  ghost predicate Mirror<V>(a: Tree<V>, b: Tree<V>)
  {
    match (a, b)
    case (Nil, Nil) => true
    case (Br(al, _, ak, av, ar), Br(bl, _, bk, bv, br)) =>
      ak == bk && av == bv && Mirror(al, bl) && Mirror(ar, br)
    case _ => false
  }

  // ---------------------------------------------------------------------------
  // Entries

  /** A mirror image stores the same entries, in BST order exactly when the original is. */
  lemma {:induction false} MirrorContents<V>(a: Tree<V>, b: Tree<V>)
    requires Mirror(a, b)
    ensures KeysOf(a) == KeysOf(b) && Count(a) == Count(b)
    ensures forall x | x in KeysOf(a) :: ValueAt(a, x) == ValueAt(b, x)
    ensures Contents(a) == Contents(b)
    ensures Ordered(a) <==> Ordered(b)
  {
    match (a, b)
    case (Nil, Nil) =>
    case (Br(al, _, _, _, ar), Br(bl, _, _, _, br)) =>
      MirrorContents(al, bl);
      MirrorContents(ar, br);
  }

  /** An ordered tree stores as many keys as it has vertices: keys are unique. */
  lemma {:induction false} CountIsSize<V>(t: Tree<V>)
    requires Ordered(t)
    ensures |KeysOf(t)| == Count(t)
  {
    match t
    case Nil =>
    case Br(l, _, k, _, r) =>
      CountIsSize(l);
      CountIsSize(r);
      var a, b := KeysOf(l), KeysOf(r);
      assert a !! b by {
        forall x | x in a ensures x !in b { assert x < k; }
      }
      var ab := a + b;
      assert |ab| == |a| + |b|;
      assert k !in ab;
      assert |ab + {k}| == |ab| + 1;
  }

  /** Distinct node objects: the tree has as many objects as vertices. */
  lemma {:induction false} NodesAreCount<V>(t: Tree<V>)
    requires Distinct(t)
    ensures |Nodes(t)| == Count(t)
  {
    if t.Br? {
      NodesAreCount(t.left);
      NodesAreCount(t.right);
      assert |Nodes(t.left) + Nodes(t.right)| == |Nodes(t.left)| + |Nodes(t.right)|;
    }
  }

  // ---------------------------------------------------------------------------
  // Insertion

  /** Insertion keeps BST order and adds `k` to the keys. */
  lemma {:induction false} InsOrdered<V>(t: Tree<V>, k: int, v: V, n: Node<V>)
    requires Ordered(t)
    ensures Ordered(Ins(t, k, v, n))
    ensures KeysOf(Ins(t, k, v, n)) == KeysOf(t) + {k}
  {
    match t
    case Nil =>
    case Br(l, m, k', v', r) =>
      if k < k' {
        InsOrdered(l, k, v, n);
      } else if k > k' {
        InsOrdered(r, k, v, n);
      }
  }

  /** After insertion into an ordered tree, `k` holds `v` and every other key its old value. */
  lemma {:induction false} InsValue<V>(t: Tree<V>, k: int, v: V, n: Node<V>, x: int)
    requires Ordered(t) && x in KeysOf(t) + {k}
    ensures x in KeysOf(Ins(t, k, v, n))
    ensures ValueAt(Ins(t, k, v, n), x) == if x == k then v else ValueAt(t, x)
  {
    InsOrdered(t, k, v, n);
    match t
    case Nil =>
    case Br(l, m, k', v', r) =>
      if k < k' {
        InsOrdered(l, k, v, n);
        if x != k' && x in KeysOf(l) + {k} {
          InsValue(l, k, v, n, x);
        }
      } else if k > k' {
        InsOrdered(r, k, v, n);
        if x != k' && x !in KeysOf(l) {
          InsValue(r, k, v, n, x);
        }
      }
  }

  /** Insertion into an ordered tree stores `v` under `k` and leaves every other entry as it was. */
  lemma InsContents<V>(t: Tree<V>, k: int, v: V, n: Node<V>)
    requires Ordered(t)
    ensures Ordered(Ins(t, k, v, n))
    ensures Contents(Ins(t, k, v, n)) == Contents(t)[k := v]
  {
    InsOrdered(t, k, v, n);
    forall x | x in KeysOf(t) + {k}
      ensures ValueAt(Ins(t, k, v, n), x) == if x == k then v else ValueAt(t, x)
    {
      InsValue(t, k, v, n, x);
    }
  }

  /**
   * On a key already present, insertion changes no node object, no key and no
   * position: only the value under `k`.  On a new key, exactly the node `n` is added.
   */
  lemma {:induction false} InsShape<V>(t: Tree<V>, k: int, v: V, n: Node<V>)
    requires Ordered(t)
    ensures k in KeysOf(t) ==>
      Shape(Ins(t, k, v, n)) == Shape(t) && Nodes(Ins(t, k, v, n)) == Nodes(t) &&
      Count(Ins(t, k, v, n)) == Count(t)
    ensures k !in KeysOf(t) ==>
      Nodes(Ins(t, k, v, n)) == Nodes(t) + {n} && Count(Ins(t, k, v, n)) == Count(t) + 1
  {
    match t
    case Nil =>
    case Br(l, m, k', v', r) =>
      if k < k' {
        InsShape(l, k, v, n);
        assert k !in KeysOf(r);
      } else if k > k' {
        InsShape(r, k, v, n);
        assert k !in KeysOf(l);
      }
  }

  /** A fresh node hung into a tree without sharing keeps it without sharing. */
  lemma {:induction false} InsDistinct<V>(t: Tree<V>, k: int, v: V, n: Node<V>)
    requires Distinct(t) && n !in Nodes(t)
    ensures Distinct(Ins(t, k, v, n))
    ensures Nodes(Ins(t, k, v, n)) <= Nodes(t) + {n}
  {
    match t
    case Nil =>
    case Br(l, m, k', v', r) =>
      if k < k' {
        InsDistinct(l, k, v, n);
      } else if k > k' {
        InsDistinct(r, k, v, n);
      }
  }

  // ---------------------------------------------------------------------------
  // Deletion

  /** The rightmost vertex holds the largest key, and splicing it out keeps order and removes that key. */
  lemma {:induction false} RemoveMaxOrdered<V>(t: Tree<V>)
    requires t.Br? && Ordered(t)
    ensures forall x | x in KeysOf(t) :: x <= Rightmost(t).key
    ensures Ordered(RemoveMax(t))
    ensures KeysOf(RemoveMax(t)) == KeysOf(t) - {Rightmost(t).key}
  {
    if t.right.Br? {
      RemoveMaxOrdered(t.right);
    }
  }

  /** The rightmost vertex's value is the one stored under its key; splicing it out moves no other value. */
  lemma {:induction false} RemoveMaxValue<V>(t: Tree<V>, x: int)
    requires t.Br? && Ordered(t)
    ensures ValueAt(t, Rightmost(t).key) == Rightmost(t).value
    ensures x in KeysOf(RemoveMax(t)) ==> ValueAt(RemoveMax(t), x) == ValueAt(t, x)
  {
    RemoveMaxOrdered(t);
    if t.right.Br? {
      RemoveMaxValue(t.right, x);
      RemoveMaxOrdered(t.right);
      assert Rightmost(t).key !in KeysOf(t.left);
    }
  }

  /** Splicing out the rightmost vertex keeps the tree free of sharing and drops that node only. */
  lemma {:induction false} RemoveMaxNodes<V>(t: Tree<V>)
    requires t.Br? && Distinct(t)
    ensures Distinct(RemoveMax(t))
    ensures Nodes(RemoveMax(t)) == Nodes(t) - {Rightmost(t).node}
  {
    if t.right.Br? {
      RemoveMaxNodes(t.right);
    }
  }

  /** Deletion keeps BST order and removes `k`, and only `k`, from the keys. */
  lemma {:induction false} DelOrdered<V>(t: Tree<V>, k: int)
    requires Ordered(t)
    ensures Ordered(Del(t, k))
    ensures KeysOf(Del(t, k)) == KeysOf(t) - {k}
  {
    match t
    case Nil =>
    case Br(l, m, k', v', r) =>
      if k < k' {
        DelOrdered(l, k);
      } else if k > k' {
        DelOrdered(r, k);
      } else if l.Br? && r.Br? {
        RemoveMaxOrdered(l);
        var p := Rightmost(l);
        assert forall x | x in KeysOf(r) :: p.key < x;
      }
  }

  /** Deletion from an ordered tree moves no value: every remaining key keeps its value. */
  lemma {:induction false} DelValue<V>(t: Tree<V>, k: int, x: int)
    requires Ordered(t) && x in KeysOf(t) && x != k
    ensures x in KeysOf(Del(t, k))
    ensures ValueAt(Del(t, k), x) == ValueAt(t, x)
  {
    DelOrdered(t, k);
    match t
    case Nil =>
    case Br(l, m, k', v', r) =>
      if k < k' {
        DelOrdered(l, k);
        if x != k' && x in KeysOf(l) {
          DelValue(l, k, x);
        }
      } else if k > k' {
        DelOrdered(r, k);
        if x != k' && x !in KeysOf(l) {
          DelValue(r, k, x);
        }
      } else if l.Br? && r.Br? {
        RemoveMaxOrdered(l);
        RemoveMaxValue(l, x);
        var p := Rightmost(l);
        assert p.key !in KeysOf(r);
      }
  }

  /** Deletion from an ordered tree removes the entry under `k` and no other. */
  lemma DelContents<V>(t: Tree<V>, k: int)
    requires Ordered(t)
    ensures Ordered(Del(t, k))
    ensures Contents(Del(t, k)) == Contents(t) - {k}
  {
    DelOrdered(t, k);
    forall x | x in KeysOf(t) && x != k
      ensures ValueAt(Del(t, k), x) == ValueAt(t, x)
    {
      DelValue(t, k, x);
    }
  }

  /** Removing a key that is not stored leaves the tree exactly as it was. */
  lemma {:induction false} DelAbsent<V>(t: Tree<V>, k: int)
    requires k !in KeysOf(t)
    ensures Del(t, k) == t
  {
    match t
    case Nil =>
    case Br(l, m, k', v', r) =>
      if k < k' {
        DelAbsent(l, k);
      } else if k > k' {
        DelAbsent(r, k);
      }
  }

  /**
   * Deletion keeps the tree free of sharing and never adds an object; when the
   * key was stored it removes exactly one vertex.
   */
  lemma {:induction false} DelNodes<V>(t: Tree<V>, k: int)
    requires Distinct(t)
    ensures Distinct(Del(t, k))
    ensures Nodes(Del(t, k)) <= Nodes(t)
    ensures Ordered(t) && k in KeysOf(t) ==> Count(Del(t, k)) + 1 == Count(t)
  {
    match t
    case Nil =>
    case Br(l, m, k', v', r) =>
      if k < k' {
        DelNodes(l, k);
        if Ordered(t) && k in KeysOf(t) { assert k !in KeysOf(r); }
      } else if k > k' {
        DelNodes(r, k);
        if Ordered(t) && k in KeysOf(t) { assert k !in KeysOf(l); }
      } else if l.Br? && r.Br? {
        RemoveMaxNodes(l);
      }
  }
}
