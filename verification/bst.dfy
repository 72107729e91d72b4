/** The unbalanced binary search tree map (class `BST`).

    Every recursive helper takes a subtree and returns the new root of that
    subtree, as the Java code does. The `size` field, which the Java helpers
    bump as a side effect, is passed in and handed back explicitly. */
module BST {
  import opened Wrappers

  /** A subtree: `Nil` is a null link, `Node` a node that owns its children. */
  datatype Tree<V> = Nil | Node(key: int, value: V, left: Tree<V>, right: Tree<V>)

  /** The map object: the root link and the `size` counter. */
  datatype BstMap<V> = BstMap(root: Tree<V>, size: int) {
    /** The class invariant: a search tree whose counter is its node count. */
    ghost predicate Valid() {
      Ordered(root) && size == Count(root)
    }
  }

  /** The exception `set` throws for an absent key. */
  datatype SetError = IllegalArgument(key: int)

  // ---------------------------------------------------------------------------
  // Abstraction functions

  /** The keys stored in a subtree. */
  ghost function Keys<V>(t: Tree<V>): set<int> {
    match t
    case Nil => {}
    case Node(k, _, l, r) => Keys(l) + {k} + Keys(r)
  }

  /** The abstract map a subtree stands for (the node's own entry wins). */
  ghost function Content<V>(t: Tree<V>): (c: map<int, V>)
    ensures c.Keys == Keys(t)
  {
    match t
    case Nil => map[]
    case Node(k, v, l, r) => (Content(l) + Content(r))[k := v]
  }

  /** The number of nodes in a subtree. */
  ghost function Count<V>(t: Tree<V>): nat {
    match t
    case Nil => 0
    case Node(_, _, l, r) => Count(l) + 1 + Count(r)
  }

  /** The search-tree invariant: left keys are smaller, right keys larger, at every node. */
  ghost predicate Ordered<V>(t: Tree<V>) {
    match t
    case Nil => true
    case Node(k, _, l, r) =>
      && Ordered(l)
      && Ordered(r)
      && (forall x :: x in Keys(l) ==> x < k)
      && (forall x :: x in Keys(r) ==> k < x)
  }

  /** Two subtrees with the same links and the same keys; values may differ. */
  ghost predicate SameShape<V>(a: Tree<V>, b: Tree<V>) {
    match a
    case Nil => b.Nil?
    case Node(k, _, l, r) => b.Node? && b.key == k && SameShape(l, b.left) && SameShape(r, b.right)
  }

  /** The right-most node of a non-empty subtree, the one `removeMax` unlinks. */
  ghost function Maximum<V>(node: Tree<V>): (r: Tree<V>)
    requires node.Node?
    ensures r.Node? && r.right.Nil? && r.key in Keys(node)
    ensures Ordered(node) ==> forall x :: x in Keys(node) ==> x <= r.key
  {
    if node.right.Nil? then node else Maximum(node.right)
  }

  // ---------------------------------------------------------------------------
  // Recursive helpers

  /** `add(Node, K, V)`: insert below `node`, or overwrite the value of an equal key. */
  function AddAt<V>(node: Tree<V>, key: int, value: V, size: int): (r: (Tree<V>, int))
    ensures r.1 == size || r.1 == size + 1
    ensures Count(r.0) == Count(node) + (r.1 - size)
    ensures Keys(r.0) == Keys(node) + {key}
    ensures Ordered(node) ==> Ordered(r.0)
    ensures Ordered(node) ==> Content(r.0) == Content(node)[key := value]
    ensures Ordered(node) ==> (r.1 == size <==> key in Keys(node))
  {
    match node
    case Nil => (Node(key, value, Nil, Nil), size + 1)
    case Node(k, v, l, rt) =>
      if key < k then
        var (l', size') := AddAt(l, key, value, size);
        var t := Node(k, v, l', rt);
        assert Keys(t) == Keys(node) + {key};
        assert Ordered(node) ==> Ordered(t) && Content(t) == Content(node)[key := value] by {
          if Ordered(node) {
            UpdateBelowLeft(Content(l), Content(rt), k, v, key, value);
          }
        }
        (t, size')
      else if key > k then
        var (rt', size') := AddAt(rt, key, value, size);
        var t := Node(k, v, l, rt');
        assert Keys(t) == Keys(node) + {key};
        assert Ordered(node) ==> Ordered(t) && Content(t) == Content(node)[key := value] by {
          if Ordered(node) {
            UpdateBelowRight(Content(l), Content(rt), k, v, key, value);
          }
        }
        (t, size')
      else
        var t := Node(k, value, l, rt);
        assert Ordered(node) ==> Content(t) == Content(node)[key := value] by {
          if Ordered(node) {
            OverwriteRoot(Content(l), Content(rt), k, v, value);
          }
        }
        (t, size)
  }

  /** `getNode`: the node holding `key`, or `Nil` when the search reaches a null link. */
  function GetNode<V>(node: Tree<V>, key: int): (r: Tree<V>)
    ensures r.Node? ==> r.key == key && key in Keys(node)
    ensures Ordered(node) ==> (r.Node? <==> key in Keys(node))
    ensures Ordered(node) && r.Node? ==> r.value == Content(node)[key]
  {
    match node
    case Nil => Nil
    case Node(k, _, l, rt) =>
      if key == k then node
      else if key < k then GetNode(l, key)
      else GetNode(rt, key)
  }

  /** The in-place `node.value = newValue` of `set`: rebuilds the search path of
      `getNode` and replaces the value of the node found there. */
  function SetAt<V>(node: Tree<V>, key: int, newValue: V): (r: Tree<V>)
    ensures SameShape(node, r)
    ensures Keys(r) == Keys(node) && Count(r) == Count(node)
    ensures key !in Keys(node) ==> r == node
    ensures Ordered(node) ==> Ordered(r)
    ensures Ordered(node) && key in Keys(node) ==> Content(r) == Content(node)[key := newValue]
  {
    match node
    case Nil => Nil
    case Node(k, v, l, rt) =>
      if key == k then
        SameShapeRefl(l);
        SameShapeRefl(rt);
        Node(k, newValue, l, rt)
      else if key < k then
        SameShapeRefl(rt);
        var t := Node(k, v, SetAt(l, key, newValue), rt);
        assert Ordered(node) && key in Keys(node) ==> Content(t) == Content(node)[key := newValue] by {
          if Ordered(node) && key in Keys(node) {
            UpdateBelowLeft(Content(l), Content(rt), k, v, key, newValue);
          }
        }
        t
      else
        SameShapeRefl(l);
        var t := Node(k, v, l, SetAt(rt, key, newValue));
        assert Ordered(node) && key in Keys(node) ==> Content(t) == Content(node)[key := newValue] by {
          if Ordered(node) && key in Keys(node) {
            UpdateBelowRight(Content(l), Content(rt), k, v, key, newValue);
          }
        }
        t
  }

  /** `minimum`: the left-most node of a non-empty subtree. */
  function Minimum<V>(node: Tree<V>): (r: Tree<V>)
    requires node.Node?
    ensures r.Node? && r.left.Nil? && r.key in Keys(node)
    ensures Ordered(node) ==> r.value == Content(node)[r.key]
    ensures Ordered(node) ==> forall x :: x in Keys(node) ==> r.key <= x
  {
    if node.left.Nil? then node else Minimum(node.left)
  }

  /** `removeMin`: unlinks the left-most node, promoting its right child. */
  function RemoveMinAt<V>(node: Tree<V>, size: int): (r: (Tree<V>, int))
    requires node.Node?
    ensures r.1 == size - 1
    ensures Count(r.0) == Count(node) - 1
    ensures Keys(r.0) <= Keys(node)
    ensures Ordered(node) ==> Ordered(r.0)
    ensures Ordered(node) ==> Content(r.0) == Content(node) - {Minimum(node).key}
  {
    if node.left.Nil? then
      assert Ordered(node) ==> Content(node.right) == Content(node) - {node.key} by {
        if Ordered(node) {
          DeleteRoot(Content(node.left), Content(node.right), node.key, node.value);
        }
      }
      (node.right, size - 1)
    else
      var (l', size') := RemoveMinAt(node.left, size);
      var t := Node(node.key, node.value, l', node.right);
      assert Ordered(node) ==> Content(t) == Content(node) - {Minimum(node).key} by {
        if Ordered(node) {
          DeleteBelowLeft(Content(node.left), Content(node.right), node.key, node.value, Minimum(node).key);
        }
      }
      (t, size')
  }

  /** `removeMax`: unlinks the right-most node, promoting its left child. */
  function RemoveMaxAt<V>(node: Tree<V>, size: int): (r: (Tree<V>, int))
    requires node.Node?
    ensures r.1 == size - 1
    ensures Count(r.0) == Count(node) - 1
    ensures Keys(r.0) <= Keys(node)
    ensures Ordered(node) ==> Ordered(r.0)
    ensures Ordered(node) ==> Content(r.0) == Content(node) - {Maximum(node).key}
  {
    if node.right.Nil? then
      assert Ordered(node) ==> Content(node.left) == Content(node) - {node.key} by {
        if Ordered(node) {
          DeleteRoot(Content(node.left), Content(node.right), node.key, node.value);
        }
      }
      (node.left, size - 1)
    else
      var (rt', size') := RemoveMaxAt(node.right, size);
      var t := Node(node.key, node.value, node.left, rt');
      assert Ordered(node) ==> Content(t) == Content(node) - {Maximum(node).key} by {
        if Ordered(node) {
          DeleteBelowRight(Content(node.left), Content(node.right), node.key, node.value, Maximum(node).key);
        }
      }
      (t, size')
  }

  /** `remove(Node, K)`: Hibbard deletion. A node with two children is replaced
      by the minimum of its right subtree, which is spliced out by `removeMin`. */
  function RemoveAt<V>(node: Tree<V>, key: int, size: int): (r: (Tree<V>, int))
    ensures r.1 == size || r.1 == size - 1
    ensures Count(r.0) == Count(node) - (size - r.1)
    ensures Keys(r.0) <= Keys(node)
    ensures key !in Keys(node) ==> r == (node, size)
    ensures Ordered(node) ==> Ordered(r.0)
    ensures Ordered(node) ==> Content(r.0) == Content(node) - {key}
    ensures Ordered(node) ==> (r.1 == size - 1 <==> key in Keys(node))
  {
    match node
    case Nil => (Nil, size)
    case Node(k, v, l, rt) =>
      if key < k then
        var (l', size') := RemoveAt(l, key, size);
        var t := Node(k, v, l', rt);
        assert Ordered(node) ==> Content(t) == Content(node) - {key} by {
          if Ordered(node) {
            DeleteBelowLeft(Content(l), Content(rt), k, v, key);
          }
        }
        (t, size')
      else if key > k then
        var (rt', size') := RemoveAt(rt, key, size);
        var t := Node(k, v, l, rt');
        assert Ordered(node) ==> Content(t) == Content(node) - {key} by {
          if Ordered(node) {
            DeleteBelowRight(Content(l), Content(rt), k, v, key);
          }
        }
        (t, size')
      else if l.Nil? then
        assert Ordered(node) ==> Content(rt) == Content(node) - {key} by {
          if Ordered(node) {
            DeleteRoot(Content(l), Content(rt), k, v);
          }
        }
        (rt, size - 1)
      else if rt.Nil? then
        assert Ordered(node) ==> Content(l) == Content(node) - {key} by {
          if Ordered(node) {
            DeleteRoot(Content(l), Content(rt), k, v);
          }
        }
        (l, size - 1)
      else
        var successor := Minimum(rt);
        var (rt', size') := RemoveMinAt(rt, size);
        var t := Node(successor.key, successor.value, l, rt');
        assert Ordered(node) ==> Ordered(t) && Content(t) == Content(node) - {key} by {
          if Ordered(node) {
            PromoteSuccessorOrdered(l, rt, k, v, successor.key);
            PromoteSuccessor(Content(l), Content(rt), k, v, successor.key);
          }
        }
        (t, size')
  }

  // ---------------------------------------------------------------------------
  // The public operations

  /** The constructor: no root, size 0. */
  function Empty<V>(): (m: BstMap<V>)
    ensures m.Valid() && Content(m.root) == map[]
  {
    BstMap(Nil, 0)
  }

  /** `add`: insert `key ↦ value`, overwriting the value of a present key. */
  function Add<V>(m: BstMap<V>, key: int, value: V): (m': BstMap<V>)
    requires m.Valid()
    ensures m'.Valid()
    ensures Content(m'.root) == Content(m.root)[key := value]
    ensures m'.size == if key in Content(m.root) then m.size else m.size + 1
  {
    var (root', size') := AddAt(m.root, key, value, m.size);
    BstMap(root', size')
  }

  /** `get`: the value bound to `key`, or `None` for Java's `null`. */
  function Get<V>(m: BstMap<V>, key: int): (r: Option<V>)
    requires m.Valid()
    ensures r == if key in Content(m.root) then Some(Content(m.root)[key]) else None
  {
    var node := GetNode(m.root, key);
    if node.Nil? then None else Some(node.value)
  }

  /** `contains`: whether `getNode` finds a node. */
  function Contains<V>(m: BstMap<V>, key: int): (b: bool)
    requires m.Valid()
    ensures b <==> key in Content(m.root)
    ensures b <==> Get(m, key).Some?
  {
    GetNode(m.root, key).Node?
  }

  /** `set`: overwrite the value of a present key; an absent key throws. */
  function Set<V>(m: BstMap<V>, key: int, newValue: V): (r: Result<BstMap<V>, SetError>)
    requires m.Valid()
    ensures r.Failure? <==> key !in Content(m.root)
    ensures r.Failure? ==> r.error == IllegalArgument(key)
    ensures r.Success? ==> r.value.Valid() && r.value.size == m.size
    ensures r.Success? ==> Content(r.value.root) == Content(m.root)[key := newValue]
    ensures r.Success? ==> SameShape(m.root, r.value.root)
  {
    var node := GetNode(m.root, key);
    if node.Nil? then
      Failure(IllegalArgument(key))
    else
      Success(BstMap(SetAt(m.root, key, newValue), m.size))
  }

  /** `remove`: unlink `key` and return its old value; an absent key changes nothing. */
  function Remove<V>(m: BstMap<V>, key: int): (r: (BstMap<V>, Option<V>))
    requires m.Valid()
    ensures r.0.Valid()
    ensures r.1 == if key in Content(m.root) then Some(Content(m.root)[key]) else None
    ensures Content(r.0.root) == Content(m.root) - {key}
    ensures key !in Content(m.root) ==> r.0 == m
    ensures key in Content(m.root) ==> r.0.size == m.size - 1
  {
    var node := GetNode(m.root, key);
    if node.Node? then
      var (root', size') := RemoveAt(m.root, key, m.size);
      (BstMap(root', size'), Some(node.value))
    else
      (m, None)
  }

  /** `getSize`: the counter, which is the number of keys in the map. */
  function GetSize<V>(m: BstMap<V>): (n: int)
    requires m.Valid()
    ensures n == |Content(m.root)|
  {
    CountIsKeyCount(m.root);
    m.size
  }

  /** `isEmpty`: the counter is zero exactly when the map has no keys. */
  function IsEmpty<V>(m: BstMap<V>): (b: bool)
    requires m.Valid()
    ensures b <==> Content(m.root) == map[]
    ensures b <==> m.root.Nil?
  {
    m.size == 0
  }

  // ---------------------------------------------------------------------------
  // Lemmas

  /** Map algebra for a node whose entry `k ↦ v` overrides the union of its
      children's maps, when the changed key `x` lies in the left child. */
  lemma UpdateBelowLeft<V>(a: map<int, V>, b: map<int, V>, k: int, v: V, x: int, y: V)
    requires x != k && x !in b
    ensures (a[x := y] + b)[k := v] == (a + b)[k := v][x := y]
  {
  }

  /** Overwriting the node's own entry. */
  lemma OverwriteRoot<V>(a: map<int, V>, b: map<int, V>, k: int, v: V, y: V)
    ensures (a + b)[k := y] == (a + b)[k := v][k := y]
  {
  }

  /** As `UpdateBelowLeft`, for a changed key in the right child. */
  lemma UpdateBelowRight<V>(a: map<int, V>, b: map<int, V>, k: int, v: V, x: int, y: V)
    requires x != k
    ensures (a + b[x := y])[k := v] == (a + b)[k := v][x := y]
  {
  }

  /** Deleting a key of the left child deletes it from the node's map. */
  lemma DeleteBelowLeft<V>(a: map<int, V>, b: map<int, V>, k: int, v: V, x: int)
    requires x != k && x !in b
    ensures (a - {x} + b)[k := v] == (a + b)[k := v] - {x}
  {
  }

  /** Deleting a key of the right child deletes it from the node's map. */
  lemma DeleteBelowRight<V>(a: map<int, V>, b: map<int, V>, k: int, v: V, x: int)
    requires x != k && x !in a
    ensures (a + (b - {x}))[k := v] == (a + b)[k := v] - {x}
  {
  }

  /** Deleting the node's own key leaves the union of its children's maps,
      which is the one non-empty child's map when the other child is empty. */
  lemma DeleteRoot<V>(a: map<int, V>, b: map<int, V>, k: int, v: V)
    requires k !in a && k !in b
    requires a == map[] || b == map[]
    ensures (a + b)[k := v] - {k} == (if a == map[] then b else a)
  {
  }

  /** Replacing the entry of `k` by the entry of `s`, taken out of the right child. */
  lemma PromoteSuccessor<V>(a: map<int, V>, b: map<int, V>, k: int, v: V, s: int)
    requires s in b && s !in a && k !in a && k !in b
    ensures (a + (b - {s}))[s := b[s]] == (a + b)[k := v] - {k}
  {
  }

  /** The successor promoted by a two-child removal sits above every key on its
      left and below every key left on its right. */
  lemma PromoteSuccessorOrdered<V>(l: Tree<V>, rt: Tree<V>, k: int, v: V, s: int)
    requires Ordered(Node(k, v, l, rt)) && rt.Node? && s == Minimum(rt).key
    ensures Ordered(Node(s, Minimum(rt).value, l, RemoveMinAt(rt, 0).0))
  {
    var rt' := RemoveMinAt(rt, 0).0;
    assert Keys(rt') == Keys(rt) - {s} by {
      assert Content(rt') == Content(rt) - {s};
    }
    assert forall x :: x in Keys(l) ==> x < s by {
      assert s in Keys(rt);
    }
    assert forall x :: x in Keys(rt') ==> s < x;
  }

  /** In a search tree, the node count equals the number of distinct keys. */
  lemma {:induction false} CountIsKeyCount<V>(t: Tree<V>)
    requires Ordered(t)
    ensures Count(t) == |Keys(t)|
  {
    match t
    case Nil =>
    case Node(k, _, l, r) =>
      CountIsKeyCount(l);
      CountIsKeyCount(r);
      assert Keys(l) !! Keys(r) by {
        forall x | x in Keys(l) ensures x !in Keys(r) {
          assert x < k;
        }
      }
      var lr := Keys(l) + Keys(r);
      assert |lr| == |Keys(l)| + |Keys(r)|;
      assert k !in lr;
      assert Keys(t) == lr + {k};
  }

  /** Overwriting a present key keeps every link and every key where it was. */
  lemma {:induction false} AddPresentKeepsShape<V>(node: Tree<V>, key: int, value: V, size: int)
    requires Ordered(node) && key in Keys(node)
    ensures SameShape(node, AddAt(node, key, value, size).0)
  {
    match node
    case Node(k, v, l, rt) =>
      if key < k {
        assert key in Keys(l);
        AddPresentKeepsShape(l, key, value, size);
        SameShapeRefl(rt);
        assert AddAt(node, key, value, size).0 == Node(k, v, AddAt(l, key, value, size).0, rt);
      } else if key > k {
        assert key in Keys(rt);
        AddPresentKeepsShape(rt, key, value, size);
        SameShapeRefl(l);
        assert AddAt(node, key, value, size).0 == Node(k, v, l, AddAt(rt, key, value, size).0);
      } else {
        SameShapeRefl(l);
        SameShapeRefl(rt);
      }
  }

  /** Every subtree has its own shape. */
  lemma {:induction false} SameShapeRefl<V>(t: Tree<V>)
    ensures SameShape(t, t)
  {
    match t
    case Nil =>
    case Node(_, _, l, r) =>
      SameShapeRefl(l);
      SameShapeRefl(r);
  }

  /** On a present key, `set` rebuilds the tree that `add` would. */
  lemma {:induction false} SetIsAddOfPresentKey<V>(node: Tree<V>, key: int, value: V, size: int)
    requires Ordered(node) && key in Keys(node)
    ensures SetAt(node, key, value) == AddAt(node, key, value, size).0
    ensures AddAt(node, key, value, size).1 == size
  {
    match node
    case Node(k, _, l, rt) =>
      if key < k {
        SetIsAddOfPresentKey(l, key, value, size);
      } else if key > k {
        SetIsAddOfPresentKey(rt, key, value, size);
      }
  }

  /** Removing a node with two children puts its in-order successor in its place:
      the smallest key of the whole subtree above the removed one, taken from the
      right subtree; the left subtree is kept and the right one loses that key. */
  lemma RemoveTwoChildrenPromotesSuccessor<V>(node: Tree<V>, size: int)
    requires Ordered(node) && node.Node? && node.left.Node? && node.right.Node?
    ensures var r := RemoveAt(node, node.key, size).0;
      && r.Node?
      && r.left == node.left
      && r.key in Keys(node.right)
      && node.key < r.key
      && (forall x :: x in Keys(node) && node.key < x ==> r.key <= x)
      && r.value == Content(node)[r.key]
      && Keys(r.right) == Keys(node.right) - {r.key}
  {
  }

  /** A two-child removal on the tree with root 13, left leaf 1, and right child
      26 whose only child is the left leaf 24: the successor 24 becomes the new
      root, the left leaf 1 stays, and 26 is left without a left child. */
  lemma SuccessorRemovalExample(v: int)
    ensures var t := Node(13, v, Node(1, v, Nil, Nil), Node(26, v, Node(24, v, Nil, Nil), Nil));
      var m := BstMap(t, 4);
      && m.Valid()
      && Remove(m, 13) == (BstMap(Node(24, v, Node(1, v, Nil, Nil), Node(26, v, Nil, Nil)), 3), Some(v))
  {
    var t := Node(13, v, Node(1, v, Nil, Nil), Node(26, v, Node(24, v, Nil, Nil), Nil));
    var empty: Tree<int> := Nil;
    assert Keys(empty) == {};
    assert Keys(t.left) == {} + {1} + {};
    assert Keys(t.right.left) == {} + {24} + {};
    assert Keys(t.right) == {24} + {26} + {};
    assert Ordered(t.left) && Ordered(t.right.left);
    assert Ordered(t.right);
    assert forall x :: x in Keys(t.left) ==> x < 13;
    assert forall x :: x in Keys(t.right) ==> 13 < x;
    assert Ordered(t);
    assert RemoveMinAt(t.right, 4) == (Node(26, v, Nil, Nil), 3);
  }
}
