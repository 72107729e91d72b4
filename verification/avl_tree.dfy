/** The height-caching tree map (class `AVLTree`).

    Each node caches a `height`. `add` recomputes it along the insertion path
    and inspects the balance factor, but the only reaction to an imbalance is a
    console message: nothing is ever rotated. `remove`, `removeMin` and
    `removeMax` never assign `height`. So this is the plain search tree of
    module `BST` with an extra field, and it is stated that way: erasing the
    cached heights (`Erase`) turns every map operation here into its `BST`
    twin. */
module AVLTree {
  import opened Wrappers
  import BST

  /** A subtree: `Nil` is a null link; a `Node` carries its cached `height`. */
  datatype Tree<V> = Nil | Node(key: int, value: V, left: Tree<V>, right: Tree<V>, height: int)

  /** The map object: the root link and the `size` counter. */
  datatype AvlMap<V> = AvlMap(root: Tree<V>, size: int) {
    /** The class invariant: a search tree whose counter is its node count.
        Exact heights are NOT part of it, since `remove` does not keep them. */
    ghost predicate Valid() {
      BST.Ordered(Erase(root)) && size == BST.Count(Erase(root))
    }
  }

  // ---------------------------------------------------------------------------
  // Abstraction functions

  /** The key/value shape of a subtree: the same nodes with the heights dropped. */
  ghost function Erase<V>(t: Tree<V>): BST.Tree<V> {
    match t
    case Nil => BST.Nil
    case Node(k, v, l, r, _) => BST.Node(k, v, Erase(l), Erase(r))
  }

  /** The abstract map of a subtree. */
  ghost function Content<V>(t: Tree<V>): map<int, V> {
    BST.Content(Erase(t))
  }

  /** The same object seen as a plain search-tree map. */
  ghost function ToBst<V>(m: AvlMap<V>): BST.BstMap<V> {
    BST.BstMap(Erase(m.root), m.size)
  }

  /** `Math.max`. */
  function Max(a: int, b: int): int {
    if a >= b then a else b
  }

  /** `Math.abs` (heights are far from the `int` range, so no overflow case). */
  function Abs(x: int): int {
    if x < 0 then -x else x
  }

  /** The real height of a subtree, computed from its links alone. */
  ghost function TrueHeight<V>(t: Tree<V>): nat {
    match t
    case Nil => 0
    case Node(_, _, l, r, _) => 1 + Max(TrueHeight(l), TrueHeight(r))
  }

  /** Every cached height in the subtree is the real height of its node. */
  ghost predicate HeightsExact<V>(t: Tree<V>) {
    match t
    case Nil => true
    case Node(_, _, l, r, h) => HeightsExact(l) && HeightsExact(r) && h == TrueHeight(t)
  }

  /** Every node on the search path for `key` holds `1 + max` of its children's cached heights. */
  ghost predicate PathExact<V>(t: Tree<V>, key: int) {
    match t
    case Nil => true
    case Node(k, _, l, r, h) =>
      && h == 1 + Max(GetHeight(l), GetHeight(r))
      && (key < k ==> PathExact(l, key))
      && (k < key ==> PathExact(r, key))
  }

  /** Every subtree hanging off the search path for `key` is carried over
      unchanged, cached heights included: only path nodes are rebuilt. */
  ghost predicate OffPathKept<V>(before: Tree<V>, after: Tree<V>, key: int) {
    match before
    case Nil => true
    case Node(k, _, l, r, _) =>
      && after.Node?
      && (key < k ==> after.right == r && OffPathKept(l, after.left, key))
      && (k < key ==> after.left == l && OffPathKept(r, after.right, key))
      && (key == k ==> after.left == l && after.right == r)
  }

  /** The nodes of a subtree, each as the subtree it roots. */
  ghost function Subtrees<V>(t: Tree<V>): set<Tree<V>> {
    match t
    case Nil => {}
    case Node(_, _, l, r, _) => {t} + Subtrees(l) + Subtrees(r)
  }

  /** The (key, cached height) pair of every node. */
  ghost function HeightTags<V>(t: Tree<V>): set<(int, int)> {
    match t
    case Nil => {}
    case Node(k, _, l, r, h) => {(k, h)} + HeightTags(l) + HeightTags(r)
  }

  /** Each element is at most every later one. */
  ghost predicate NonDecreasing(s: seq<int>) {
    forall i, j :: 0 <= i < j < |s| ==> s[i] <= s[j]
  }

  /** Each element is below every later one. */
  ghost predicate Increasing(s: seq<int>) {
    forall i, j :: 0 <= i < j < |s| ==> s[i] < s[j]
  }

  // ---------------------------------------------------------------------------
  // Heights and diagnostics

  /** `getHeight`: the cached height, 0 for a null link. */
  function GetHeight<V>(t: Tree<V>): (h: int)
    ensures HeightsExact(t) ==> h == TrueHeight(t)
  {
    if t.Nil? then 0 else t.height
  }

  /** `getBalanceFactor`: left minus right cached height, 0 for a null link. */
  function GetBalanceFactor<V>(t: Tree<V>): (b: int)
    ensures t.Nil? ==> b == 0
    ensures HeightsExact(t) && t.Node? ==> b == TrueHeight(t.left) - TrueHeight(t.right)
  {
    if t.Nil? then 0 else GetHeight(t.left) - GetHeight(t.right)
  }

  /** `isBalanced(Node)`: no node has a cached balance factor beyond ±1. */
  function IsBalancedAt<V>(t: Tree<V>): (b: bool)
    ensures b <==> forall s :: s in Subtrees(t) ==> -1 <= GetBalanceFactor(s) <= 1
  {
    if t.Nil? then true
    else if Abs(GetBalanceFactor(t)) > 1 then false
    else IsBalancedAt(t.left) && IsBalancedAt(t.right)
  }

  /** `isBalanced()`. */
  function IsBalanced<V>(m: AvlMap<V>): (b: bool)
    ensures b <==> forall s :: s in Subtrees(m.root) ==> -1 <= GetBalanceFactor(s) <= 1
  {
    IsBalancedAt(m.root)
  }

  /** `inOrder`: the keys of a subtree, left subtree first. */
  function InOrder<V>(t: Tree<V>): (keys: seq<int>)
    ensures |keys| == BST.Count(Erase(t))
    ensures forall x :: x in keys <==> x in BST.Keys(Erase(t))
  {
    if t.Nil? then [] else InOrder(t.left) + [t.key] + InOrder(t.right)
  }

  /** `isBST()`: scans the in-order keys for a pair that descends. */
  method IsBST<V>(m: AvlMap<V>) returns (b: bool)
    ensures b <==> NonDecreasing(InOrder(m.root))
    ensures m.Valid() ==> b
  {
    var keys := InOrder(m.root);
    var i := 1;
    while i < |keys|
      invariant 1 <= i <= |keys| + 1
      invariant forall a, c :: 0 <= a < c < i && c < |keys| ==> keys[a] <= keys[c]
    {
      if keys[i - 1] > keys[i] {
        if m.Valid() {
          OrderedIffInOrderIncreasing(m.root);
        }
        return false;
      }
      i := i + 1;
    }
    return true;
  }

  // ---------------------------------------------------------------------------
  // Recursive helpers

  /** A node whose height is recomputed from its children, as `add` does on its way back up. */
  function Refresh<V>(k: int, v: V, l: Tree<V>, r: Tree<V>): (t: Tree<V>)
    ensures HeightsExact(l) && HeightsExact(r) ==> HeightsExact(t)
  {
    Node(k, v, l, r, 1 + Max(GetHeight(l), GetHeight(r)))
  }

  /** `add(Node, K, V)`: the plain insertion, then the height of every node on the
      way back up is recomputed; an imbalance is only reported, never repaired. */
  function AddAt<V>(node: Tree<V>, key: int, value: V, size: int): (r: (Tree<V>, int))
    ensures Erase(r.0) == BST.AddAt(Erase(node), key, value, size).0
    ensures r.1 == BST.AddAt(Erase(node), key, value, size).1
    ensures r.0.Node? && PathExact(r.0, key)
    ensures OffPathKept(node, r.0, key)
    ensures HeightsExact(node) ==> HeightsExact(r.0)
  {
    match node
    case Nil => (Node(key, value, Nil, Nil, 1), size + 1)
    case Node(k, v, l, rt, _) =>
      if key < k then
        var (l', size') := AddAt(l, key, value, size);
        (Refresh(k, v, l', rt), size')
      else if key > k then
        var (rt', size') := AddAt(rt, key, value, size);
        (Refresh(k, v, l, rt'), size')
      else
        (Refresh(k, value, l, rt), size)
  }

  /** `getNode`. */
  function GetNode<V>(node: Tree<V>, key: int): (r: Tree<V>)
    ensures Erase(r) == BST.GetNode(Erase(node), key)
  {
    match node
    case Nil => Nil
    case Node(k, _, l, rt, _) =>
      if key == k then node
      else if key < k then GetNode(l, key)
      else GetNode(rt, key)
  }

  /** The in-place value write of `set`, along the search path of `getNode`. */
  function SetAt<V>(node: Tree<V>, key: int, newValue: V): (r: Tree<V>)
    ensures Erase(r) == BST.SetAt(Erase(node), key, newValue)
    ensures HeightTags(r) == HeightTags(node) && TrueHeight(r) == TrueHeight(node)
    ensures HeightsExact(node) ==> HeightsExact(r)
  {
    match node
    case Nil => Nil
    case Node(k, v, l, rt, h) =>
      if key == k then Node(k, newValue, l, rt, h)
      else if key < k then Node(k, v, SetAt(l, key, newValue), rt, h)
      else Node(k, v, l, SetAt(rt, key, newValue), h)
  }

  /** `minimum`. */
  function Minimum<V>(node: Tree<V>): (r: Tree<V>)
    requires node.Node?
    ensures Erase(r) == BST.Minimum(Erase(node))
    ensures r.Node? && (r.key, r.height) in HeightTags(node)
  {
    if node.left.Nil? then node else Minimum(node.left)
  }

  /** `removeMin`: no height is assigned. */
  function RemoveMinAt<V>(node: Tree<V>, size: int): (r: (Tree<V>, int))
    requires node.Node?
    ensures Erase(r.0) == BST.RemoveMinAt(Erase(node), size).0
    ensures r.1 == BST.RemoveMinAt(Erase(node), size).1
    ensures HeightTags(r.0) <= HeightTags(node)
  {
    if node.left.Nil? then
      (node.right, size - 1)
    else
      var (l', size') := RemoveMinAt(node.left, size);
      (Node(node.key, node.value, l', node.right, node.height), size')
  }

  /** `removeMax`: no height is assigned. */
  function RemoveMaxAt<V>(node: Tree<V>, size: int): (r: (Tree<V>, int))
    requires node.Node?
    ensures Erase(r.0) == BST.RemoveMaxAt(Erase(node), size).0
    ensures r.1 == BST.RemoveMaxAt(Erase(node), size).1
    ensures HeightTags(r.0) <= HeightTags(node)
  {
    if node.right.Nil? then
      (node.left, size - 1)
    else
      var (rt', size') := RemoveMaxAt(node.right, size);
      (Node(node.key, node.value, node.left, rt', node.height), size')
  }

  /** `remove(Node, K)`: the plain Hibbard deletion; the successor that replaces a
      two-child node keeps the height it had cached lower down. */
  function RemoveAt<V>(node: Tree<V>, key: int, size: int): (r: (Tree<V>, int))
    ensures Erase(r.0) == BST.RemoveAt(Erase(node), key, size).0
    ensures r.1 == BST.RemoveAt(Erase(node), key, size).1
    ensures HeightTags(r.0) <= HeightTags(node)
  {
    match node
    case Nil => (Nil, size)
    case Node(k, v, l, rt, h) =>
      if key < k then
        var (l', size') := RemoveAt(l, key, size);
        (Node(k, v, l', rt, h), size')
      else if key > k then
        var (rt', size') := RemoveAt(rt, key, size);
        (Node(k, v, l, rt', h), size')
      else if l.Nil? then
        (rt, size - 1)
      else if rt.Nil? then
        (l, size - 1)
      else
        var successor := Minimum(rt);
        var (rt', size') := RemoveMinAt(rt, size);
        (Node(successor.key, successor.value, l, rt', successor.height), size')
  }

  // ---------------------------------------------------------------------------
  // The public operations

  /** The constructor: no root, size 0. */
  function Empty<V>(): (m: AvlMap<V>)
    ensures m.Valid() && HeightsExact(m.root) && Content(m.root) == map[]
  {
    AvlMap(Nil, 0)
  }

  /** `add`: the key/value shape is exactly that of the plain tree's `add`. */
  function Add<V>(m: AvlMap<V>, key: int, value: V): (m': AvlMap<V>)
    requires m.Valid()
    ensures ToBst(m') == BST.Add(ToBst(m), key, value)
    ensures m'.Valid()
    ensures Content(m'.root) == Content(m.root)[key := value]
    ensures m'.size == if key in Content(m.root) then m.size else m.size + 1
    ensures PathExact(m'.root, key) && OffPathKept(m.root, m'.root, key)
    ensures HeightsExact(m.root) ==> HeightsExact(m'.root)
  {
    var (root', size') := AddAt(m.root, key, value, m.size);
    AvlMap(root', size')
  }

  /** `get`. */
  function Get<V>(m: AvlMap<V>, key: int): (r: Option<V>)
    requires m.Valid()
    ensures r == BST.Get(ToBst(m), key)
    ensures r == if key in Content(m.root) then Some(Content(m.root)[key]) else None
  {
    var node := GetNode(m.root, key);
    if node.Nil? then None else Some(node.value)
  }

  /** `contains`. */
  function Contains<V>(m: AvlMap<V>, key: int): (b: bool)
    requires m.Valid()
    ensures b == BST.Contains(ToBst(m), key)
    ensures b <==> key in Content(m.root)
    ensures b <==> Get(m, key).Some?
  {
    GetNode(m.root, key).Node?
  }

  /** `set`: an absent key throws; otherwise only that key's value changes. */
  function Set<V>(m: AvlMap<V>, key: int, newValue: V): (r: Result<AvlMap<V>, BST.SetError>)
    requires m.Valid()
    ensures r.Failure? <==> BST.Set(ToBst(m), key, newValue).Failure?
    ensures r.Success? ==> ToBst(r.value) == BST.Set(ToBst(m), key, newValue).value
    ensures r.Failure? <==> key !in Content(m.root)
    ensures r.Failure? ==> r.error == BST.IllegalArgument(key)
    ensures r.Success? ==> r.value.Valid() && r.value.size == m.size
    ensures r.Success? ==> Content(r.value.root) == Content(m.root)[key := newValue]
    ensures r.Success? ==> HeightTags(r.value.root) == HeightTags(m.root)
    ensures r.Success? && HeightsExact(m.root) ==> HeightsExact(r.value.root)
  {
    var node := GetNode(m.root, key);
    if node.Nil? then
      Failure(BST.IllegalArgument(key))
    else
      Success(AvlMap(SetAt(m.root, key, newValue), m.size))
  }

  /** `remove`: the plain tree's removal; no cached height is assigned. */
  function Remove<V>(m: AvlMap<V>, key: int): (r: (AvlMap<V>, Option<V>))
    requires m.Valid()
    ensures (ToBst(r.0), r.1) == BST.Remove(ToBst(m), key)
    ensures r.0.Valid()
    ensures r.1 == if key in Content(m.root) then Some(Content(m.root)[key]) else None
    ensures Content(r.0.root) == Content(m.root) - {key}
    ensures key !in Content(m.root) ==> r.0 == m
    ensures key in Content(m.root) ==> r.0.size == m.size - 1
    ensures HeightTags(r.0.root) <= HeightTags(m.root)
  {
    var node := GetNode(m.root, key);
    if node.Node? then
      var (root', size') := RemoveAt(m.root, key, m.size);
      (AvlMap(root', size'), Some(node.value))
    else
      (m, None)
  }

  /** `getSize`: the number of keys. */
  function GetSize<V>(m: AvlMap<V>): (n: int)
    requires m.Valid()
    ensures n == BST.GetSize(ToBst(m))
    ensures n == |Content(m.root)|
  {
    BST.CountIsKeyCount(Erase(m.root));
    m.size
  }

  /** `isEmpty`. */
  function IsEmpty<V>(m: AvlMap<V>): (b: bool)
    requires m.Valid()
    ensures b == BST.IsEmpty(ToBst(m))
    ensures b <==> Content(m.root) == map[]
    ensures b <==> m.root.Nil?
  {
    m.size == 0
  }

  // ---------------------------------------------------------------------------
  // Lemmas

  /** A subtree satisfies the search-tree invariant exactly when its in-order
      keys strictly increase; so `isBST` holds of every valid tree. */
  lemma {:induction false} OrderedIffInOrderIncreasing<V>(t: Tree<V>)
    ensures BST.Ordered(Erase(t)) <==> Increasing(InOrder(t))
  {
    match t
    case Nil =>
    case Node(k, _, l, r, _) =>
      OrderedIffInOrderIncreasing(l);
      OrderedIffInOrderIncreasing(r);
      IncreasingAround(InOrder(l), k, InOrder(r));
  }

  /** A sequence `a + [k] + b` strictly increases exactly when both sides do,
      everything in `a` is below `k` and everything in `b` above it. */
  lemma IncreasingAround(a: seq<int>, k: int, b: seq<int>)
    ensures Increasing(a + [k] + b) <==>
      && Increasing(a) && Increasing(b)
      && (forall x :: x in a ==> x < k)
      && (forall x :: x in b ==> k < x)
  {
    var s := a + [k] + b;
    if Increasing(s) {
      IncreasingSplits(a, k, b);
    }
    if && Increasing(a) && Increasing(b)
       && (forall x :: x in a ==> x < k)
       && (forall x :: x in b ==> k < x)
    {
      IncreasingJoins(a, k, b);
    }
  }

  /** A strictly increasing `a + [k] + b` has increasing parts, with `k`
      above everything in `a` and below everything in `b`. */
  lemma IncreasingSplits(a: seq<int>, k: int, b: seq<int>)
    requires Increasing(a + [k] + b)
    ensures Increasing(a) && Increasing(b)
    ensures forall x :: x in a ==> x < k
    ensures forall x :: x in b ==> k < x
  {
    var s := a + [k] + b;
    forall i, j | 0 <= i < j < |a| ensures a[i] < a[j] {
      assert s[i] == a[i] && s[j] == a[j];
    }
    forall i, j | 0 <= i < j < |b| ensures b[i] < b[j] {
      assert s[|a| + 1 + i] == b[i] && s[|a| + 1 + j] == b[j];
    }
    forall x | x in a ensures x < k {
      var i :| 0 <= i < |a| && a[i] == x;
      assert s[i] == x && s[|a|] == k;
    }
    forall x | x in b ensures k < x {
      var i :| 0 <= i < |b| && b[i] == x;
      assert s[|a| + 1 + i] == x && s[|a|] == k;
    }
  }

  /** The converse of `IncreasingSplits`: increasing parts around a separating
      `k` join into an increasing sequence. */
  lemma IncreasingJoins(a: seq<int>, k: int, b: seq<int>)
    requires Increasing(a) && Increasing(b)
    requires forall x :: x in a ==> x < k
    requires forall x :: x in b ==> k < x
    ensures Increasing(a + [k] + b)
  {
    var s := a + [k] + b;
    forall i, j | 0 <= i < j < |s| ensures s[i] < s[j] {
      if j < |a| {
        assert s[i] == a[i] && s[j] == a[j];
      } else if i < |a| {
        assert s[i] == a[i] && a[i] in a;
        if j > |a| {
          assert s[j] == b[j - |a| - 1] && b[j - |a| - 1] in b;
        }
      } else if i == |a| {
        assert s[j] == b[j - |a| - 1] && b[j - |a| - 1] in b;
      } else {
        assert s[i] == b[i - |a| - 1] && s[j] == b[j - |a| - 1];
      }
    }
  }

  /** `add` keeps no balance: three ascending insertions into an empty tree leave
      a right-leaning chain whose root has balance factor -2, with every cached
      height exact. */
  lemma AddMayLeaveUnbalanced<V>(v: V)
    ensures var m := Add(Add(Add(Empty(), 1, v), 2, v), 3, v);
      m.Valid() && HeightsExact(m.root) && !IsBalanced(m)
  {
    var m1 := Add(Empty(), 1, v);
    assert m1.root == Node(1, v, Nil, Nil, 1);
    var leaf2 := Node(2, v, Nil, Nil, 1);
    assert AddAt(m1.root, 2, v, 1) == (Refresh(1, v, Nil, leaf2), 2);
    var m2 := Add(m1, 2, v);
    assert m2.root == Node(1, v, Nil, leaf2, 2);
    var chain23 := Node(2, v, Nil, Node(3, v, Nil, Nil, 1), 2);
    assert AddAt(leaf2, 3, v, 2) == (chain23, 3);
    assert AddAt(m2.root, 3, v, 2) == (Refresh(1, v, Nil, chain23), 3);
    var m3 := Add(m2, 3, v);
    assert m3.root == Node(1, v, Nil, Node(2, v, Nil, Node(3, v, Nil, Nil, 1), 2), 3);
    assert GetBalanceFactor(m3.root) == -3 + 1;
  }

  /** `remove` keeps no heights: removing the lower node of a two-node chain
      leaves the root caching height 2 with no child below it. */
  lemma RemoveMayLeaveStaleHeights<V>(v: V)
    ensures var m := Add(Add(Empty(), 1, v), 2, v);
      && m.Valid() && HeightsExact(m.root)
      && Remove(m, 2).0.root == Node(1, v, Nil, Nil, 2)
      && !HeightsExact(Remove(m, 2).0.root)
  {
    var m1 := Add(Empty(), 1, v);
    assert m1.root == Node(1, v, Nil, Nil, 1);
    var leaf2 := Node(2, v, Nil, Nil, 1);
    assert AddAt(m1.root, 2, v, 1) == (Refresh(1, v, Nil, leaf2), 2);
    var m2 := Add(m1, 2, v);
    assert m2.root == Node(1, v, Nil, leaf2, 2);
    assert Remove(m2, 2).0.root == Node(1, v, Nil, Nil, 2);
  }
}
