/** A generic binary search tree: the node and tree contract shared by every balancing
    strategy, with insertion and deletion supplied here by a plain (unbalanced) strategy.

    A node is a value of `Node`.  A node of a tree is designated by its position, the
    `Path` of child steps that leads to it from the tree's root; the parent back-reference
    of a node is its position without the last step (see `Parent`). */
module BaseTree {

  datatype Option<T> = None | Some(value: T)

  // The three results of a key comparison.
  const KeysAreEqual: int := 0
  const FirstKeyBigger: int := 1
  const FirstKeySmaller: int := -1

  /** The default key comparator on integers. */
  function CompareIntegers(a: int, b: int): (r: int)
    ensures r == KeysAreEqual || r == FirstKeyBigger || r == FirstKeySmaller
    ensures r == KeysAreEqual <==> a == b
    ensures r == FirstKeyBigger <==> a > b
    ensures r == FirstKeySmaller <==> a < b
  {
    if a == b then KeysAreEqual
    else if a > b then FirstKeyBigger
    else FirstKeySmaller
  }

  /** Swapping the arguments swaps "bigger" and "smaller" and keeps "equal". */
  lemma CompareIntegersAntisymmetric(a: int, b: int)
    ensures CompareIntegers(a, b) == FirstKeyBigger <==> CompareIntegers(b, a) == FirstKeySmaller
    ensures CompareIntegers(a, b) == KeysAreEqual <==> CompareIntegers(b, a) == KeysAreEqual
  {
  }

  function Max(a: int, b: int): int
  {
    if a < b then b else a
  }

  // ---------------------------------------------------------------------------
  // Nodes and positions

  datatype Dir = Left | Right
  type Path = seq<Dir>

  /** A node: key, payload, height and the two owned children; `NoNode` is an absent node. */
  datatype Node<V> = NoNode | Node(key: int, data: V, height: int, left: Node<V>, right: Node<V>)

  function Child<V>(n: Node<V>, d: Dir): Node<V>
    requires n.Node?
  {
    if d == Left then n.left else n.right
  }

  /** The node at position p below n, or NoNode when p leaves the tree. */
  function At<V>(n: Node<V>, p: Path): Node<V>
    decreases |p|
  {
    if p == [] then n
    else if n.NoNode? then NoNode
    else At(Child(n, p[0]), p[1..])
  }

  /** The parent of the node at position p: the position one step up, if any. */
  function Parent(p: Path): (r: Option<Path>)
    ensures r.None? <==> p == []
    ensures r.Some? ==> r.value + [p[|p| - 1]] == p
  {
    if p == [] then None else Some(p[..|p| - 1])
  }

  lemma {:induction false} AtAppend<V>(n: Node<V>, p: Path, q: Path)
    ensures At(n, p + q) == At(At(n, p), q)
    decreases |p|
  {
    if p == [] {
      assert p + q == q;
    } else if n.NoNode? {
      assert At(n, p) == NoNode;
      if q != [] {
        assert At(n, q) == NoNode;
      }
    } else {
      assert (p + q)[0] == p[0] && (p + q)[1..] == p[1..] + q;
      AtAppend(Child(n, p[0]), p[1..], q);
    }
  }

  /** One more step down: a position below an absent node is absent too. */
  lemma AtSnoc<V>(n: Node<V>, p: Path, d: Dir)
    requires At(n, p).Node? || At(n, p + [d]).Node?
    ensures At(n, p).Node? && At(n, p + [d]) == Child(At(n, p), d)
  {
    AtAppend(n, p, [d]);
  }

  // ---------------------------------------------------------------------------
  // What a tree holds, and its invariants

  function Keys<V>(n: Node<V>): set<int>
  {
    match n
    case NoNode => {}
    case Node(k, _, _, l, r) => Keys(l) + {k} + Keys(r)
  }

  /** The map from keys to payloads that the subtree n stands for. */
  function Content<V>(n: Node<V>): map<int, V>
  {
    match n
    case NoNode => map[]
    case Node(k, d, _, l, r) => (Content(l) + Content(r))[k := d]
  }

  /** The binary-search-tree ordering: smaller keys to the left, larger keys to the right. */
  ghost predicate Ordered<V>(n: Node<V>)
  {
    match n
    case NoNode => true
    case Node(k, _, _, l, r) =>
      && Ordered(l) && Ordered(r)
      && (forall y :: y in Keys(l) ==> y < k)
      && (forall y :: y in Keys(r) ==> k < y)
  }

  /** The height of a possibly absent node; an absent node counts as -1. */
  function HeightOf<V>(n: Node<V>): (h: int)
    ensures n.NoNode? ==> h == -1
    ensures n.Node? ==> h == n.height
  {
    if n.NoNode? then -1 else n.height
  }

  /** Every stored height is one more than the larger of its children's heights. */
  ghost predicate HeightsOk<V>(n: Node<V>)
  {
    match n
    case NoNode => true
    case Node(_, _, h, l, r) => HeightsOk(l) && HeightsOk(r) && h == Max(HeightOf(l), HeightOf(r)) + 1
  }

  /** The number of edges on the longest downward path, -1 for an absent node. */
  function Depth<V>(n: Node<V>): int
  {
    match n
    case NoNode => -1
    case Node(_, _, _, l, r) => 1 + Max(Depth(l), Depth(r))
  }

  lemma {:induction false} ContentKeys<V>(n: Node<V>)
    ensures Content(n).Keys == Keys(n)
  {
    match n
    case NoNode =>
    case Node(_, _, _, l, r) =>
      ContentKeys(l);
      ContentKeys(r);
  }

  lemma {:induction false} KeysAt<V>(n: Node<V>, p: Path)
    requires At(n, p).Node?
    ensures Keys(At(n, p)) <= Keys(n)
    ensures At(n, p).key in Keys(n)
    decreases |p|
  {
    if p != [] {
      KeysAt(Child(n, p[0]), p[1..]);
    }
  }

  lemma {:induction false} OrderedAt<V>(n: Node<V>, p: Path)
    requires Ordered(n)
    ensures Ordered(At(n, p))
    decreases |p|
  {
    if p != [] && n.Node? {
      OrderedAt(Child(n, p[0]), p[1..]);
    }
  }

  /** In an ordered tree, the payload of the node found at a position is the payload the
      tree maps that node's key to. */
  lemma {:induction false} ContentAt<V>(n: Node<V>, p: Path)
    requires Ordered(n) && At(n, p).Node?
    ensures At(n, p).key in Content(n) && Content(n)[At(n, p).key] == At(n, p).data
    decreases |p|
  {
    if p != [] {
      var c := Child(n, p[0]);
      ContentAt(c, p[1..]);
      KeysAt(c, p[1..]);
      ContentKeys(n.left);
      ContentKeys(n.right);
    }
  }

  /** The keys outside the subtree at q all lie on one side of that whole subtree. */
  lemma {:induction false} OutsideSubtree<V>(t: Node<V>, q: Path, y: int)
    requires Ordered(t) && At(t, q).Node?
    requires y in Keys(t) && y !in Keys(At(t, q))
    ensures (forall z :: z in Keys(At(t, q)) ==> y < z) || (forall z :: z in Keys(At(t, q)) ==> z < y)
    decreases |q|
  {
    if q != [] {
      var c := Child(t, q[0]);
      KeysAt(c, q[1..]);
      if y in Keys(c) {
        OutsideSubtree(c, q[1..], y);
      }
    }
  }

  /** The stored heights are the structural heights wherever the height equation holds. */
  lemma {:induction false} HeightIsDepth<V>(n: Node<V>)
    requires HeightsOk(n)
    ensures HeightOf(n) == Depth(n)
  {
    match n
    case NoNode =>
    case Node(_, _, _, l, r) =>
      HeightIsDepth(l);
      HeightIsDepth(r);
  }

  // ---------------------------------------------------------------------------
  // Node operations

  /** A freshly constructed node: height 0 and no children. */
  function NewNode<V>(key: int, data: V): (n: Node<V>)
    ensures n.Node? && n.key == key && n.data == data
    ensures n.height == 0 && n.left.NoNode? && n.right.NoNode?
    ensures Ordered(n) && HeightsOk(n) && Content(n) == map[key := data]
  {
    Node(key, data, 0, NoNode, NoNode)
  }

  /** The node after its height is recomputed from its children's heights. */
  function UpdateHeight<V>(n: Node<V>): (r: Node<V>)
    requires n.Node?
    ensures r.Node? && r.key == n.key && r.data == n.data && r.left == n.left && r.right == n.right
    ensures Keys(r) == Keys(n) && Content(r) == Content(n) && (Ordered(r) <==> Ordered(n))
    ensures HeightsOk(n.left) && HeightsOk(n.right) ==> HeightsOk(r)
    ensures n.left.NoNode? && n.right.NoNode? ==> r.height == 0
    ensures HeightsOk(n.left) && HeightsOk(n.right) ==> r.height >= 0
  {
    HeightAtLeastMinusOne(n.left);
    HeightAtLeastMinusOne(n.right);
    n.(height := Max(HeightOf(n.left), HeightOf(n.right)) + 1)
  }

  lemma {:induction false} DepthAtLeastMinusOne<V>(n: Node<V>)
    ensures Depth(n) >= -1
  {
    match n
    case NoNode =>
    case Node(_, _, _, l, r) =>
      DepthAtLeastMinusOne(l);
  }

  lemma HeightAtLeastMinusOne<V>(n: Node<V>)
    ensures HeightsOk(n) ==> HeightOf(n) >= -1
  {
    if HeightsOk(n) {
      HeightIsDepth(n);
      DepthAtLeastMinusOne(n);
    }
  }

  /** p is the path a key search for `key` takes from n: left exactly when the key is
      smaller than the node's, right when it is bigger. */
  ghost predicate SearchPath<V>(n: Node<V>, p: Path, key: int)
    decreases |p|
  {
    p == [] ||
    (n.Node? && key != n.key && (p[0] == Left <==> key < n.key) && SearchPath(Child(n, p[0]), p[1..], key))
  }

  /** Recursive key descent from the node n. */
  function DescendantNode<V>(n: Node<V>, key: int): (r: Option<Path>)
    requires n.Node?
    ensures r.Some? ==> At(n, r.value).Node? && At(n, r.value).key == key
    ensures r.Some? ==> SearchPath(n, r.value, key)
    ensures Ordered(n) ==> (r.None? <==> key !in Keys(n))
    decreases n
  {
    if CompareIntegers(key, n.key) == KeysAreEqual then Some([])
    else if CompareIntegers(key, n.key) == FirstKeySmaller then
      if n.left.NoNode? then None
      else
        match DescendantNode(n.left, key)
        case None => None
        case Some(p) =>
          assert ([Left] + p)[0] == Left && ([Left] + p)[1..] == p;
          Some([Left] + p)
    else
      if n.right.NoNode? then None
      else
        match DescendantNode(n.right, key)
        case None => None
        case Some(p) =>
          assert ([Right] + p)[0] == Right && ([Right] + p)[1..] == p;
          Some([Right] + p)
  }

  /** Follows left children from n as far as they go. */
  method MinDescendant<V>(n: Node<V>) returns (p: Path)
    requires n.Node?
    ensures At(n, p).Node? && At(n, p).left.NoNode?
    ensures forall j :: 0 <= j < |p| ==> p[j] == Left
    ensures n.left.NoNode? ==> p == []
    ensures At(n, p).key in Keys(n)
    ensures Ordered(n) ==> forall y :: y in Keys(n) ==> At(n, p).key <= y
  {
    var current := n;
    var next := current.left;
    p := [];
    while next.Node?
      invariant current.Node? && At(n, p) == current && next == current.left
      invariant forall j :: 0 <= j < |p| ==> p[j] == Left
      invariant Keys(current) <= Keys(n)
      invariant Ordered(n) ==> Ordered(current) && forall y :: y in Keys(n) && y !in Keys(current) ==> current.key < y
      decreases current
    {
      AtSnoc(n, p, Left);
      current := next;
      p := p + [Left];
      next := current.left;
    }
  }

  /** Follows right children from n as far as they go. */
  method MaxDescendant<V>(n: Node<V>) returns (p: Path)
    requires n.Node?
    ensures At(n, p).Node? && At(n, p).right.NoNode?
    ensures forall j :: 0 <= j < |p| ==> p[j] == Right
    ensures n.right.NoNode? ==> p == []
    ensures At(n, p).key in Keys(n)
    ensures Ordered(n) ==> forall y :: y in Keys(n) ==> y <= At(n, p).key
  {
    var current := n;
    var next := current.right;
    p := [];
    while next.Node?
      invariant current.Node? && At(n, p) == current && next == current.right
      invariant forall j :: 0 <= j < |p| ==> p[j] == Right
      invariant Keys(current) <= Keys(n)
      invariant Ordered(n) ==> Ordered(current) && forall y :: y in Keys(n) && y !in Keys(current) ==> y < current.key
      decreases current
    {
      AtSnoc(n, p, Right);
      current := next;
      p := p + [Right];
      next := current.right;
    }
  }

  /** In an ordered tree, the least key s of the right subtree of the node at p is the
      least key of the whole tree above that node's key. */
  lemma LeastAboveViaRight<V>(t: Node<V>, p: Path, s: int)
    requires Ordered(t) && At(t, p).Node?
    requires s in Keys(At(t, p).right) && forall z :: z in Keys(At(t, p).right) ==> s <= z
    ensures At(t, p).key < s
    ensures forall y :: y in Keys(t) && At(t, p).key < y ==> s <= y
  {
    var self := At(t, p);
    OrderedAt(t, p);
    assert Keys(self) == Keys(self.left) + {self.key} + Keys(self.right);
    forall y | y in Keys(t) && self.key < y
      ensures s <= y
    {
      if y !in Keys(self) {
        OutsideSubtree(t, p, y);
      }
    }
  }

  /** In an ordered tree, if k is the greatest key of the left subtree of the node at a,
      the key at a is the least key of the whole tree above k. */
  lemma LeastAboveViaAncestor<V>(t: Node<V>, a: Path, k: int)
    requires Ordered(t) && At(t, a).Node?
    requires k in Keys(At(t, a).left) && forall z :: z in Keys(At(t, a).left) ==> z <= k
    ensures k < At(t, a).key
    ensures forall y :: y in Keys(t) && k < y ==> At(t, a).key <= y
  {
    var above := At(t, a);
    OrderedAt(t, a);
    assert Keys(above) == Keys(above.left) + {above.key} + Keys(above.right);
    forall y | y in Keys(t) && k < y
      ensures above.key <= y
    {
      if y !in Keys(above) {
        OutsideSubtree(t, a, y);
      }
    }
  }

  /** Climbing from a right child: if k is the greatest key of the right subtree of the
      node at up, it is the greatest key of the subtree at up. */
  lemma GreatestAfterClimb<V>(t: Node<V>, up: Path, k: int)
    requires Ordered(t) && At(t, up).Node?
    requires k in Keys(At(t, up).right) && forall z :: z in Keys(At(t, up).right) ==> z <= k
    ensures k in Keys(At(t, up)) && forall z :: z in Keys(At(t, up)) ==> z <= k
  {
    var n := At(t, up);
    OrderedAt(t, up);
    assert Keys(n) == Keys(n.left) + {n.key} + Keys(n.right);
  }

  /** Walks up the parent links from the node at p, which has no right child, while the
      current node is its parent's right child.  In an ordered tree the subtree reached has
      that node's key as its greatest key. */
  method ClimbRightChildren<V>(t: Node<V>, p: Path) returns (current: Path, parent: Option<Path>)
    requires At(t, p).Node? && At(t, p).right.NoNode?
    ensures |current| <= |p| && current == p[..|current|]
    ensures forall j :: |current| <= j < |p| ==> p[j] == Right
    ensures parent == Parent(current) && At(t, current).Node?
    ensures !(parent.Some? && current == parent.value + [Right])
    ensures Ordered(t) ==> At(t, p).key in Keys(At(t, current))
    ensures Ordered(t) ==> forall y :: y in Keys(At(t, current)) ==> y <= At(t, p).key
  {
    var self := At(t, p);
    current := p;
    parent := Parent(current);
    if Ordered(t) {
      OrderedAt(t, p);
      assert Keys(self) == Keys(self.left) + {self.key};
    }
    while parent.Some? && current == parent.value + [Right]
      invariant |current| <= |p| && current == p[..|current|]
      invariant forall j :: |current| <= j < |p| ==> p[j] == Right
      invariant parent == Parent(current)
      invariant At(t, current).Node?
      invariant Ordered(t) ==> self.key in Keys(At(t, current))
      invariant Ordered(t) ==> forall y :: y in Keys(At(t, current)) ==> y <= self.key
      decreases |current|
    {
      var up := parent.value;
      AtSnoc(t, up, Right);
      if Ordered(t) {
        GreatestAfterClimb(t, up, self.key);
      }
      current := up;
      parent := Parent(current);
    }
  }

  /** The successor of the node at position p of the tree rooted at t: the minimum of the
      right subtree if there is one, otherwise the first ancestor reached from a left
      child, walking up the parent links; None if there is no such ancestor. */
  method SuccessorNode<V>(t: Node<V>, p: Path) returns (r: Option<Path>)
    requires At(t, p).Node?
    ensures r.Some? ==> At(t, r.value).Node?
    ensures At(t, p).right.Node? ==>
      && r.Some? && |p| < |r.value| && r.value[..|p| + 1] == p + [Right] && At(t, r.value).left.NoNode?
      && forall j :: |p| < j < |r.value| ==> r.value[j] == Left
    ensures At(t, p).right.NoNode? && r.Some? ==>
      && |r.value| < |p| && r.value == p[..|r.value|] && p[|r.value|] == Left
      && forall j :: |r.value| < j < |p| ==> p[j] == Right
    ensures At(t, p).right.NoNode? && r.None? ==> forall j :: 0 <= j < |p| ==> p[j] == Right
    ensures Ordered(t) && r.Some? ==>
      && At(t, p).key < At(t, r.value).key
      && forall y :: y in Keys(t) && At(t, p).key < y ==> At(t, r.value).key <= y
    ensures Ordered(t) && r.None? ==> forall y :: y in Keys(t) ==> y <= At(t, p).key
  {
    var self := At(t, p);
    if self.right.Node? {
      var q := MinDescendant(self.right);
      AtAppend(t, p + [Right], q);
      AtSnoc(t, p, Right);
      r := Some(p + [Right] + q);
      assert r.value[..|p| + 1] == p + [Right];
      assert forall j :: |p| < j < |r.value| ==> r.value[j] == q[j - |p| - 1];
      if Ordered(t) {
        OrderedAt(t, p + [Right]);
        LeastAboveViaRight(t, p, At(t, r.value).key);
      }
      return;
    }
    var current, parent := ClimbRightChildren(t, p);
    r := parent;
    if parent.Some? {
      var a := parent.value;
      var last := current[|current| - 1];
      assert a + [last] == current && last != Right;
      assert current == a + [Left];
      assert a == current[..|a|] && current[|a|] == Left;
      assert a == p[..|a|] && p[|a|] == Left;
      assert forall j :: |a| < j < |p| ==> j >= |current| && p[j] == Right;
      AtSnoc(t, a, Left);
      if Ordered(t) {
        LeastAboveViaAncestor(t, a, self.key);
      }
    } else {
      assert current == [];
    }
  }

  // ---------------------------------------------------------------------------
  // The plain insertion and deletion strategy

  /** The node n with its child in direction d replaced by c. */
  function WithChild<V>(n: Node<V>, d: Dir, c: Node<V>): Node<V>
    requires n.Node?
  {
    if d == Left then n.(left := c) else n.(right := c)
  }

  lemma MapUpdateUnion<K, W>(a: map<K, W>, b: map<K, W>, key: K, data: W)
    ensures key !in b ==> a[key := data] + b == (a + b)[key := data]
    ensures a + b[key := data] == (a + b)[key := data]
  {
  }

  lemma MapUpdateCommute<K, W>(x: map<K, W>, key: K, data: W, k: K, d: W)
    requires key != k
    ensures x[key := data][k := d] == x[k := d][key := data]
  {
  }

  lemma MapRemoveUnion<K, W>(a: map<K, W>, b: map<K, W>, key: K)
    ensures key !in b ==> (a - {key}) + b == (a + b) - {key}
    ensures key !in a ==> a + (b - {key}) == (a + b) - {key}
  {
  }

  lemma MapRestore<K, W>(a: map<K, W>, b: map<K, W>, k: K)
    requires k !in a && k in b
    ensures (a + (b - {k}))[k := b[k]] == a + b
  {
  }

  lemma MapUpdateRemove<K, W>(x: map<K, W>, k: K, v: W)
    requires k !in x
    ensures x[k := v] - {k} == x
  {
  }

  lemma MapRemoveCommute<K, W>(x: map<K, W>, key: K, k: K, d: W)
    requires key != k
    ensures (x - {key})[k := d] == x[k := d] - {key}
  {
  }

  /** Replacing the child on the key's side by that child with the key inserted inserts
      the key into the node. */
  lemma InsertedBelow<V>(n: Node<V>, d: Dir, c: Node<V>, key: int, data: V)
    requires n.Node? && key != n.key && (d == Left <==> key < n.key)
    requires Keys(c) == Keys(Child(n, d)) + {key}
    requires Ordered(Child(n, d)) ==> Ordered(c) && Content(c) == Content(Child(n, d))[key := data]
    ensures Keys(WithChild(n, d, c)) == Keys(n) + {key}
    ensures Ordered(n) ==> Ordered(WithChild(n, d, c)) && Content(WithChild(n, d, c)) == Content(n)[key := data]
  {
    var m := WithChild(n, d, c);
    var Node(k, v, h, l, r) := n;
    if d == Left {
      assert m == Node(k, v, h, c, r);
    } else {
      assert m == Node(k, v, h, l, c);
    }
    if Ordered(n) {
      ContentKeys(l);
      ContentKeys(r);
      MapUpdateUnion(Content(l), Content(r), key, data);
      MapUpdateCommute(Content(l) + Content(r), key, data, k, v);
    }
  }

  /** Replacing the child on the key's side by that child with the key deleted deletes
      the key from the node. */
  lemma DeletedBelow<V>(n: Node<V>, d: Dir, c: Node<V>, key: int)
    requires n.Node? && (Ordered(n) ==> key != n.key && (d == Left <==> key < n.key))
    requires Keys(c) <= Keys(Child(n, d))
    requires Ordered(Child(n, d)) ==> Ordered(c) && Content(c) == Content(Child(n, d)) - {key}
    ensures Keys(WithChild(n, d, c)) <= Keys(n)
    ensures Ordered(n) ==> Ordered(WithChild(n, d, c)) && Content(WithChild(n, d, c)) == Content(n) - {key}
  {
    var m := WithChild(n, d, c);
    var Node(k, v, h, l, r) := n;
    if d == Left {
      assert m == Node(k, v, h, c, r);
    } else {
      assert m == Node(k, v, h, l, c);
    }
    if Ordered(n) {
      ContentKeys(l);
      ContentKeys(r);
      MapRemoveUnion(Content(l), Content(r), key);
      MapRemoveCommute(Content(l) + Content(r), key, k, v);
    }
  }

  /** Inserts (key, data) below n, overwriting the payload of an existing equal key, and
      recomputes the heights along the way back up. */
  function InsertNode<V>(n: Node<V>, key: int, data: V): (r: Node<V>)
    ensures r.Node? && Keys(r) == Keys(n) + {key}
    ensures Ordered(n) ==> Ordered(r) && Content(r) == Content(n)[key := data]
    ensures HeightsOk(n) ==> HeightsOk(r)
    decreases n
  {
    if n.NoNode? then NewNode(key, data)
    else
      var c := CompareIntegers(key, n.key);
      if c == KeysAreEqual then
        ContentKeys(n.left);
        ContentKeys(n.right);
        n.(data := data)
      else
        var d := if c == FirstKeySmaller then Left else Right;
        var below := InsertNode(Child(n, d), key, data);
        InsertedBelow(n, d, below, key, data);
        UpdateHeight(WithChild(n, d, below))
  }

  /** Detaches the node with the smallest key from n: the remaining subtree, with the
      detached key and payload. */
  function DetachMin<V>(n: Node<V>): (r: (Node<V>, int, V))
    requires n.Node?
    ensures Keys(r.0) <= Keys(n) && r.1 in Keys(n)
    ensures Ordered(n) ==>
      && Ordered(r.0)
      && (forall y :: y in Keys(n) ==> r.1 <= y)
      && r.1 in Content(n) && Content(n)[r.1] == r.2
      && Content(r.0) == Content(n) - {r.1}
    ensures HeightsOk(n) ==> HeightsOk(r.0)
    decreases n
  {
    ContentKeys(n.left);
    ContentKeys(n.right);
    if n.left.NoNode? then
      assert Ordered(n) ==> Content(n) - {n.key} == Content(n.right);
      (n.right, n.key, n.data)
    else
      var m := DetachMin(n.left);
      DetachedBelow(n, m.0, m.1, m.2);
      (UpdateHeight(WithChild(n, Left, m.0)), m.1, m.2)
  }

  /** Detaching the minimum of the left subtree detaches the minimum of the node. */
  lemma DetachedBelow<V>(n: Node<V>, rest: Node<V>, k: int, d: V)
    requires n.Node? && n.left.Node?
    requires Keys(rest) <= Keys(n.left) && k in Keys(n.left)
    requires Ordered(n.left) ==>
      && Ordered(rest)
      && (forall y :: y in Keys(n.left) ==> k <= y)
      && k in Content(n.left) && Content(n.left)[k] == d
      && Content(rest) == Content(n.left) - {k}
    ensures Keys(WithChild(n, Left, rest)) <= Keys(n) && k in Keys(n)
    ensures Ordered(n) ==>
      && Ordered(WithChild(n, Left, rest))
      && (forall y :: y in Keys(n) ==> k <= y)
      && k in Content(n) && Content(n)[k] == d
      && Content(WithChild(n, Left, rest)) == Content(n) - {k}
  {
    DeletedBelow(n, Left, rest, k);
    if Ordered(n) {
      var Node(nk, nv, h, l, r) := n;
      ContentKeys(l);
      ContentKeys(r);
      assert k !in Content(r) && k != nk;
      assert Keys(n) == Keys(l) + {nk} + Keys(r);
    }
  }

  /** The subtree n with its root node removed (the node deleting itself): a missing
      child is replaced by the other one, otherwise the minimum of the right subtree
      takes the root's place. */
  function RemoveRoot<V>(n: Node<V>): (r: Node<V>)
    requires n.Node?
    ensures Keys(r) <= Keys(n)
    ensures Ordered(n) ==> Ordered(r) && Content(r) == Content(n) - {n.key}
    ensures HeightsOk(n) ==> HeightsOk(r)
  {
    ContentKeys(n.left);
    ContentKeys(n.right);
    if n.left.NoNode? then
      assert Ordered(n) ==> Content(n) - {n.key} == Content(n.right);
      n.right
    else if n.right.NoNode? then
      assert Ordered(n) ==> Content(n) - {n.key} == Content(n.left);
      n.left
    else
      var m := DetachMin(n.right);
      ContentKeys(m.0);
      RootReplaced(n, m.0, m.1, m.2);
      UpdateHeight(Node(m.1, m.2, n.height, n.left, m.0))
  }

  /** Putting the smallest entry of the right subtree in the root's place removes the root. */
  lemma RootReplaced<V>(n: Node<V>, rest: Node<V>, k: int, d: V)
    requires n.Node? && n.right.Node?
    requires Keys(rest) <= Keys(n.right) && k in Keys(n.right)
    requires Ordered(n.right) ==>
      && Ordered(rest) && (forall y :: y in Keys(n.right) ==> k <= y)
      && k in Content(n.right) && Content(n.right)[k] == d
      && Content(rest) == Content(n.right) - {k}
    ensures Keys(Node(k, d, n.height, n.left, rest)) <= Keys(n)
    ensures Ordered(n) ==>
      Ordered(Node(k, d, n.height, n.left, rest)) && Content(Node(k, d, n.height, n.left, rest)) == Content(n) - {n.key}
  {
    var Node(nk, nv, h, l, r) := n;
    if Ordered(n) {
      ContentKeys(l);
      ContentKeys(r);
      ContentKeys(rest);
      assert nk !in Keys(l) && nk !in Keys(r) && k !in Keys(l);
      AboveDetached(r, rest, k);
      RootMapReplaced(Content(l), Content(r), Content(rest), nk, nv, k, d);
    }
  }

  /** Every key left after detaching the minimum k lies above k. */
  lemma AboveDetached<V>(right: Node<V>, rest: Node<V>, k: int)
    requires Keys(rest) <= Keys(right) && (forall y :: y in Keys(right) ==> k <= y)
    requires Content(rest) == Content(right) - {k}
    ensures forall y :: y in Keys(rest) ==> k < y
  {
    ContentKeys(rest);
    forall y | y in Keys(rest)
      ensures k < y
    {
      assert y in Content(rest);
    }
  }

  /** The map identity behind RootReplaced: the root's entry goes, the detached minimum
      comes back at the top. */
  lemma RootMapReplaced<W>(left: map<int, W>, right: map<int, W>, rest: map<int, W>, nk: int, nv: W, k: int, d: W)
    requires nk !in left && nk !in right && k !in left
    requires k in right && right[k] == d && rest == right - {k}
    ensures (left + rest)[k := d] == (left + right)[nk := nv] - {nk}
  {
    MapRestore(left, right, k);
    MapUpdateRemove(left + right, nk, nv);
  }

  /** Deletes the node with the given key from below n, if there is one. */
  function DeleteNode<V>(n: Node<V>, key: int): (r: Node<V>)
    ensures Keys(r) <= Keys(n)
    ensures Ordered(n) ==> Ordered(r) && Content(r) == Content(n) - {key}
    ensures HeightsOk(n) ==> HeightsOk(r)
    decreases n
  {
    if n.NoNode? then NoNode
    else
      var c := CompareIntegers(key, n.key);
      if c == KeysAreEqual then RemoveRoot(n)
      else
        var d := if c == FirstKeySmaller then Left else Right;
        var below := DeleteNode(Child(n, d), key);
        DeletedBelow(n, d, below, key);
        UpdateHeight(WithChild(n, d, below))
  }

  // ---------------------------------------------------------------------------
  // Trees

  /** A tree owns its root node, or is empty. */
  datatype Tree<V> = Tree(root: Node<V>) {

    ghost predicate Valid()
    {
      Ordered(root) && HeightsOk(root)
    }

    /** The node with the given key, if the tree is not empty and holds it. */
    function FindNodeByKey(key: int): (r: Option<Path>)
      requires Valid()
      ensures r.Some? ==> At(root, r.value).Node? && At(root, r.value).key == key
      ensures r.Some? ==> key in Content(root) && Content(root)[key] == At(root, r.value).data
      ensures r.None? <==> key !in Content(root)
    {
      ContentKeys(root);
      if root.NoNode? then None
      else
        var r := DescendantNode(root, key);
        if r.Some? then ContentAt(root, r.value); r else r
    }

    /** The node with the smallest key, or None for the empty tree. */
    method GetMinNode() returns (r: Option<Path>)
      requires Valid()
      ensures r.None? <==> root.NoNode?
      ensures r.Some? ==> At(root, r.value).Node? && At(root, r.value).key in Content(root)
      ensures r.Some? ==> Content(root)[At(root, r.value).key] == At(root, r.value).data
      ensures r.Some? ==> forall y :: y in Content(root) ==> At(root, r.value).key <= y
    {
      ContentKeys(root);
      if root.NoNode? {
        return None;
      }
      var p := MinDescendant(root);
      ContentAt(root, p);
      r := Some(p);
    }

    /** The node with the largest key, or None for the empty tree. */
    method GetMaxNode() returns (r: Option<Path>)
      requires Valid()
      ensures r.None? <==> root.NoNode?
      ensures r.Some? ==> At(root, r.value).Node? && At(root, r.value).key in Content(root)
      ensures r.Some? ==> Content(root)[At(root, r.value).key] == At(root, r.value).data
      ensures r.Some? ==> forall y :: y in Content(root) ==> y <= At(root, r.value).key
    {
      ContentKeys(root);
      if root.NoNode? {
        return None;
      }
      var p := MaxDescendant(root);
      ContentAt(root, p);
      r := Some(p);
    }

    /** The node with the next larger key after `key`, or None when `key` is not in the
        tree or is its largest key. */
    method GetSuccessorNode(key: int) returns (r: Option<Path>)
      requires Valid()
      ensures key !in Content(root) ==> r.None?
      ensures r.Some? ==>
        && At(root, r.value).Node? && key < At(root, r.value).key
        && forall y :: y in Content(root) && key < y ==> At(root, r.value).key <= y
      ensures key in Content(root) && r.None? ==> forall y :: y in Content(root) ==> y <= key
    {
      ContentKeys(root);
      var start := FindNodeByKey(key);
      if start.None? {
        return None;
      }
      r := SuccessorNode(root, start.value);
    }

    /** The tree after inserting (key, data); an existing entry for key is overwritten. */
    function Insert(key: int, data: V): (r: Tree<V>)
      requires Valid()
      ensures r.Valid() && r.root.Node?
      ensures Content(r.root) == Content(root)[key := data]
    {
      Tree(InsertNode(root, key, data))
    }

    /** The tree after deleting key, with the payload that was removed (None if the key
        was not in the tree). */
    function Delete(key: int): (r: (Tree<V>, Option<V>))
      requires Valid()
      ensures r.0.Valid()
      ensures Content(r.0.root) == Content(root) - {key}
      ensures r.1 == if key in Content(root) then Some(Content(root)[key]) else None
    {
      var removed := match FindNodeByKey(key)
        case None => None
        case Some(p) => Some(At(root, p).data);
      (Tree(DeleteNode(root, key)), removed)
    }
  }

  /** A fresh tree: no root node. */
  function EmptyTree<V>(): (t: Tree<V>)
    ensures t.Valid() && Content(t.root) == map[]
  {
    Tree(NoNode)
  }
}
