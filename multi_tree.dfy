/** A multidimensional map keyed by fixed-length integer tuples, built as a tree of trees:
    the nodes of a tree of the first `dimensions - 1` dimensions carry, as payload, the tree
    of the next dimension, and the nodes of a last-dimension tree carry the caller's data.

    The trees of one MultiTree live in an arena: `trees[h]` is the tree whose handle is h,
    `trees[0]` is the first dimension's tree, and a node's payload names the next tree by
    its handle.  Updating `trees[h]` is updating that tree object in place. */
module MultiDimensional {
  import opened BaseTree

  /** A node's payload: the data of a last-dimension entry (None is a stored null, a valid
      value), or the handle of the next dimension's tree. */
  datatype Payload<T> = Data(value: Option<T>) | Subtree(handle: nat)

  /** A node of the structure: the handle of its tree and its position in that tree. */
  datatype NodeRef = NodeRef(tree: nat, pos: Path)

  type Arena<T> = seq<Tree<Payload<T>>>

  // ---------------------------------------------------------------------------
  // Well-formedness of an arena

  /** The payload v stored under key k in tree i fits the tree's dimension: a tree of an
      inner dimension points at a later tree one dimension deeper, whose key prefix is
      tree i's prefix followed by k; a last-dimension tree holds data. */
  ghost predicate PayloadOk<T>(trees: Arena<T>, prefix: seq<seq<int>>, dims: nat, i: nat, k: int, v: Payload<T>)
    requires i < |prefix|
  {
    if |prefix[i]| + 1 < dims then
      v.Subtree? && i < v.handle < |trees| && v.handle < |prefix| && prefix[v.handle] == prefix[i] + [k]
    else
      v.Data?
  }

  ghost predicate TreeOk<T>(trees: Arena<T>, prefix: seq<seq<int>>, dims: nat, i: nat)
    requires i < |trees| == |prefix|
  {
    && |prefix[i]| < dims
    && forall k :: k in Content(trees[i].root) ==> PayloadOk(trees, prefix, dims, i, k, Content(trees[i].root)[k])
  }

  /** prefix[h] is the composite-key prefix under which tree h hangs; tree 0 hangs under []. */
  ghost predicate Wf<T>(trees: Arena<T>, prefix: seq<seq<int>>, dims: nat)
  {
    && dims >= 1
    && |trees| >= 1 && |prefix| == |trees| && prefix[0] == []
    && (forall i :: 0 <= i < |trees| ==> trees[i].Valid())
    && (forall i :: 0 <= i < |trees| ==> TreeOk(trees, prefix, dims, i))
  }

  // ---------------------------------------------------------------------------
  // The abstract map

  /** What the tree with handle i maps the key suffix s to: None when there is no entry,
      Some(v) for stored data v. */
  ghost function Get<T>(trees: Arena<T>, i: nat, s: seq<int>): Option<Option<T>>
    decreases |trees| - i
  {
    if i >= |trees| || s == [] || s[0] !in Content(trees[i].root) then None
    else
      match Content(trees[i].root)[s[0]]
      case Data(v) => if |s| == 1 then Some(v) else None
      case Subtree(j) => if |s| > 1 && i < j then Get(trees, j, s[1..]) else None
  }

  /** The tree that key k leads to from tree i, if it names a subtree there. */
  ghost function Step<T>(trees: Arena<T>, i: nat, k: int): Option<nat>
  {
    if i < |trees| && k in Content(trees[i].root) && Content(trees[i].root)[k].Subtree?
       && i < Content(trees[i].root)[k].handle < |trees|
    then Some(Content(trees[i].root)[k].handle)
    else None
  }

  /** The tree reached from tree i by descending along the key components p. */
  ghost function Walk<T>(trees: Arena<T>, i: nat, p: seq<int>): Option<nat>
    decreases |p|
  {
    if p == [] then Some(i)
    else
      match Step(trees, i, p[0])
      case None => None
      case Some(j) => Walk(trees, j, p[1..])
  }

  /** No tree reachable below the first dimension's tree is empty. */
  ghost predicate NoStaleSubtrees<T>(trees: Arena<T>)
  {
    forall p :: p != [] && Walk(trees, 0, p).Some? ==>
      Walk(trees, 0, p).value < |trees| && trees[Walk(trees, 0, p).value].root.Node?
  }

  /** How many leading key components the existing trees resolve from tree c on, starting
      at component i and stopping at dims - 1: where the first loop of insertion stops. */
  ghost function ReusedDepth<T>(trees: Arena<T>, key: seq<int>, dims: nat, i: nat, c: nat): (r: nat)
    ensures i <= r && (i < dims ==> r < dims)
    decreases dims - i
  {
    if i + 1 < dims && i < |key| && Step(trees, c, key[i]).Some?
    then ReusedDepth(trees, key, dims, i + 1, Step(trees, c, key[i]).value)
    else i
  }

  /** The tree where the first loop of insertion stops. */
  ghost function ReusedTree<T>(trees: Arena<T>, key: seq<int>, dims: nat, i: nat, c: nat): (r: nat)
    ensures c < |trees| ==> r < |trees|
    decreases dims - i
  {
    if i + 1 < dims && i < |key| && Step(trees, c, key[i]).Some?
    then ReusedTree(trees, key, dims, i + 1, Step(trees, c, key[i]).value)
    else c
  }

  /** Lexicographic order: a is no later than the first |a| components of b. */
  predicate LexLeq(a: seq<int>, b: seq<int>)
    decreases |a|
  {
    a == [] || (b != [] && (a[0] < b[0] || (a[0] == b[0] && LexLeq(a[1..], b[1..]))))
  }

  /** K has the prefix P, or extends a prefix that comes after (least) or before (not least) P. */
  ghost predicate Bounds(least: bool, p: seq<int>, K: seq<int>)
  {
    |p| <= |K| && if least then LexLeq(p, K[..|p|]) else LexLeq(K[..|p|], p)
  }

  /** K is the lexicographically smallest composite key the arena maps. */
  ghost predicate IsLexMin<T>(trees: Arena<T>, K: seq<int>)
  {
    Get(trees, 0, K).Some? && forall K' :: Get(trees, 0, K').Some? ==> LexLeq(K, K')
  }

  /** K is the lexicographically largest composite key the arena maps. */
  ghost predicate IsLexMax<T>(trees: Arena<T>, K: seq<int>)
  {
    Get(trees, 0, K).Some? && forall K' :: Get(trees, 0, K').Some? ==> LexLeq(K', K)
  }

  /** The arena after a new empty tree is created and grafted into tree c under key k. */
  ghost function Graft<T>(trees: Arena<T>, c: nat, k: int): Arena<T>
    requires c < |trees| && trees[c].Valid()
  {
    (trees + [EmptyTree()])[c := trees[c].Insert(k, Subtree(|trees|))]
  }

  // ---------------------------------------------------------------------------
  // Lemmas about lookups and descents

  lemma GetSome<T>(trees: Arena<T>, i: nat, s: seq<int>)
    requires Get(trees, i, s).Some?
    ensures i < |trees| && s != [] && s[0] in Content(trees[i].root)
  {
  }

  lemma {:induction false} WalkAppend<T>(trees: Arena<T>, i: nat, p: seq<int>, q: seq<int>)
    ensures Walk(trees, i, p + q) == match Walk(trees, i, p) case None => None case Some(c) => Walk(trees, c, q)
    decreases |p|
  {
    if p == [] {
      assert p + q == q;
    } else {
      assert (p + q)[0] == p[0] && (p + q)[1..] == p[1..] + q;
      if Step(trees, i, p[0]).Some? {
        WalkAppend(trees, Step(trees, i, p[0]).value, p[1..], q);
      }
    }
  }

  /** Descending along p and then looking up s is looking up p + s. */
  lemma {:induction false} WalkGet<T>(trees: Arena<T>, i: nat, p: seq<int>, s: seq<int>)
    requires Walk(trees, i, p).Some? && s != []
    ensures Get(trees, i, p + s) == Get(trees, Walk(trees, i, p).value, s)
    decreases |p|
  {
    if p != [] {
      var j := Step(trees, i, p[0]).value;
      assert (p + s)[0] == p[0] && (p + s)[1..] == p[1..] + s;
      WalkGet(trees, j, p[1..], s);
    } else {
      assert p + s == s;
    }
  }

  /** Where the descent along p fails, nothing below p is mapped. */
  lemma {:induction false} WalkNoneGet<T>(trees: Arena<T>, i: nat, p: seq<int>, s: seq<int>)
    requires Walk(trees, i, p).None? && s != []
    ensures Get(trees, i, p + s).None?
    decreases |p|
  {
    assert (p + s)[0] == p[0] && (p + s)[1..] == p[1..] + s;
    if Step(trees, i, p[0]).Some? {
      WalkNoneGet(trees, Step(trees, i, p[0]).value, p[1..], s);
    }
  }

  /** A descent visits ever larger handles, and in a well-formed arena it spells out the
      key prefix of the tree it reaches. */
  lemma {:induction false} WalkPrefix<T>(trees: Arena<T>, prefix: seq<seq<int>>, dims: nat, i: nat, p: seq<int>)
    requires Wf(trees, prefix, dims) && i < |trees| && Walk(trees, i, p).Some?
    ensures i <= Walk(trees, i, p).value < |trees|
    ensures prefix[Walk(trees, i, p).value] == prefix[i] + p
    decreases |p|
  {
    if p == [] {
    } else {
      var j := Step(trees, i, p[0]).value;
      assert TreeOk(trees, prefix, dims, i);
      WalkPrefix(trees, prefix, dims, j, p[1..]);
      assert prefix[i] + [p[0]] + p[1..] == prefix[i] + p;
    }
  }

  /** A descent is unaffected by changes to trees other than those it passes through. */
  lemma {:induction false} WalkFrame<T>(trees: Arena<T>, trees': Arena<T>, i: nat, p: seq<int>)
    requires Walk(trees, i, p).Some?
    requires |trees| <= |trees'|
    requires forall j :: i <= j < Walk(trees, i, p).value && j < |trees| ==> trees'[j] == trees[j]
    ensures i <= Walk(trees, i, p).value
    ensures Walk(trees', i, p) == Walk(trees, i, p)
    decreases |p|
  {
    if p != [] {
      var j := Step(trees, i, p[0]).value;
      WalkFrame(trees, trees', j, p[1..]);
      assert trees'[i] == trees[i];
    }
  }

  /** In a well-formed arena only composite keys of length dims are mapped. */
  lemma {:induction false} GetLength<T>(trees: Arena<T>, prefix: seq<seq<int>>, dims: nat, i: nat, s: seq<int>)
    requires Wf(trees, prefix, dims) && Get(trees, i, s).Some?
    ensures i < |trees| && |prefix[i]| + |s| == dims
    decreases |trees| - i
  {
    assert TreeOk(trees, prefix, dims, i);
    assert PayloadOk(trees, prefix, dims, i, s[0], Content(trees[i].root)[s[0]]);
    match Content(trees[i].root)[s[0]]
    case Data(v) =>
    case Subtree(j) =>
      GetLength(trees, prefix, dims, j, s[1..]);
  }

  /** Appending an empty tree changes no lookup. */
  lemma {:induction false} AppendEmpty<T>(trees: Arena<T>, i: nat, s: seq<int>)
    ensures Get(trees + [EmptyTree()], i, s) == Get(trees, i, s)
    decreases |trees| - i
  {
    var big := trees + [EmptyTree()];
    if i < |trees| && s != [] && s[0] in Content(trees[i].root) {
      assert big[i] == trees[i];
      match Content(trees[i].root)[s[0]]
      case Data(v) =>
      case Subtree(j) =>
        if |s| > 1 && i < j {
          AppendEmpty(trees, j, s[1..]);
        }
    } else if i == |trees| && s != [] {
      assert big[i] == EmptyTree();
    }
  }

  /** If the lookups in tree c are unchanged and no other tree changed, no lookup changed. */
  lemma {:induction false} SameLookups<T>(trees: Arena<T>, trees': Arena<T>, c: nat, i: nat, s: seq<int>)
    requires |trees'| == |trees|
    requires forall j :: 0 <= j < |trees| && j != c ==> trees'[j] == trees[j]
    requires forall u :: Get(trees', c, u) == Get(trees, c, u)
    ensures Get(trees', i, s) == Get(trees, i, s)
    decreases |trees| - i
  {
    if i != c && i < |trees| && s != [] && s[0] in Content(trees[i].root) {
      match Content(trees[i].root)[s[0]]
      case Data(v) =>
      case Subtree(j) =>
        if |s| > 1 && i < j {
          SameLookups(trees, trees', c, j, s[1..]);
        }
    }
  }

  /** If tree c changed only under its key x and no other tree changed, then only
      composite keys that extend prefix[c] + [x] can be mapped differently. */
  lemma {:induction false} LocalChange<T>(trees: Arena<T>, trees': Arena<T>, prefix: seq<seq<int>>, dims: nat,
                                          c: nat, x: int, i: nat, s: seq<int>)
    requires Wf(trees, prefix, dims) && c < |trees| && i < |trees|
    requires |trees'| == |trees|
    requires forall j :: 0 <= j < |trees| && j != c ==> trees'[j] == trees[j]
    requires forall u :: u == [] || u[0] != x ==> Get(trees', c, u) == Get(trees, c, u)
    requires !(prefix[c] + [x] <= prefix[i] + s)
    ensures Get(trees', i, s) == Get(trees, i, s)
    decreases |trees| - i
  {
    if i == c {
      if s != [] {
        PrefixHead(prefix[c], s);
      }
    } else if s != [] && s[0] in Content(trees[i].root) {
      assert TreeOk(trees, prefix, dims, i);
      assert PayloadOk(trees, prefix, dims, i, s[0], Content(trees[i].root)[s[0]]);
      match Content(trees[i].root)[s[0]]
      case Data(v) =>
      case Subtree(j) =>
        if |s| > 1 {
          assert prefix[j] + s[1..] == prefix[i] + s;
          LocalChange(trees, trees', prefix, dims, c, x, j, s[1..]);
        }
    }
  }

  lemma PrefixHead(a: seq<int>, s: seq<int>)
    requires s != []
    ensures a + [s[0]] <= a + s
  {
    assert (a + s)[..|a| + 1] == a + [s[0]];
  }

  /** Updating the entry for x in tree c changes no lookup in tree c that avoids x. */
  lemma UpdateOtherLookups<T>(trees: Arena<T>, trees': Arena<T>, c: nat, x: int, u: seq<int>)
    requires c < |trees| == |trees'|
    requires forall j :: 0 <= j < |trees| && j != c ==> trees'[j] == trees[j]
    requires forall k :: k != x ==> (k in Content(trees'[c].root) <==> k in Content(trees[c].root))
    requires forall k :: k != x && k in Content(trees[c].root) ==> Content(trees'[c].root)[k] == Content(trees[c].root)[k]
    requires u == [] || u[0] != x
    ensures Get(trees', c, u) == Get(trees, c, u)
  {
    if u != [] && u[0] in Content(trees[c].root) {
      match Content(trees[c].root)[u[0]]
      case Data(v) =>
      case Subtree(j) =>
        if |u| > 1 && c < j {
          assert Get(trees', c, u) == Get(trees', j, u[1..]);
          assert Get(trees, c, u) == Get(trees, j, u[1..]);
          SameBelow(trees, trees', c, j, u[1..]);
        }
    }
  }

  /** Lookups starting below tree c do not see tree c. */
  lemma {:induction false} SameBelow<T>(trees: Arena<T>, trees': Arena<T>, c: nat, i: nat, s: seq<int>)
    requires |trees'| == |trees| && c < i
    requires forall j :: 0 <= j < |trees| && j != c ==> trees'[j] == trees[j]
    ensures Get(trees', i, s) == Get(trees, i, s)
    decreases |trees| - i
  {
    if i < |trees| && s != [] && s[0] in Content(trees[i].root) {
      match Content(trees[i].root)[s[0]]
      case Data(v) =>
      case Subtree(j) =>
        if |s| > 1 && i < j {
          SameBelow(trees, trees', c, j, s[1..]);
        }
    }
  }

  // ---------------------------------------------------------------------------
  // Lemmas about grafting a new tree

  /** Grafting a new tree one dimension below tree c keeps the arena well formed. */
  lemma GraftWf<T>(trees: Arena<T>, prefix: seq<seq<int>>, dims: nat, c: nat, k: int)
    requires Wf(trees, prefix, dims) && c < |trees| && trees[c].Valid() && |prefix[c]| + 1 < dims
    ensures Wf(Graft(trees, c, k), prefix + [prefix[c] + [k]], dims)
  {
    assert TreeOk(trees, prefix, dims, c);
    var t2 := Graft(trees, c, k);
    var p2 := prefix + [prefix[c] + [k]];
    forall i | 0 <= i < |t2|
      ensures TreeOk(t2, p2, dims, i)
    {
      if i < |trees| {
        assert TreeOk(trees, prefix, dims, i);
        forall y | y in Content(t2[i].root)
          ensures PayloadOk(t2, p2, dims, i, y, Content(t2[i].root)[y])
        {
          if i != c || y != k {
            assert y in Content(trees[i].root) && Content(t2[i].root)[y] == Content(trees[i].root)[y];
            assert PayloadOk(trees, prefix, dims, i, y, Content(trees[i].root)[y]);
          }
        }
      } else {
        assert t2[i] == EmptyTree();
      }
    }
  }

  /** Grafting a new, empty tree into tree c under a key it does not hold changes no lookup. */
  lemma GraftGet<T>(trees: Arena<T>, c: nat, k: int, i: nat, s: seq<int>)
    requires c < |trees| && trees[c].Valid() && k !in Content(trees[c].root)
    ensures Get(Graft(trees, c, k), i, s) == Get(trees, i, s)
  {
    var t1 := trees + [EmptyTree()];
    var t2 := Graft(trees, c, k);
    forall u
      ensures Get(t2, c, u) == Get(t1, c, u)
    {
      if u != [] && u[0] == k {
        assert t2[|trees|] == EmptyTree();
        if |u| > 1 {
          assert Get(t2, c, u) == Get(t2, |trees|, u[1..]);
        }
      } else {
        UpdateOtherLookups(t1, t2, c, k, u);
      }
    }
    SameLookups(t1, t2, c, i, s);
    AppendEmpty(trees, i, s);
  }

  /** The grafted tree is reached by extending the descent to tree c with k. */
  lemma GraftWalk<T>(trees: Arena<T>, c: nat, k: int, p: seq<int>)
    requires c < |trees| && trees[c].Valid() && Walk(trees, 0, p) == Some(c)
    ensures Walk(Graft(trees, c, k), 0, p) == Some(c)
    ensures Walk(Graft(trees, c, k), 0, p + [k]) == Some(|trees|)
  {
    var t2 := Graft(trees, c, k);
    WalkFrame(trees, t2, 0, p);
    WalkAppend(t2, 0, p, [k]);
    assert Step(t2, c, k) == Some(|trees|);
  }

  // ---------------------------------------------------------------------------
  // Lemmas about the lexicographic order

  /** Extending two equal-length prefixes keeps their order; equal prefixes are ordered
      by the new components. */
  lemma {:induction false} LexStep(p: seq<int>, q: seq<int>, m: int, y: int)
    requires |p| == |q| && LexLeq(p, q)
    requires p == q ==> m <= y
    ensures LexLeq(p + [m], q + [y])
    decreases |p|
  {
    if p == [] {
      assert q == [];
      assert (p + [m])[1..] == [];
    } else {
      assert (p + [m])[0] == p[0] && (p + [m])[1..] == p[1..] + [m];
      assert (q + [y])[0] == q[0] && (q + [y])[1..] == q[1..] + [y];
      if p[0] == q[0] {
        if p[1..] == q[1..] {
          assert p == q;
        }
        LexStep(p[1..], q[1..], m, y);
      }
    }
  }

  lemma {:induction false} LexAntisymmetric(a: seq<int>, b: seq<int>)
    requires |a| == |b| && LexLeq(a, b) && LexLeq(b, a)
    ensures a == b
    decreases |a|
  {
    if a != [] {
      LexAntisymmetric(a[1..], b[1..]);
      assert a == [a[0]] + a[1..] && b == [b[0]] + b[1..];
    }
  }

  // ---------------------------------------------------------------------------
  // Lemmas for the operations

  /** The first loop of insertion stops at the deepest existing tree along the key, above
      the last dimension: the reused trees are exactly those that already exist. */
  lemma {:induction false} ReusedIsDeepest<T>(trees: Arena<T>, prefix: seq<seq<int>>, dims: nat, key: seq<int>, i: nat, c: nat)
    requires Wf(trees, prefix, dims) && |key| == dims && i < dims && c < |trees|
    requires Walk(trees, 0, key[..i]) == Some(c)
    ensures var d := ReusedDepth(trees, key, dims, i, c);
      && Walk(trees, 0, key[..d]) == Some(ReusedTree(trees, key, dims, i, c))
      && (d + 1 < dims ==> key[d] !in Content(trees[ReusedTree(trees, key, dims, i, c)].root))
    decreases dims - i
  {
    if i + 1 < dims && Step(trees, c, key[i]).Some? {
      WalkAppend(trees, 0, key[..i], [key[i]]);
      assert key[..i] + [key[i]] == key[..i + 1];
      ReusedIsDeepest(trees, prefix, dims, key, i + 1, Step(trees, c, key[i]).value);
    } else if i + 1 < dims {
      WalkPrefix(trees, prefix, dims, 0, key[..i]);
      assert TreeOk(trees, prefix, dims, c);
    }
  }

  /** Descending from a tree of an inner dimension through one of its keys. */
  lemma DescendStep<T>(trees: Arena<T>, prefix: seq<seq<int>>, dims: nat, c: nat, k: int)
    requires Wf(trees, prefix, dims) && c < |trees| && Walk(trees, 0, prefix[c]) == Some(c)
    requires k in Content(trees[c].root) && |prefix[c]| + 1 < dims
    ensures Content(trees[c].root)[k].Subtree?
    ensures c < Content(trees[c].root)[k].handle < |trees|
    ensures prefix[Content(trees[c].root)[k].handle] == prefix[c] + [k]
    ensures Walk(trees, 0, prefix[c] + [k]) == Some(Content(trees[c].root)[k].handle)
  {
    assert TreeOk(trees, prefix, dims, c);
    assert PayloadOk(trees, prefix, dims, c, k, Content(trees[c].root)[k]);
    WalkAppend(trees, 0, prefix[c], [k]);
  }

  /** One step of the first loop of insertion: key[i] in tree c leads to the tree at
      key[..i + 1], and the loop's final depth and tree are unchanged by the step. */
  lemma ReusedStep<T>(trees: Arena<T>, prefix: seq<seq<int>>, dims: nat, key: seq<int>, i: nat, c: nat)
    requires Wf(trees, prefix, dims) && |key| == dims && i + 1 < dims && c < |trees|
    requires Walk(trees, 0, key[..i]) == Some(c) && prefix[c] == key[..i]
    requires key[i] in Content(trees[c].root)
    ensures Content(trees[c].root)[key[i]].Subtree?
    ensures var h := Content(trees[c].root)[key[i]].handle;
            && h < |trees| && Walk(trees, 0, key[..i + 1]) == Some(h) && prefix[h] == key[..i + 1]
            && ReusedDepth(trees, key, dims, i + 1, h) == ReusedDepth(trees, key, dims, i, c)
            && ReusedTree(trees, key, dims, i + 1, h) == ReusedTree(trees, key, dims, i, c)
  {
    DescendStep(trees, prefix, dims, c, key[i]);
    assert key[..i + 1] == key[..i] + [key[i]];
  }

  /** Replacing tree c by t keeps the arena well formed if t holds fitting payloads. */
  lemma ReplaceWf<T>(trees: Arena<T>, prefix: seq<seq<int>>, dims: nat, c: nat, t: Tree<Payload<T>>)
    requires Wf(trees, prefix, dims) && c < |trees| && t.Valid()
    requires forall k :: k in Content(t.root) ==> PayloadOk(trees, prefix, dims, c, k, Content(t.root)[k])
    ensures Wf(trees[c := t], prefix, dims)
  {
    var t2 := trees[c := t];
    forall i | 0 <= i < |t2|
      ensures TreeOk(t2, prefix, dims, i)
    {
      assert TreeOk(trees, prefix, dims, i);
    }
  }

  /** Replacing tree c by a tree that differs from it only under key x changes only the
      lookups of composite keys that extend prefix[c] + [x]. */
  lemma ReplaceGet<T>(trees: Arena<T>, prefix: seq<seq<int>>, dims: nat, c: nat, x: int, t: Tree<Payload<T>>)
    requires Wf(trees, prefix, dims) && c < |trees|
    requires forall k :: k != x ==> (k in Content(t.root) <==> k in Content(trees[c].root))
    requires forall k :: k != x && k in Content(trees[c].root) ==> Content(t.root)[k] == Content(trees[c].root)[k]
    ensures forall K :: !(prefix[c] + [x] <= K) ==> Get(trees[c := t], 0, K) == Get(trees, 0, K)
  {
    var t2 := trees[c := t];
    forall u | u == [] || u[0] != x
      ensures Get(t2, c, u) == Get(trees, c, u)
    {
      UpdateOtherLookups(trees, t2, c, x, u);
    }
    forall K | !(prefix[c] + [x] <= K)
      ensures Get(t2, 0, K) == Get(trees, 0, K)
    {
      LocalChange(trees, t2, prefix, dims, c, x, 0, K);
    }
  }

  /** Looking up a composite key of tree c's prefix, its key x and a suffix s. */
  lemma LookupBelow<T>(trees: Arena<T>, prefix: seq<seq<int>>, dims: nat, c: nat, K: seq<int>)
    requires Wf(trees, prefix, dims) && c < |trees| && Walk(trees, 0, prefix[c]) == Some(c)
    requires prefix[c] < K
    ensures Get(trees, 0, K) == Get(trees, c, K[|prefix[c]|..])
  {
    assert K == prefix[c] + K[|prefix[c]|..];
    WalkGet(trees, 0, prefix[c], K[|prefix[c]|..]);
  }

  /** If tree c is empty, nothing is mapped: tree c is the first dimension's tree, or it is
      a stale subtree. */
  lemma EmptyReached<T>(trees: Arena<T>, prefix: seq<seq<int>>, dims: nat, c: nat)
    requires Wf(trees, prefix, dims) && c < |trees| && Walk(trees, 0, prefix[c]) == Some(c)
    requires trees[c].root.NoNode?
    ensures NoStaleSubtrees(trees) ==> forall K :: Get(trees, 0, K).None?
  {
    if prefix[c] == [] {
      forall K
        ensures Get(trees, 0, K).None?
      {
      }
    } else {
      assert trees[Walk(trees, 0, prefix[c]).value].root.NoNode?;
    }
  }

  /** Choosing the least (or greatest) key of the tree reached by a prefix that bounds every
      mapped composite key yields a longer prefix that bounds them all. */
  lemma ExtremeBound<T>(trees: Arena<T>, prefix: seq<seq<int>>, dims: nat, least: bool, c: nat, m: int)
    requires Wf(trees, prefix, dims) && c < |trees| && Walk(trees, 0, prefix[c]) == Some(c)
    requires m in Content(trees[c].root)
    requires forall y :: y in Content(trees[c].root) ==> if least then m <= y else y <= m
    requires forall K :: Get(trees, 0, K).Some? ==> Bounds(least, prefix[c], K)
    ensures forall K :: Get(trees, 0, K).Some? ==> Bounds(least, prefix[c] + [m], K)
  {
    forall K | Get(trees, 0, K).Some?
      ensures Bounds(least, prefix[c] + [m], K)
    {
      ExtremeBoundAt(trees, prefix, dims, least, c, m, K);
    }
  }

  /** ExtremeBound for one mapped composite key K. */
  lemma ExtremeBoundAt<T>(trees: Arena<T>, prefix: seq<seq<int>>, dims: nat, least: bool, c: nat, m: int, K: seq<int>)
    requires Wf(trees, prefix, dims) && c < |trees| && Walk(trees, 0, prefix[c]) == Some(c)
    requires m in Content(trees[c].root)
    requires forall y :: y in Content(trees[c].root) ==> if least then m <= y else y <= m
    requires Get(trees, 0, K).Some? && Bounds(least, prefix[c], K)
    ensures Bounds(least, prefix[c] + [m], K)
  {
    var p := prefix[c];
    GetLength(trees, prefix, dims, 0, K);
    assert TreeOk(trees, prefix, dims, c);
    var i := |p|;
    if K[..i] == p {
      LookupBelow(trees, prefix, dims, c, K);
      GetSome(trees, c, K[i..]);
    }
    assert K[..i + 1] == K[..i] + [K[i]];
    if least {
      LexStep(p, K[..i], m, K[i]);
    } else {
      LexStep(K[..i], p, K[i], m);
    }
  }

  /** The least (or greatest) key of a last-dimension tree whose prefix bounds every mapped
      composite key completes the least (or greatest) mapped composite key. */
  lemma ExtremeFound<T>(trees: Arena<T>, prefix: seq<seq<int>>, dims: nat, least: bool, c: nat, m: int)
    requires Wf(trees, prefix, dims) && c < |trees| && Walk(trees, 0, prefix[c]) == Some(c)
    requires m in Content(trees[c].root) && |prefix[c]| + 1 == dims
    requires forall K :: Get(trees, 0, K).Some? ==> Bounds(least, prefix[c] + [m], K)
    ensures Content(trees[c].root)[m].Data?
    ensures Get(trees, 0, prefix[c] + [m]) == Some(Content(trees[c].root)[m].value)
    ensures if least then IsLexMin(trees, prefix[c] + [m]) else IsLexMax(trees, prefix[c] + [m])
  {
    var R := prefix[c] + [m];
    assert TreeOk(trees, prefix, dims, c);
    assert PayloadOk(trees, prefix, dims, c, m, Content(trees[c].root)[m]);
    WalkGet(trees, 0, prefix[c], [m]);
    forall K | Get(trees, 0, K).Some?
      ensures if least then LexLeq(R, K) else LexLeq(K, R)
    {
      GetLength(trees, prefix, dims, 0, K);
      assert K[..|R|] == K;
    }
  }

  /** Two least (or two greatest) mapped keys are the same key. */
  lemma ExtremeUnique<T>(trees: Arena<T>, prefix: seq<seq<int>>, dims: nat, least: bool, K: seq<int>, K': seq<int>)
    requires Wf(trees, prefix, dims)
    requires if least then IsLexMin(trees, K) && IsLexMin(trees, K') else IsLexMax(trees, K) && IsLexMax(trees, K')
    ensures K == K'
  {
    GetLength(trees, prefix, dims, 0, K);
    GetLength(trees, prefix, dims, 0, K');
    LexAntisymmetric(K, K');
  }

  /** Storing data under the last key component in the last-dimension tree c reached by
      key's other components maps key to data and changes nothing else. */
  lemma InsertData<T>(trees: Arena<T>, prefix: seq<seq<int>>, dims: nat, c: nat, key: seq<int>, data: Option<T>)
    requires Wf(trees, prefix, dims) && |key| == dims && c < |trees| && trees[c].Valid()
    requires Walk(trees, 0, key[..dims - 1]) == Some(c) && prefix[c] == key[..dims - 1]
    ensures Wf(trees[c := trees[c].Insert(key[dims - 1], Data(data))], prefix, dims)
    ensures forall K :: Get(trees[c := trees[c].Insert(key[dims - 1], Data(data))], 0, K)
                        == if K == key then Some(data) else Get(trees, 0, K)
  {
    var x := key[dims - 1];
    var t := trees[c].Insert(x, Data(data));
    var t2 := trees[c := t];
    assert TreeOk(trees, prefix, dims, c);
    forall k | k in Content(t.root)
      ensures PayloadOk(trees, prefix, dims, c, k, Content(t.root)[k])
    {
      if k != x {
        assert PayloadOk(trees, prefix, dims, c, k, Content(trees[c].root)[k]);
      }
    }
    ReplaceWf(trees, prefix, dims, c, t);
    ReplaceGet(trees, prefix, dims, c, x, t);
    assert prefix[c] + [x] == key;
    forall K
      ensures Get(t2, 0, K) == if K == key then Some(data) else Get(trees, 0, K)
    {
      if K == key {
        WalkFrame(trees, t2, 0, key[..dims - 1]);
        WalkGet(t2, 0, key[..dims - 1], [x]);
      } else if key <= K {
        if Get(t2, 0, K).Some? {
          GetLength(t2, prefix, dims, 0, K);
        }
        if Get(trees, 0, K).Some? {
          GetLength(trees, prefix, dims, 0, K);
        }
      }
    }
  }

  /** The arena trees after the second loop of insertion grafted i - d new trees, starting
      in tree c0 of the original arena t0 (with prefixes p0), now standing at tree cur. */
  ghost predicate Grafted<T>(t0: Arena<T>, p0: seq<seq<int>>, trees: Arena<T>, prefix: seq<seq<int>>,
                              key: seq<int>, d: nat, c0: nat, i: nat, cur: nat)
  {
    && d <= i < |key| && c0 < |t0| == |p0|
    && |trees| == |t0| + (i - d) && |prefix| == |trees| && prefix[..|t0|] == p0
    && (forall j :: 0 <= j < |t0| && j != c0 ==> trees[j] == t0[j])
    && cur == (if i == d then c0 else |trees| - 1)
    && (i == d ==> trees[c0] == t0[c0])
    && (i > d ==> Content(trees[c0].root) == Content(t0[c0].root)[key[d] := Subtree(|t0|)])
    && (forall j :: |t0| <= j < |trees| ==>
          && prefix[j] == key[..d + 1 + (j - |t0|)]
          && Content(trees[j].root) == if j + 1 < |trees| then map[key[d + 1 + (j - |t0|)] := Subtree(j + 1)] else map[])
  }

  lemma GraftedStep<T>(t0: Arena<T>, p0: seq<seq<int>>, trees: Arena<T>, prefix: seq<seq<int>>,
                       key: seq<int>, d: nat, c0: nat, i: nat, cur: nat)
    requires Grafted(t0, p0, trees, prefix, key, d, c0, i, cur)
    requires i + 1 < |key| && cur < |trees| && trees[cur].Valid() && prefix[cur] == key[..i]
    ensures Grafted(t0, p0, Graft(trees, cur, key[i]), prefix + [prefix[cur] + [key[i]]], key, d, c0, i + 1, |trees|)
  {
    var t2 := Graft(trees, cur, key[i]);
    var p2 := prefix + [prefix[cur] + [key[i]]];
    assert p2[..|t0|] == p0 by {
      assert p2[..|t0|] == prefix[..|t0|];
    }
    assert key[..i] + [key[i]] == key[..i + 1];
    forall j | |t0| <= j < |t2|
      ensures && p2[j] == key[..d + 1 + (j - |t0|)]
              && Content(t2[j].root) == if j + 1 < |t2| then map[key[d + 1 + (j - |t0|)] := Subtree(j + 1)] else map[]
    {
      if j == |trees| {
        assert t2[j] == EmptyTree();
      }
    }
  }

  /** How insertion of data under key changed the arena t0 (prefixes p0) into trees: the trees
      along key that existed are reused, and one new tree per missing inner dimension is
      appended, each holding only the entry for the next key component. */
  ghost predicate InsertShape<T>(t0: Arena<T>, p0: seq<seq<int>>, trees: Arena<T>, prefix: seq<seq<int>>,
                                  key: seq<int>, data: Option<T>, dims: nat)
    requires |key| == dims
  {
    var d := ReusedDepth(t0, key, dims, 0, 0);
    var c := ReusedTree(t0, key, dims, 0, 0);
    && c < |t0| && |t0| <= |trees| && |t0| <= |prefix|
    && |trees| == |t0| + (dims - 1 - d)
    && prefix[..|t0|] == p0
    && (forall j :: 0 <= j < |t0| && j != c ==> trees[j] == t0[j])
    && Content(trees[c].root) == Content(t0[c].root)[key[d] := if d + 1 < dims then Subtree(|t0|) else Data(data)]
    && (forall j :: |t0| <= j < |trees| ==>
          && j < |prefix|
          && prefix[j] == key[..d + 1 + (j - |t0|)]
          && Content(trees[j].root) == map[key[d + 1 + (j - |t0|)] := if j + 1 < |trees| then Subtree(j + 1) else Data(data)])
  }

  /** Walking down never returns to an earlier tree, and a non-empty walk ends inside
      the arena. */
  lemma {:induction false} WalkForward<T>(trees: Arena<T>, i: nat, p: seq<int>)
    requires Walk(trees, i, p).Some?
    ensures i <= Walk(trees, i, p).value
    ensures p != [] ==> Walk(trees, i, p).value < |trees|
    decreases |p|
  {
    if p != [] {
      WalkForward(trees, Step(trees, i, p[0]).value, p[1..]);
    }
  }

  /** A walk in trees that ends at a tree already present in t0 was a walk in t0, if
      trees differs from t0 only in tree c under key x, and only by pointing there at a
      tree that t0 lacks. */
  lemma {:induction false} WalkBack<T>(t0: Arena<T>, trees: Arena<T>, c: nat, x: int, i: nat, p: seq<int>)
    requires c < |t0| <= |trees| && i < |t0|
    requires forall j :: 0 <= j < |t0| && j != c ==> trees[j] == t0[j]
    requires forall k :: k != x ==> (k in Content(trees[c].root) <==> k in Content(t0[c].root))
    requires forall k :: k != x && k in Content(t0[c].root) ==> Content(trees[c].root)[k] == Content(t0[c].root)[k]
    requires x in Content(trees[c].root) && Content(trees[c].root)[x].Subtree? ==> Content(trees[c].root)[x].handle >= |t0|
    requires Walk(trees, i, p).Some? && Walk(trees, i, p).value < |t0|
    ensures Walk(t0, i, p) == Walk(trees, i, p)
    decreases |p|
  {
    if p != [] {
      var h := Step(trees, i, p[0]).value;
      WalkForward(trees, h, p[1..]);
      assert Step(t0, i, p[0]) == Some(h);
      WalkBack(t0, trees, c, x, h, p[1..]);
    }
  }

  /** Insertion creates no stale subtree: every tree it appends holds one entry, and the
      tree it reuses last gains one. */
  lemma InsertKeepsFresh<T>(t0: Arena<T>, p0: seq<seq<int>>, trees: Arena<T>, prefix: seq<seq<int>>,
                            key: seq<int>, data: Option<T>, dims: nat)
    requires |key| == dims && InsertShape(t0, p0, trees, prefix, key, data, dims)
    requires NoStaleSubtrees(t0)
    ensures NoStaleSubtrees(trees)
  {
    var d := ReusedDepth(t0, key, dims, 0, 0);
    var c := ReusedTree(t0, key, dims, 0, 0);
    forall p | p != [] && Walk(trees, 0, p).Some?
      ensures Walk(trees, 0, p).value < |trees| && trees[Walk(trees, 0, p).value].root.Node?
    {
      var j := Walk(trees, 0, p).value;
      WalkForward(trees, 0, p);
      if j >= |t0| {
        assert key[d + 1 + (j - |t0|)] in Content(trees[j].root);
      } else if j == c {
        assert key[d] in Content(trees[c].root);
      } else {
        WalkBack(t0, trees, c, key[d], 0, p);
      }
    }
  }

  /** The final store of insertion completes the shape of the new trees. */
  lemma GraftedFinal<T>(t0: Arena<T>, p0: seq<seq<int>>, trees: Arena<T>, prefix: seq<seq<int>>,
                        key: seq<int>, d: nat, c0: nat, i: nat, cur: nat, data: Option<T>, t2: Arena<T>)
    requires i + 1 == |key| && Grafted(t0, p0, trees, prefix, key, d, c0, i, cur)
    requires cur < |trees| && trees[cur].Valid()
    requires t2 == trees[cur := trees[cur].Insert(key[|key| - 1], Data(data))]
    requires d == ReusedDepth(t0, key, |key|, 0, 0) && c0 == ReusedTree(t0, key, |key|, 0, 0)
    ensures InsertShape(t0, p0, t2, prefix, key, data, |key|)
  {
  }

  /** The invariant of the second loop of insertion: the arena is well formed, maps what t0
      maps, has the shape Grafted describes, and cur is the tree at key[..i]. */
  ghost predicate InsertInv<T>(t0: Arena<T>, p0: seq<seq<int>>, trees: Arena<T>, prefix: seq<seq<int>>,
                                key: seq<int>, dims: nat, d: nat, c0: nat, i: nat, cur: nat)
  {
    && Wf(trees, prefix, dims) && |key| == dims && i < dims && cur < |trees|
    && Walk(trees, 0, key[..i]) == Some(cur) && prefix[cur] == key[..i]
    && (i + 1 < dims ==> key[i] !in Content(trees[cur].root))
    && (forall K :: Get(trees, 0, K) == Get(t0, 0, K))
    && Grafted(t0, p0, trees, prefix, key, d, c0, i, cur)
  }

  lemma InsertInvStart<T>(t0: Arena<T>, p0: seq<seq<int>>, key: seq<int>, dims: nat, d: nat, c0: nat)
    requires Wf(t0, p0, dims) && |key| == dims && d < dims && c0 < |t0|
    requires Walk(t0, 0, key[..d]) == Some(c0) && p0[c0] == key[..d]
    requires d + 1 < dims ==> key[d] !in Content(t0[c0].root)
    ensures InsertInv(t0, p0, t0, p0, key, dims, d, c0, d, c0)
  {
    assert p0[..|t0|] == p0;
  }

  /** One iteration of the second loop of insertion keeps its invariant. */
  lemma InsertInvStep<T>(t0: Arena<T>, p0: seq<seq<int>>, trees: Arena<T>, prefix: seq<seq<int>>,
                         key: seq<int>, dims: nat, d: nat, c0: nat, i: nat, cur: nat,
                         trees': Arena<T>, prefix': seq<seq<int>>, i': nat, cur': nat)
    requires InsertInv(t0, p0, trees, prefix, key, dims, d, c0, i, cur) && i + 1 < dims
    requires trees' == Graft(trees, cur, key[i]) && prefix' == prefix + [prefix[cur] + [key[i]]]
    requires i' == i + 1 && cur' == |trees|
    ensures InsertInv(t0, p0, trees', prefix', key, dims, d, c0, i', cur')
  {
    GraftWf(trees, prefix, dims, cur, key[i]);
    forall K
      ensures Get(Graft(trees, cur, key[i]), 0, K) == Get(trees, 0, K)
    {
      GraftGet(trees, cur, key[i], 0, K);
    }
    GraftWalk(trees, cur, key[i], key[..i]);
    GraftedStep(t0, p0, trees, prefix, key, d, c0, i, cur);
    assert key[..i + 1] == key[..i] + [key[i]];
  }

  /** The final store of insertion maps key to data, changes no other lookup and leaves the
      arena in the shape that reuses the trees t0 had and adds the missing ones. */
  lemma InsertInvFinal<T>(t0: Arena<T>, p0: seq<seq<int>>, trees: Arena<T>, prefix: seq<seq<int>>,
                          key: seq<int>, dims: nat, d: nat, c0: nat, i: nat, cur: nat, data: Option<T>,
                          t2: Arena<T>)
    requires InsertInv(t0, p0, trees, prefix, key, dims, d, c0, i, cur) && i + 1 == dims
    requires t2 == trees[cur := trees[cur].Insert(key[dims - 1], Data(data))]
    requires d == ReusedDepth(t0, key, dims, 0, 0) && c0 == ReusedTree(t0, key, dims, 0, 0)
    ensures InsertShape(t0, p0, t2, prefix, key, data, dims)
    ensures && Wf(t2, prefix, dims)
            && (forall K :: Get(t2, 0, K) == if K == key then Some(data) else Get(t0, 0, K))
  {
    InsertData(trees, prefix, dims, cur, key, data);
    GraftedFinal(t0, p0, trees, prefix, key, d, c0, i, cur, data, t2);
    forall K
      ensures Get(t2, 0, K) == if K == key then Some(data) else Get(t0, 0, K)
    {
      assert Get(trees, 0, K) == Get(t0, 0, K);
    }
  }

  /** Deleting key x from tree c unmaps every composite key that extends tree c's prefix
      and x, and changes nothing else. */
  lemma DeleteEntry<T>(trees: Arena<T>, prefix: seq<seq<int>>, dims: nat, c: nat, x: int)
    requires Wf(trees, prefix, dims) && c < |trees| && trees[c].Valid()
    requires Walk(trees, 0, prefix[c]) == Some(c)
    ensures Wf(trees[c := trees[c].Delete(x).0], prefix, dims)
    ensures forall K :: Get(trees[c := trees[c].Delete(x).0], 0, K)
                        == if prefix[c] + [x] <= K then None else Get(trees, 0, K)
  {
    var t := trees[c].Delete(x).0;
    var t2 := trees[c := t];
    assert TreeOk(trees, prefix, dims, c);
    forall k | k in Content(t.root)
      ensures PayloadOk(trees, prefix, dims, c, k, Content(t.root)[k])
    {
      assert PayloadOk(trees, prefix, dims, c, k, Content(trees[c].root)[k]);
    }
    ReplaceWf(trees, prefix, dims, c, t);
    ReplaceGet(trees, prefix, dims, c, x, t);
    forall K | prefix[c] + [x] <= K
      ensures Get(t2, 0, K).None?
    {
      WalkFrame(trees, t2, 0, prefix[c]);
      LookupBelow(t2, prefix, dims, c, K);
      assert K[|prefix[c]|..][0] == x;
    }
  }

  /** The second loop of insertion: from tree cur, at key[..i], creates the trees of the
      remaining inner dimensions, grafting each into the previous one under the next key
      component, and returns the last one created (cur itself if none was missing). */
  method GraftMissing<T>(trees: Arena<T>, ghost prefix: seq<seq<int>>, key: seq<int>, dims: nat, i: nat, cur: nat)
    returns (trees': Arena<T>, ghost prefix': seq<seq<int>>, last: nat)
    requires InsertInv(trees, prefix, trees, prefix, key, dims, i, cur, i, cur)
    ensures InsertInv(trees, prefix, trees', prefix', key, dims, i, cur, dims - 1, last)
  {
    trees', prefix', last := trees, prefix, cur;
    var k := i;
    while k < dims - 1
      invariant InsertInv(trees, prefix, trees', prefix', key, dims, i, cur, k, last)
    {
      ghost var before, prefixBefore, kBefore, lastBefore := trees', prefix', k, last;
      var daughter := EmptyTree();
      var handle: nat := |trees'|;
      trees' := (trees' + [daughter])[last := trees'[last].Insert(key[k], Subtree(handle))];
      prefix' := prefix' + [prefix'[last] + [key[k]]];
      last := handle;
      k := k + 1;
      InsertInvStep(trees, prefix, before, prefixBefore, key, dims, i, cur, kBefore, lastBefore, trees', prefix', k, last);
    }
  }

  /** If descending along key stops at tree c, at key[..i], because c does not hold key[i],
      then the tree that would hold the last component is missing and nothing under key is
      mapped. */
  lemma MissingBelow<T>(trees: Arena<T>, key: seq<int>, i: nat, c: nat)
    requires i + 1 < |key| && c < |trees| && Walk(trees, 0, key[..i]) == Some(c)
    requires key[i] !in Content(trees[c].root)
    ensures Walk(trees, 0, key[..|key| - 1]).None?
    ensures forall K :: key <= K ==> Get(trees, 0, K).None?
  {
    WalkAppend(trees, 0, key[..i], [key[i]]);
    assert key[..i] + [key[i]] == key[..i + 1];
    WalkAppend(trees, 0, key[..i + 1], key[i + 1..|key| - 1]);
    assert key[..i + 1] + key[i + 1..|key| - 1] == key[..|key| - 1];
    forall K | key <= K
      ensures Get(trees, 0, K).None?
    {
      assert K == key[..|key| - 1] + K[|key| - 1..];
      WalkNoneGet(trees, 0, key[..|key| - 1], K[|key| - 1..]);
    }
  }

  /** Insertion after the first loop: grafts the missing trees below tree cur, at key[..i],
      and stores data under the last key component in the last tree reached. */
  method CompleteInsert<T>(trees: Arena<T>, ghost prefix: seq<seq<int>>, key: seq<int>, dims: nat,
                           i: nat, cur: nat, data: Option<T>)
    returns (trees': Arena<T>, ghost prefix': seq<seq<int>>)
    requires InsertInv(trees, prefix, trees, prefix, key, dims, i, cur, i, cur)
    requires i == ReusedDepth(trees, key, dims, 0, 0) && cur == ReusedTree(trees, key, dims, 0, 0)
    ensures Wf(trees', prefix', dims)
    ensures forall K :: Get(trees', 0, K) == if K == key then Some(data) else Get(trees, 0, K)
    ensures InsertShape(trees, prefix, trees', prefix', key, data, dims)
  {
    var arena, prefixes, last := GraftMissing(trees, prefix, key, dims, i, cur);
    trees' := arena[last := arena[last].Insert(key[dims - 1], Data(data))];
    prefix' := prefixes;
    InsertInvFinal(trees, prefix, arena, prefixes, key, dims, i, cur, dims - 1, last, data, trees');
  }

  // ---------------------------------------------------------------------------
  // The multidimensional tree

  class MultiTree<T> {
    /** The number of components of a composite key. */
    const dimensions: nat
    /** The trees, by handle; trees[0] is the first dimension's tree. */
    var trees: Arena<T>
    /** The composite-key prefix under which each tree hangs. */
    ghost var prefix: seq<seq<int>>

    ghost predicate Valid()
      reads this
    {
      Wf(trees, prefix, dimensions)
    }

    /** What the structure maps the composite key K to. */
    ghost function Lookup(K: seq<int>): Option<Option<T>>
      reads this
    {
      Get(trees, 0, K)
    }

    ghost predicate IsNode(n: NodeRef)
      reads this
    {
      n.tree < |trees| && At(trees[n.tree].root, n.pos).Node?
    }

    /** The composite key of node n: its tree's prefix followed by the node's own key. */
    ghost function KeyOf(n: NodeRef): seq<int>
      reads this
      requires IsNode(n) && |prefix| == |trees|
    {
      prefix[n.tree] + [At(trees[n.tree].root, n.pos).key]
    }

    ghost function PayloadOf(n: NodeRef): Payload<T>
      reads this
      requires IsNode(n)
    {
      At(trees[n.tree].root, n.pos).data
    }

    constructor (dimensions: nat)
      requires dimensions >= 1
      ensures Valid() && this.dimensions == dimensions
      ensures trees == [EmptyTree()]
      ensures forall K :: Lookup(K).None?
      ensures NoStaleSubtrees(trees)
    {
      this.dimensions := dimensions;
      trees := [EmptyTree()];
      prefix := [[]];
    }

    /** Maps the first dimensions components of key to data (further components are not
        read).  Existing trees along the key are reused; the missing ones are created one
        per remaining inner dimension and each is grafted into the previous. */
    method Insert(key: seq<int>, data: Option<T>)
      requires Valid() && |key| >= dimensions
      modifies this
      ensures Valid()
      ensures forall K :: Lookup(K) == if K == key[..dimensions] then Some(data) else old(Lookup(K))
      ensures InsertShape(old(trees), old(prefix), trees, prefix, key[..dimensions], data, dimensions)
      ensures old(NoStaleSubtrees(trees)) ==> NoStaleSubtrees(trees)
    {
      var k := key[..dimensions];
      var i, cur := DeepestTree(k);
      InsertInvStart(trees, prefix, k, dimensions, i, cur);
      var arena, prefixes := CompleteInsert(trees, prefix, k, dimensions, i, cur, data);
      trees, prefix := arena, prefixes;
      if old(NoStaleSubtrees(trees)) {
        InsertKeepsFresh(old(trees), old(prefix), trees, prefix, k, data, dimensions);
      }
    }

    /** The first loop of insertion: descends from the first dimension's tree along key
        while the next tree exists, stopping at the tree of the last dimension. */
    method DeepestTree(key: seq<int>) returns (i: nat, cur: nat)
      requires Valid() && |key| == dimensions
      ensures i == ReusedDepth(trees, key, dimensions, 0, 0) && cur == ReusedTree(trees, key, dimensions, 0, 0)
      ensures i < dimensions && cur < |trees| && Walk(trees, 0, key[..i]) == Some(cur) && prefix[cur] == key[..i]
      ensures i + 1 < dimensions ==> key[i] !in Content(trees[cur].root)
    {
      cur := 0;
      i := 0;
      var next := trees[cur].FindNodeByKey(key[i]);
      while i < dimensions - 1 && next.Some?
        invariant i < dimensions && cur < |trees|
        invariant Walk(trees, 0, key[..i]) == Some(cur) && prefix[cur] == key[..i]
        invariant next == trees[cur].FindNodeByKey(key[i])
        invariant ReusedDepth(trees, key, dimensions, i, cur) == ReusedDepth(trees, key, dimensions, 0, 0)
        invariant ReusedTree(trees, key, dimensions, i, cur) == ReusedTree(trees, key, dimensions, 0, 0)
        decreases dimensions - i
      {
        ReusedStep(trees, prefix, dimensions, key, i, cur);
        i, cur := i + 1, At(trees[cur].root, next.value).data.handle;
        next := trees[cur].FindNodeByKey(key[i]);
      }
    }

    /** Removes the entry for key, a composite key of 1 to dimensions components (a shorter
        key removes the whole subtree under it), and returns its payload. */
    method Delete(key: seq<int>) returns (r: Option<Payload<T>>)
      requires Valid()
      modifies this
      ensures Valid() && prefix == old(prefix)
      ensures forall K :: Lookup(K) == if 1 <= |key| <= dimensions && key <= K then None else old(Lookup(K))
      ensures !(1 <= |key| <= dimensions) ==> r.None? && trees == old(trees)
      ensures 1 <= |key| <= dimensions && Walk(old(trees), 0, key[..|key| - 1]).None? ==> r.None? && trees == old(trees)
      ensures 1 <= |key| <= dimensions && Walk(old(trees), 0, key[..|key| - 1]).Some? ==>
                var c := Walk(old(trees), 0, key[..|key| - 1]).value;
                c < |trees| == old(|trees|)
                && trees == old(trees)[c := old(trees)[c].Delete(key[|key| - 1]).0]
                && r == old(trees)[c].Delete(key[|key| - 1]).1
    {
      if |key| < 1 || |key| > dimensions {
        return None;
      }
      var cur := 0;
      for i := 0 to |key| - 1
        invariant trees == old(trees) && prefix == old(prefix)
        invariant Valid() && cur < |trees| && Walk(trees, 0, key[..i]) == Some(cur) && prefix[cur] == key[..i]
      {
        var found := trees[cur].FindNodeByKey(key[i]);
        if found.None? {
          MissingBelow(trees, key, i, cur);
          return None;
        }
        DescendStep(trees, prefix, dimensions, cur, key[i]);
        assert key[..i + 1] == key[..i] + [key[i]];
        cur := At(trees[cur].root, found.value).data.handle;
      }
      assert key[..|key| - 1] + [key[|key| - 1]] == key;
      DeleteEntry(trees, prefix, dimensions, cur, key[|key| - 1]);
      var result := trees[cur].Delete(key[|key| - 1]);
      trees := trees[cur := result.0];
      r := result.1;
    }

    /** The node holding the first dimensions components of key, if any (further
        components are not read). */
    method FindNodeByKey(key: seq<int>) returns (r: Option<NodeRef>)
      requires Valid() && |key| >= dimensions
      ensures r.None? <==> Lookup(key[..dimensions]).None?
      ensures r.Some? ==> IsNode(r.value) && KeyOf(r.value) == key[..dimensions]
      ensures r.Some? ==> PayloadOf(r.value) == Data(Lookup(key[..dimensions]).value)
      ensures r.Some? ==> Walk(trees, 0, key[..dimensions - 1]) == Some(r.value.tree)
    {
      r := FindNode(key[..dimensions]);
      assert key[..dimensions][..dimensions - 1] == key[..dimensions - 1];
    }

    /** FindNodeByKey for a key of exactly dimensions components. */
    method FindNode(key: seq<int>) returns (r: Option<NodeRef>)
      requires Valid() && |key| == dimensions
      ensures r.None? <==> Lookup(key).None?
      ensures r.Some? ==> IsNode(r.value) && KeyOf(r.value) == key
      ensures r.Some? ==> PayloadOf(r.value) == Data(Lookup(key).value)
      ensures r.Some? ==> Walk(trees, 0, key[..dimensions - 1]) == Some(r.value.tree)
    {
      var cur := 0;
      for i := 0 to dimensions - 1
        invariant cur < |trees| && Walk(trees, 0, key[..i]) == Some(cur) && prefix[cur] == key[..i]
      {
        var found := trees[cur].FindNodeByKey(key[i]);
        if found.None? {
          WalkAppend(trees, 0, key[..i], [key[i]]);
          assert key[..i] + [key[i]] == key[..i + 1] && key == key[..i + 1] + key[i + 1..];
          WalkNoneGet(trees, 0, key[..i + 1], key[i + 1..]);
          return None;
        }
        DescendStep(trees, prefix, dimensions, cur, key[i]);
        assert key[..i + 1] == key[..i] + [key[i]];
        cur := At(trees[cur].root, found.value).data.handle;
      }
      var found := trees[cur].FindNodeByKey(key[dimensions - 1]);
      assert key[..dimensions - 1] + [key[dimensions - 1]] == key;
      WalkGet(trees, 0, key[..dimensions - 1], [key[dimensions - 1]]);
      if found.None? {
        return None;
      }
      assert TreeOk(trees, prefix, dimensions, cur);
      assert PayloadOk(trees, prefix, dimensions, cur, key[dimensions - 1], Content(trees[cur].root)[key[dimensions - 1]]);
      r := Some(NodeRef(cur, found.value));
    }

    /** The node of the lexicographically least composite key; None if the first
        dimension's tree is empty or the descent meets an empty subtree. */
    method GetMinNode() returns (r: Option<NodeRef>)
      requires Valid()
      ensures r.Some? ==> IsNode(r.value) && PayloadOf(r.value).Data?
      ensures r.Some? ==> Lookup(KeyOf(r.value)) == Some(PayloadOf(r.value).value)
      ensures r.Some? ==> IsLexMin(trees, KeyOf(r.value))
      ensures r.Some? ==> Walk(trees, 0, prefix[r.value.tree]) == Some(r.value.tree)
      ensures r.None? && NoStaleSubtrees(trees) ==> forall K :: Lookup(K).None?
    {
      r := GetExtremeNode(true);
    }

    /** The node of the lexicographically greatest composite key; None if the first
        dimension's tree is empty or the descent meets an empty subtree. */
    method GetMaxNode() returns (r: Option<NodeRef>)
      requires Valid()
      ensures r.Some? ==> IsNode(r.value) && PayloadOf(r.value).Data?
      ensures r.Some? ==> Lookup(KeyOf(r.value)) == Some(PayloadOf(r.value).value)
      ensures r.Some? ==> IsLexMax(trees, KeyOf(r.value))
      ensures r.Some? ==> Walk(trees, 0, prefix[r.value.tree]) == Some(r.value.tree)
      ensures r.None? && NoStaleSubtrees(trees) ==> forall K :: Lookup(K).None?
    {
      r := GetExtremeNode(false);
    }

    /** Descends through the least (or greatest) node of every dimension's tree. */
    method GetExtremeNode(least: bool) returns (r: Option<NodeRef>)
      requires Valid()
      ensures r.Some? ==> IsNode(r.value) && PayloadOf(r.value).Data?
      ensures r.Some? ==> Lookup(KeyOf(r.value)) == Some(PayloadOf(r.value).value)
      ensures r.Some? ==> if least then IsLexMin(trees, KeyOf(r.value)) else IsLexMax(trees, KeyOf(r.value))
      ensures r.Some? ==> Walk(trees, 0, prefix[r.value.tree]) == Some(r.value.tree)
      ensures r.None? && NoStaleSubtrees(trees) ==> forall K :: Lookup(K).None?
    {
      var cur: nat := 0;
      for i := 0 to dimensions - 1
        invariant cur < |trees| && Walk(trees, 0, prefix[cur]) == Some(cur) && |prefix[cur]| == i
        invariant forall K :: Get(trees, 0, K).Some? ==> Bounds(least, prefix[cur], K)
      {
        var m: Option<Path>;
        if least { m := trees[cur].GetMinNode(); } else { m := trees[cur].GetMaxNode(); }
        if m.None? {
          EmptyReached(trees, prefix, dimensions, cur);
          return None;
        }
        var node := At(trees[cur].root, m.value);
        ExtremeBound(trees, prefix, dimensions, least, cur, node.key);
        DescendStep(trees, prefix, dimensions, cur, node.key);
        cur := node.data.handle;
      }
      var m: Option<Path>;
      if least { m := trees[cur].GetMinNode(); } else { m := trees[cur].GetMaxNode(); }
      if m.None? {
        EmptyReached(trees, prefix, dimensions, cur);
        return None;
      }
      var node := At(trees[cur].root, m.value);
      ExtremeBound(trees, prefix, dimensions, least, cur, node.key);
      ExtremeFound(trees, prefix, dimensions, least, cur, node.key);
      r := Some(NodeRef(cur, m.value));
    }

    /** The data stored under key; None both when key is absent and when None is stored. */
    method FindDataByKey(key: seq<int>) returns (r: Option<T>)
      requires Valid() && |key| >= dimensions
      ensures r == if Lookup(key[..dimensions]).Some? then Lookup(key[..dimensions]).value else None
    {
      var node := FindNodeByKey(key);
      if node.Some? {
        return At(trees[node.value.tree].root, node.value.pos).data.value;
      }
      return None;
    }

    /** The data of the least composite key; None also when that data is None, and when
        the descent meets an empty subtree. */
    method GetMinData() returns (r: Option<T>)
      requires Valid()
      ensures r.Some? ==> exists K :: IsLexMin(trees, K) && Lookup(K) == Some(r)
      ensures NoStaleSubtrees(trees) ==> forall K :: IsLexMin(trees, K) ==> Lookup(K) == Some(r)
    {
      r := GetExtremeData(true);
    }

    /** The data of the greatest composite key; None also when that data is None, and when
        the descent meets an empty subtree. */
    method GetMaxData() returns (r: Option<T>)
      requires Valid()
      ensures r.Some? ==> exists K :: IsLexMax(trees, K) && Lookup(K) == Some(r)
      ensures NoStaleSubtrees(trees) ==> forall K :: IsLexMax(trees, K) ==> Lookup(K) == Some(r)
    {
      r := GetExtremeData(false);
    }

    /** The data of the node GetExtremeNode finds; None when it finds none. */
    method GetExtremeData(least: bool) returns (r: Option<T>)
      requires Valid()
      ensures r.Some? ==> exists K :: (if least then IsLexMin(trees, K) else IsLexMax(trees, K)) && Lookup(K) == Some(r)
      ensures NoStaleSubtrees(trees) ==>
                forall K :: (if least then IsLexMin(trees, K) else IsLexMax(trees, K)) ==> Lookup(K) == Some(r)
    {
      var node := GetExtremeNode(least);
      if node.None? {
        return None;
      }
      r := At(trees[node.value.tree].root, node.value.pos).data.value;
      ghost var R := KeyOf(node.value);
      forall K | if least then IsLexMin(trees, K) else IsLexMax(trees, K)
        ensures Lookup(K) == Some(r)
      {
        ExtremeUnique(trees, prefix, dimensions, least, K, R);
      }
    }
  }

  /** A structure built by inserts alone has no stale subtree, so its least data is found:
      after one insertion into a new two-dimensional tree, it is the inserted data. */
  method SingleInsertMin(x: int) returns (r: Option<int>)
    ensures r == Some(x)
  {
    var m := new MultiTree<int>(2);
    m.Insert([1, 2], Some(x));
    assert IsLexMin(m.trees, [1, 2]);
    r := m.GetMinData();
  }
}
