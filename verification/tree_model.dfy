/** The value-level picture of the unbalanced binary search tree that indexes
    students by ID: the shape the nodes form, the recursive insert and delete
    of the source written as functions on that shape, and the facts about them
    (search order, key set, size, in-order listing). Keys are strings compared
    with Python's `<`. */
module TreeModel {
  import opened Wrappers
  import opened Text

  datatype Tree<V> = Leaf | Node(left: Tree<V>, key: string, value: V, right: Tree<V>)

  /** The keys held anywhere in the tree. */
  ghost function Keys<V>(t: Tree<V>): set<string> {
    match t
    case Leaf => {}
    case Node(l, k, _, r) => Keys(l) + {k} + Keys(r)
  }

  /** Every key in a left subtree is below its node's key, every key in a right
      subtree above it. */
  ghost predicate IsBST<V>(t: Tree<V>) {
    match t
    case Leaf => true
    case Node(l, k, _, r) =>
      && IsBST(l) && IsBST(r)
      && (forall x :: x in Keys(l) ==> Less(x, k))
      && (forall x :: x in Keys(r) ==> Less(k, x))
  }

  /** `_compute_size`: the number of nodes. */
  function Size<V>(t: Tree<V>): nat {
    match t
    case Leaf => 0
    case Node(l, _, _, r) => 1 + Size(l) + Size(r)
  }

  /** `search`: follows the path `<` / `>` chooses and returns the value at the
      node whose key is neither smaller nor larger. */
  function Find<V>(t: Tree<V>, k: string): Option<V> {
    match t
    case Leaf => None
    case Node(l, nk, nv, r) =>
      if Less(k, nk) then Find(l, k)
      else if Less(nk, k) then Find(r, k)
      else Some(nv)
  }

  /** `_ins`: a new leaf node where the path ends, or the value replaced at the
      node holding the key. */
  function Insert<V>(t: Tree<V>, k: string, v: V): Tree<V> {
    match t
    case Leaf => Node(Leaf, k, v, Leaf)
    case Node(l, nk, nv, r) =>
      if Less(k, nk) then Node(Insert(l, k, v), nk, nv, r)
      else if Less(nk, k) then Node(l, nk, nv, Insert(r, k, v))
      else Node(l, nk, v, r)
  }

  /** `_min`: the key and value of the leftmost node. */
  function Min<V>(t: Tree<V>): (string, V)
    requires t.Node?
  {
    if t.left.Leaf? then (t.key, t.value) else Min(t.left)
  }

  /** `_del`: a node with at most one child is replaced by that child; a node
      with two takes the key and value of its in-order successor, which is then
      deleted from the right subtree. */
  function Delete<V>(t: Tree<V>, k: string): Tree<V> {
    match t
    case Leaf => Leaf
    case Node(l, nk, nv, r) =>
      if Less(k, nk) then Node(Delete(l, k), nk, nv, r)
      else if Less(nk, k) then Node(l, nk, nv, Delete(r, k))
      else if l.Leaf? then r
      else if r.Leaf? then l
      else
        var (mk, mv) := Min(r);
        Node(l, mk, mv, Delete(r, mk))
  }

  /** `_in`: left subtree, then the node's pair, then the right subtree. */
  function InOrder<V>(t: Tree<V>): seq<(string, V)> {
    match t
    case Leaf => []
    case Node(l, k, v, r) => InOrder(l) + [(k, v)] + InOrder(r)
  }

  /** `<` on strings is asymmetric. */
  lemma Asym(a: string, b: string)
    requires Less(a, b)
    ensures !Less(b, a) && a != b
  {
    LessIrreflexive(a);
    if Less(b, a) {
      LessTransitive(a, b, a);
    }
  }

  /** Insertion adds exactly its key. */
  lemma {:induction false} InsertKeys<V>(t: Tree<V>, k: string, v: V)
    ensures Keys(Insert(t, k, v)) == Keys(t) + {k}
  {
    match t
    case Leaf =>
    case Node(l, nk, nv, r) =>
      if Less(k, nk) {
        InsertKeys(l, k, v);
      } else if Less(nk, k) {
        InsertKeys(r, k, v);
      } else {
        LessTotal(k, nk);
      }
  }

  /** Insertion keeps the search-tree order. */
  lemma {:induction false} InsertBST<V>(t: Tree<V>, k: string, v: V)
    requires IsBST(t)
    ensures IsBST(Insert(t, k, v))
  {
    match t
    case Leaf =>
    case Node(l, nk, nv, r) =>
      if Less(k, nk) {
        InsertBST(l, k, v);
        InsertKeys(l, k, v);
      } else if Less(nk, k) {
        InsertBST(r, k, v);
        InsertKeys(r, k, v);
      }
  }

  /** In a search tree, `search` finds a value exactly for the keys present. */
  lemma {:induction false} FindKeys<V>(t: Tree<V>, j: string)
    requires IsBST(t)
    ensures Find(t, j).Some? <==> j in Keys(t)
  {
    match t
    case Leaf =>
    case Node(l, nk, nv, r) =>
      if Less(j, nk) {
        FindKeys(l, j);
        Asym(j, nk);
        if j in Keys(r) {
          LessTransitive(j, nk, j);
          LessIrreflexive(j);
        }
      } else if Less(nk, j) {
        FindKeys(r, j);
        Asym(nk, j);
        if j in Keys(l) {
          LessTransitive(j, nk, j);
          LessIrreflexive(j);
        }
      } else {
        LessTotal(j, nk);
      }
  }

  /** After inserting `k` with `v`, searching for `k` gives `v` and searching
      for any other key gives what it gave before. */
  lemma {:induction false} InsertFind<V>(t: Tree<V>, k: string, v: V, j: string)
    requires IsBST(t)
    ensures Find(Insert(t, k, v), j) == if j == k then Some(v) else Find(t, j)
  {
    match t
    case Leaf =>
      LessIrreflexive(j);
      if j != k {
        LessTotal(j, k);
      }
    case Node(l, nk, nv, r) =>
      if Less(k, nk) {
        InsertFind(l, k, v, j);
        if j == k {
          Asym(k, nk);
        }
      } else if Less(nk, k) {
        InsertFind(r, k, v, j);
        if j == k {
          Asym(nk, k);
        }
      } else {
        LessTotal(k, nk);
        LessTotal(j, k);
        LessIrreflexive(k);
      }
  }

  /** The leftmost pair is in the tree and its key is the smallest. */
  lemma {:induction false} MinIsLeast<V>(t: Tree<V>)
    requires t.Node? && IsBST(t)
    ensures Min(t).0 in Keys(t) && Find(t, Min(t).0) == Some(Min(t).1)
    ensures forall x :: x in Keys(t) && x != Min(t).0 ==> Less(Min(t).0, x)
  {
    var m := Min(t);
    if t.left.Leaf? {
      LessIrreflexive(t.key);
    } else {
      MinIsLeast(t.left);
      assert Less(m.0, t.key);
      Asym(m.0, t.key);
      forall x | x in Keys(t) && x != m.0 ensures Less(m.0, x) {
        if x == t.key {
        } else if x in Keys(t.right) {
          LessTransitive(m.0, t.key, x);
        }
      }
    }
  }

  /** Deletion removes exactly its key (from a search tree). */
  lemma {:induction false} DeleteKeys<V>(t: Tree<V>, k: string)
    requires IsBST(t)
    ensures Keys(Delete(t, k)) == Keys(t) - {k}
  {
    match t
    case Leaf =>
    case Node(l, nk, nv, r) =>
      if Less(k, nk) {
        DeleteKeys(l, k);
        FindKeys(t, k);
        Asym(k, nk);
        forall x | x in Keys(r) ensures x != k {
          LessTransitive(k, nk, x);
          LessIrreflexive(k);
        }
      } else if Less(nk, k) {
        DeleteKeys(r, k);
        Asym(nk, k);
        forall x | x in Keys(l) ensures x != k {
          LessTransitive(x, nk, k);
          LessIrreflexive(k);
        }
      } else {
        LessTotal(k, nk);
        NotInOwnSubtrees(t);
        if l.Node? && r.Node? {
          var (mk, mv) := Min(r);
          MinIsLeast(r);
          DeleteKeys(r, mk);
        }
      }
  }

  /** A node's key occurs in neither of its subtrees. */
  lemma NotInOwnSubtrees<V>(t: Tree<V>)
    requires t.Node? && IsBST(t)
    ensures t.key !in Keys(t.left) && t.key !in Keys(t.right)
  {
    LessIrreflexive(t.key);
  }

  /** Deletion keeps the search-tree order. */
  lemma {:induction false} DeleteBST<V>(t: Tree<V>, k: string)
    requires IsBST(t)
    ensures IsBST(Delete(t, k))
  {
    match t
    case Leaf =>
    case Node(l, nk, nv, r) =>
      if Less(k, nk) {
        DeleteBST(l, k);
        DeleteKeys(l, k);
      } else if Less(nk, k) {
        DeleteBST(r, k);
        DeleteKeys(r, k);
      } else if l.Node? && r.Node? {
        var (mk, mv) := Min(r);
        MinIsLeast(r);
        DeleteBST(r, mk);
        DeleteKeys(r, mk);
        forall x | x in Keys(l) ensures Less(x, mk) {
          LessTransitive(x, nk, mk);
        }
      }
  }

  /** After deleting `k`, searching for `k` finds nothing and searching for any
      other key gives what it gave before. */
  lemma {:induction false} DeleteFind<V>(t: Tree<V>, k: string, j: string)
    requires IsBST(t)
    ensures Find(Delete(t, k), j) == if j == k then None else Find(t, j)
    decreases t, 2
  {
    match t
    case Leaf =>
    case Node(l, nk, nv, r) =>
      if Less(k, nk) {
        DeleteFind(l, k, j);
        if j == k {
          Asym(k, nk);
        }
      } else if Less(nk, k) {
        DeleteFind(r, k, j);
        if j == k {
          Asym(nk, k);
        }
      } else {
        LessTotal(k, nk);
        DeleteRoot(t, j);
      }
  }

  /** `DeleteFind` at the node that holds the key. */
  lemma DeleteRoot<V>(t: Tree<V>, j: string)
    requires t.Node? && IsBST(t)
    ensures Find(Delete(t, t.key), j) == if j == t.key then None else Find(t, j)
    decreases t, 1
  {
    var Node(l, nk, nv, r) := t;
    LessIrreflexive(nk);
    FindKeys(t, j);
    FindKeys(l, j);
    FindKeys(r, j);
    if j == nk {
      NotInOwnSubtrees(t);
      if l.Node? && r.Node? {
        var (mk, mv) := Min(r);
        MinIsLeast(r);
        Asym(nk, mk);
      }
    } else if Less(j, nk) {
      Asym(j, nk);
      if l.Node? && r.Node? {
        var (mk, mv) := Min(r);
        MinIsLeast(r);
        LessTransitive(j, nk, mk);
      } else if l.Leaf? {
        assert j !in Keys(r) by {
          if j in Keys(r) {
            LessTransitive(j, nk, j);
          }
        }
      }
    } else {
      LessTotal(j, nk);
      Asym(nk, j);
      if l.Node? && r.Node? {
        DeleteRootRight(t, j);
      } else if r.Leaf? {
        assert j !in Keys(l) by {
          if j in Keys(l) {
            LessTransitive(j, nk, j);
          }
        }
      }
    }
  }

  /** `DeleteRoot` for a key above the root when both subtrees are non-empty:
      the successor's key decides between the left subtree, the successor
      itself and the rest of the right subtree. */
  lemma DeleteRootRight<V>(t: Tree<V>, j: string)
    requires t.Node? && IsBST(t) && t.left.Node? && t.right.Node?
    requires Less(t.key, j)
    ensures Find(Delete(t, t.key), j) == Find(t.right, j)
    decreases t, 0
  {
    var Node(l, nk, nv, r) := t;
    LessIrreflexive(nk);
    var (mk, mv) := Min(r);
    MinIsLeast(r);
    DeleteFind(r, mk, j);
    FindKeys(r, j);
    FindKeys(l, j);
    if Less(j, mk) {
      Asym(j, mk);
      assert j !in Keys(r);
      assert j !in Keys(l) by {
        if j in Keys(l) {
          LessTransitive(j, nk, j);
          LessIrreflexive(j);
        }
      }
    } else if Less(mk, j) {
      Asym(mk, j);
    } else {
      LessTotal(j, mk);
    }
  }

  /** The in-order listing has one pair per node. */
  lemma {:induction false} InOrderSize<V>(t: Tree<V>)
    ensures |InOrder(t)| == Size(t)
  {
    match t
    case Leaf =>
    case Node(l, _, _, r) =>
      InOrderSize(l);
      InOrderSize(r);
  }

  /** The keys listed in order are exactly the keys of the tree. */
  lemma InOrderKeys<V>(t: Tree<V>)
    ensures forall i :: 0 <= i < |InOrder(t)| ==> InOrder(t)[i].0 in Keys(t)
    ensures forall x :: x in Keys(t) ==> exists i :: 0 <= i < |InOrder(t)| && InOrder(t)[i].0 == x
  {
    forall i | 0 <= i < |InOrder(t)| ensures InOrder(t)[i].0 in Keys(t) {
      InOrderKeyAt(t, i);
    }
    forall x | x in Keys(t) ensures exists i :: 0 <= i < |InOrder(t)| && InOrder(t)[i].0 == x {
      var i := InOrderIndex(t, x);
    }
  }

  /** Every key the in-order listing holds is a key of the tree. */
  lemma {:induction false} InOrderKeyAt<V>(t: Tree<V>, i: nat)
    requires i < |InOrder(t)|
    ensures InOrder(t)[i].0 in Keys(t)
  {
    match t
    case Node(l, k, v, r) =>
      var a, b := InOrder(l), InOrder(r);
      assert InOrder(t) == a + [(k, v)] + b;
      if i < |a| {
        InOrderKeyAt(l, i);
        assert InOrder(t)[i] == a[i];
      } else if i > |a| {
        InOrderKeyAt(r, i - |a| - 1);
        assert InOrder(t)[i] == b[i - |a| - 1];
      }
  }

  /** Where a key of the tree sits in the in-order listing. */
  lemma {:induction false} InOrderIndex<V>(t: Tree<V>, x: string) returns (i: nat)
    requires x in Keys(t)
    ensures i < |InOrder(t)| && InOrder(t)[i].0 == x
  {
    match t
    case Node(l, k, v, r) =>
      var a, b := InOrder(l), InOrder(r);
      assert InOrder(t) == a + [(k, v)] + b;
      if x in Keys(l) {
        i := InOrderIndex(l, x);
        assert InOrder(t)[i] == a[i];
      } else if x in Keys(r) {
        var j := InOrderIndex(r, x);
        i := |a| + 1 + j;
        assert InOrder(t)[i] == b[j];
      } else {
        i := |a|;
      }
  }

  /** `inorder()` on a search tree lists its keys in strictly ascending order. */
  lemma {:induction false} InOrderAscending<V>(t: Tree<V>)
    requires IsBST(t)
    ensures forall i, j :: 0 <= i < j < |InOrder(t)| ==> Less(InOrder(t)[i].0, InOrder(t)[j].0)
  {
    match t
    case Leaf =>
    case Node(l, k, v, r) =>
      InOrderAscending(l);
      InOrderAscending(r);
      InOrderKeys(l);
      InOrderKeys(r);
      var a, b := InOrder(l), InOrder(r);
      var s := InOrder(t);
      assert s == a + [(k, v)] + b;
      forall i, j | 0 <= i < j < |s| ensures Less(s[i].0, s[j].0) {
        if j < |a| {
          assert s[i] == a[i] && s[j] == a[j];
        } else if i > |a| {
          assert s[i] == b[i - |a| - 1] && s[j] == b[j - |a| - 1];
        } else if i == |a| {
          assert s[j] == b[j - |a| - 1];
        } else if j == |a| {
          assert s[i] == a[i];
        } else {
          assert s[i] == a[i] && s[j] == b[j - |a| - 1];
          LessTransitive(s[i].0, k, s[j].0);
        }
      }
  }

  /** Every pair `inorder()` lists is what `search` finds for its key. */
  lemma {:induction false} InOrderFind<V>(t: Tree<V>)
    requires IsBST(t)
    ensures forall i :: 0 <= i < |InOrder(t)| ==> Find(t, InOrder(t)[i].0) == Some(InOrder(t)[i].1)
  {
    match t
    case Leaf =>
    case Node(l, k, v, r) =>
      InOrderFind(l);
      InOrderFind(r);
      InOrderKeys(l);
      InOrderKeys(r);
      var a, b := InOrder(l), InOrder(r);
      var s := InOrder(t);
      assert s == a + [(k, v)] + b;
      forall i | 0 <= i < |s| ensures Find(t, s[i].0) == Some(s[i].1) {
        if i < |a| {
          assert s[i] == a[i];
          Asym(a[i].0, k);
        } else if i > |a| {
          assert s[i] == b[i - |a| - 1];
          Asym(k, s[i].0);
        } else {
          LessIrreflexive(k);
        }
      }
  }

  /** In a search tree the node count is the number of distinct keys. */
  lemma {:induction false} SizeIsKeyCount<V>(t: Tree<V>)
    requires IsBST(t)
    ensures Size(t) == |Keys(t)|
  {
    match t
    case Leaf =>
    case Node(l, k, _, r) =>
      SizeIsKeyCount(l);
      SizeIsKeyCount(r);
      NotInOwnSubtrees(t);
      assert Keys(l) !! Keys(r) by {
        forall x | x in Keys(l) && x in Keys(r) ensures false {
          LessTransitive(x, k, x);
          LessIrreflexive(x);
        }
      }
  }

  /** The key-to-value map a tree stores: a node's own pair over the pairs of
      its two subtrees. */
  ghost function MapOf<V>(t: Tree<V>): map<string, V> {
    match t
    case Leaf => map[]
    case Node(l, k, v, r) => (MapOf(l) + MapOf(r))[k := v]
  }

  /** The stored map has exactly the tree's keys. */
  lemma {:induction false} MapOfKeys<V>(t: Tree<V>)
    ensures MapOf(t).Keys == Keys(t)
  {
    match t
    case Leaf =>
    case Node(l, _, _, r) =>
      MapOfKeys(l);
      MapOfKeys(r);
  }

  /** In a search tree, `search` reads the stored map: the value for a key that
      is present and `None` for any other. */
  lemma {:induction false} MapOfFind<V>(t: Tree<V>, j: string)
    requires IsBST(t)
    ensures Find(t, j) == if j in MapOf(t) then Some(MapOf(t)[j]) else None
  {
    match t
    case Leaf =>
    case Node(l, k, v, r) =>
      MapOfFind(l, j);
      MapOfFind(r, j);
      MapOfKeys(l);
      MapOfKeys(r);
      if Less(j, k) {
        Asym(j, k);
        if j in Keys(r) {
          LessTransitive(j, k, j);
          LessIrreflexive(j);
        }
      } else if Less(k, j) {
        Asym(k, j);
      } else {
        LessTotal(j, k);
      }
  }

  /** `t` is a search tree holding exactly the pairs of `m`. */
  ghost predicate Represents<V>(t: Tree<V>, m: map<string, V>) {
    IsBST(t) && MapOf(t) == m
  }

  /** A tree that represents a map holds the map's keys, and `search` answers
      with the map's value for each key and `None` for every other. */
  lemma RepresentsFind<V>(t: Tree<V>, m: map<string, V>, j: string)
    requires Represents(t, m)
    ensures Keys(t) == m.Keys
    ensures Find(t, j) == if j in m then Some(m[j]) else None
  {
    MapOfKeys(t);
    MapOfFind(t, j);
  }

  /** Conversely, a search tree whose every search agrees with a map represents
      that map. */
  lemma FindRepresents<V>(t: Tree<V>, m: map<string, V>)
    requires IsBST(t)
    requires forall j :: Find(t, j) == if j in m then Some(m[j]) else None
    ensures Represents(t, m)
  {
    forall j ensures j in MapOf(t) <==> j in m {
      MapOfFind(t, j);
    }
    forall j | j in m ensures MapOf(t)[j] == m[j] {
      MapOfFind(t, j);
    }
  }

  /** Inserting into a search tree is updating the map it represents. */
  lemma InsertRepresents<V>(t: Tree<V>, m: map<string, V>, k: string, v: V)
    requires Represents(t, m)
    ensures Represents(Insert(t, k, v), m[k := v])
  {
    InsertBST(t, k, v);
    forall j ensures Find(Insert(t, k, v), j) == if j in m[k := v] then Some(m[k := v][j]) else None {
      InsertFind(t, k, v, j);
      MapOfFind(t, j);
    }
    FindRepresents(Insert(t, k, v), m[k := v]);
  }

  /** Deleting from a search tree is removing the key from the map it represents. */
  lemma DeleteRepresents<V>(t: Tree<V>, m: map<string, V>, k: string)
    requires Represents(t, m)
    ensures Represents(Delete(t, k), m - {k})
  {
    DeleteBST(t, k);
    forall j ensures Find(Delete(t, k), j) == if j in m - {k} then Some((m - {k})[j]) else None {
      DeleteFind(t, k, j);
      MapOfFind(t, j);
    }
    FindRepresents(Delete(t, k), m - {k});
  }

  /** The in-order listing of a search tree lists every pair of the map it
      represents once, in strictly ascending key order. */
  lemma InOrderRepresents<V>(t: Tree<V>, m: map<string, V>)
    requires Represents(t, m)
    ensures |InOrder(t)| == |m|
    ensures forall i, j :: 0 <= i < j < |InOrder(t)| ==> Less(InOrder(t)[i].0, InOrder(t)[j].0)
    ensures forall i :: 0 <= i < |InOrder(t)| ==> InOrder(t)[i].0 in m && m[InOrder(t)[i].0] == InOrder(t)[i].1
    ensures forall k :: k in m ==> exists i :: 0 <= i < |InOrder(t)| && InOrder(t)[i].0 == k
  {
    MapOfKeys(t);
    InOrderKeys(t);
    InOrderSize(t);
    SizeIsKeyCount(t);
    assert |m| == |m.Keys|;
    InOrderAscending(t);
    InOrderFind(t);
    forall j ensures Find(t, j) == if j in m then Some(m[j]) else None {
      MapOfFind(t, j);
    }
  }
}
