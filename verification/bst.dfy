/** The binary search tree of the records layer as the source builds it: nodes
    on the heap whose `left`, `right`, `key` and `value` fields the recursive
    insert and delete rewrite in place, and a wrapper that caches the node
    count. Each node carries, as ghost state, the `TreeModel.Tree` it roots;
    the wrapper carries the key-to-value map the tree represents. */
module SearchTree {
  import opened Wrappers
  import opened Text
  import opened TreeModel

  class TreeNode<V> {
    var key: string
    var value: V
    var left: TreeNode?<V>
    var right: TreeNode?<V>
    ghost var Repr: set<object>
    /** The tree rooted here. */
    ghost var Model: Tree<V>

    ghost predicate Valid()
      reads this, Repr
      decreases Repr
    {
      && this in Repr
      && (left != null ==> left in Repr && left.Repr <= Repr && this !in left.Repr && left.Valid())
      && (right != null ==> right in Repr && right.Repr <= Repr && this !in right.Repr && right.Valid())
      && (left != null && right != null ==> left.Repr !! right.Repr)
      && Model == Node(ModelOf(left), key, value, ModelOf(right))
    }

    constructor (key: string, value: V)
      ensures Valid() && fresh(Repr)
      ensures Model == Node(Leaf, key, value, Leaf)
    {
      this.key := key;
      this.value := value;
      left := null;
      right := null;
      Repr := {this};
      Model := Node(Leaf, key, value, Leaf);
    }
  }

  /** The tree a possibly-absent node roots. */
  ghost function ModelOf<V>(n: TreeNode?<V>): Tree<V>
    reads n
  {
    if n == null then Leaf else n.Model
  }

  /** `_ins`: returns the node that now roots the subtree; a new node where
      the path ends, otherwise `n` itself with a child or its value replaced. */
  method Ins<V>(n: TreeNode?<V>, k: string, v: V) returns (r: TreeNode<V>)
    requires n != null ==> n.Valid()
    modifies if n == null then {} else n.Repr
    ensures r.Valid()
    ensures r.Model == TreeModel.Insert(old(ModelOf(n)), k, v)
    ensures n == null ==> fresh(r.Repr)
    ensures n != null ==> r == n && fresh(r.Repr - old(n.Repr))
    decreases if n == null then {} else n.Repr, 1
  {
    if n == null {
      r := new TreeNode(k, v);
    } else if Less(k, n.key) {
      InsLeft(n, k, v);
      r := n;
    } else if Less(n.key, k) {
      InsRight(n, k, v);
      r := n;
    } else {
      n.value := v;
      n.Model := Node(ModelOf(n.left), n.key, v, ModelOf(n.right));
      r := n;
    }
  }

  /** `self._root = _ins(self._root, key, value)`, seen through the map the
      tree represents. */
  method InsertAtRoot<V>(n: TreeNode?<V>, ghost m: map<string, V>, k: string, v: V) returns (r: TreeNode<V>)
    requires n != null ==> n.Valid()
    requires Represents(ModelOf(n), m)
    modifies if n == null then {} else n.Repr
    ensures r.Valid() && Represents(r.Model, m[k := v])
    ensures n == null ==> fresh(r.Repr)
    ensures n != null ==> r == n && fresh(r.Repr - old(n.Repr))
  {
    InsertRepresents(ModelOf(n), m, k, v);
    r := Ins(n, k, v);
  }

  /** `n.left = _ins(n.left, k, v)`. */
  method InsLeft<V>(n: TreeNode<V>, k: string, v: V)
    requires n.Valid() && Less(k, n.key)
    modifies n.Repr
    ensures n.Valid() && fresh(n.Repr - old(n.Repr))
    ensures n.Model == TreeModel.Insert(old(n.Model), k, v)
    decreases n.Repr, 0
  {
    var t := Ins(n.left, k, v);
    n.left := t;
    n.Repr := n.Repr + t.Repr;
    n.Model := Node(t.Model, n.key, n.value, ModelOf(n.right));
  }

  /** `n.right = _ins(n.right, k, v)`. */
  method InsRight<V>(n: TreeNode<V>, k: string, v: V)
    requires n.Valid() && Less(n.key, k)
    modifies n.Repr
    ensures n.Valid() && fresh(n.Repr - old(n.Repr))
    ensures n.Model == TreeModel.Insert(old(n.Model), k, v)
    decreases n.Repr, 0
  {
    Asym(n.key, k);
    var t := Ins(n.right, k, v);
    n.right := t;
    n.Repr := n.Repr + t.Repr;
    n.Model := Node(ModelOf(n.left), n.key, n.value, t.Model);
  }

  /** `_min`: walks left to the leftmost node. */
  method MinNode<V>(n: TreeNode<V>) returns (m: TreeNode<V>)
    requires n.Valid()
    ensures (m.key, m.value) == Min(n.Model)
  {
    m := n;
    while m.left != null
      invariant m.Valid()
      invariant Min(m.Model) == Min(n.Model)
      decreases m.Repr
    {
      m := m.left;
    }
  }

  /** `_del`: returns the node that now roots the subtree, which is `n` itself
      or one of the nodes below it. */
  method Del<V>(n: TreeNode?<V>, k: string) returns (r: TreeNode?<V>)
    requires n != null ==> n.Valid()
    modifies if n == null then {} else n.Repr
    ensures r != null ==> n != null && r.Valid() && r.Repr <= old(n.Repr)
    ensures ModelOf(r) == TreeModel.Delete(old(ModelOf(n)), k)
    decreases if n == null then {} else n.Repr, 2
  {
    if n == null {
      r := null;
    } else if Less(k, n.key) {
      DelLeft(n, k);
      r := n;
    } else if Less(n.key, k) {
      DelRight(n, k);
      r := n;
    } else if n.left == null {
      LessTotal(k, n.key);
      r := n.right;
    } else if n.right == null {
      LessTotal(k, n.key);
      r := n.left;
    } else {
      LessTotal(k, n.key);
      DelSuccessor(n);
      r := n;
    }
  }

  /** `n.left = _del(n.left, k)`. */
  method DelLeft<V>(n: TreeNode<V>, k: string)
    requires n.Valid() && Less(k, n.key)
    modifies n.Repr
    ensures n.Valid() && n.Repr <= old(n.Repr)
    ensures n.Model == TreeModel.Delete(old(n.Model), k)
    decreases n.Repr, 0
  {
    var t := Del(n.left, k);
    n.left := t;
    n.Model := Node(ModelOf(t), n.key, n.value, ModelOf(n.right));
  }

  /** `n.right = _del(n.right, k)`. */
  method DelRight<V>(n: TreeNode<V>, k: string)
    requires n.Valid() && Less(n.key, k)
    modifies n.Repr
    ensures n.Valid() && n.Repr <= old(n.Repr)
    ensures n.Model == TreeModel.Delete(old(n.Model), k)
    decreases n.Repr, 1
  {
    Asym(n.key, k);
    DelFromRight(n, k);
  }

  /** The two-child case of `_del`: the node takes its successor's key and value,
      and the successor is deleted from the right subtree. */
  method DelSuccessor<V>(n: TreeNode<V>)
    requires n.Valid() && n.left != null && n.right != null
    modifies n.Repr
    ensures n.Valid() && n.Repr <= old(n.Repr)
    ensures n.Model == TreeModel.Delete(old(n.Model), old(n.key))
    decreases n.Repr, 1
  {
    LessIrreflexive(n.key);
    var m := MinNode(n.right);
    n.key, n.value := m.key, m.value;
    n.Model := Node(ModelOf(n.left), n.key, n.value, ModelOf(n.right));
    DelFromRight(n, m.key);
  }

  /** `n.right = _del(n.right, k)`, whatever `k` is. */
  method DelFromRight<V>(n: TreeNode<V>, k: string)
    requires n.Valid()
    modifies n.Repr
    ensures n.Valid() && n.Repr <= old(n.Repr)
    ensures n.Model == Node(old(ModelOf(n.left)), old(n.key), old(n.value), TreeModel.Delete(old(ModelOf(n.right)), k))
    decreases n.Repr, 0
  {
    var t := Del(n.right, k);
    n.right := t;
    n.Model := Node(ModelOf(n.left), n.key, n.value, ModelOf(t));
  }

  /** `search`: walks down from `root` as `<` and `>` direct. */
  method SearchFrom<V>(root: TreeNode?<V>, k: string) returns (r: Option<V>)
    requires root != null ==> root.Valid()
    ensures r == Find(ModelOf(root), k)
  {
    var n := root;
    while n != null
      invariant n != null ==> n.Valid()
      invariant Find(ModelOf(n), k) == Find(ModelOf(root), k)
      decreases if n == null then {} else n.Repr
    {
      if Less(k, n.key) {
        n := n.left;
      } else if Less(n.key, k) {
        n := n.right;
      } else {
        return Some(n.value);
      }
    }
    return None;
  }

  /** `_in`: the pairs of the subtree, left subtree first. */
  function InOrderFrom<V>(n: TreeNode?<V>): (s: seq<(string, V)>)
    requires n != null ==> n.Valid()
    reads if n == null then {} else n.Repr
    ensures s == InOrder(ModelOf(n))
    decreases if n == null then {} else n.Repr
  {
    if n == null then [] else InOrderFrom(n.left) + [(n.key, n.value)] + InOrderFrom(n.right)
  }

  /** `_compute_size`: counts the nodes by full recursion. */
  function ComputeSize<V>(n: TreeNode?<V>): (c: nat)
    requires n != null ==> n.Valid()
    reads if n == null then {} else n.Repr
    ensures c == Size(ModelOf(n))
    decreases if n == null then {} else n.Repr
  {
    if n == null then 0 else 1 + ComputeSize(n.left) + ComputeSize(n.right)
  }

  class BinarySearchTree<V> {
    var root: TreeNode?<V>
    /** The cached node count, recomputed after every change. */
    var size: int
    ghost var Repr: set<object>
    /** The key-to-value map the tree represents. */
    ghost var Map: map<string, V>

    ghost predicate Valid()
      reads this, Repr
    {
      && this in Repr
      && (root != null ==> root in Repr && root.Repr <= Repr && this !in root.Repr && root.Valid())
      && Represents(ModelOf(root), Map)
      && size == Size(ModelOf(root))
    }

    constructor ()
      ensures Valid() && fresh(Repr)
      ensures Map == map[]
    {
      root := null;
      size := 0;
      Repr := {this};
      Map := map[];
    }

    /** `insert`: adds the key, or replaces its value when it is present. */
    method Insert(k: string, v: V)
      requires Valid()
      modifies Repr
      ensures Valid() && fresh(Repr - old(Repr))
      ensures Map == old(Map)[k := v]
    {
      var r := InsertAtRoot(root, Map, k, v);
      root, size, Repr, Map := r, ComputeSize(r), Repr + r.Repr, Map[k := v];
    }

    /** `delete`: removes the key; a key that is not present changes nothing. */
    method Delete(k: string)
      requires Valid()
      modifies Repr
      ensures Valid() && Repr == old(Repr)
      ensures Map == old(Map) - {k}
    {
      DeleteRepresents(ModelOf(root), Map, k);
      var r := Del(root, k);
      root, size, Map := r, ComputeSize(r), Map - {k};
    }

    /** `search`: the value stored under `k`, or `None`. */
    method Search(k: string) returns (r: Option<V>)
      requires Valid()
      ensures r == if k in Map then Some(Map[k]) else None
    {
      r := SearchFrom(root, k);
      RepresentsFind(ModelOf(root), Map, k);
    }

    /** `len(tree)`: the cached count, which is the number of keys. */
    method Len() returns (n: int)
      requires Valid()
      ensures n == |Map|
    {
      SizeIsKeyCount(ModelOf(root));
      MapOfKeys(ModelOf(root));
      assert |Map| == |Map.Keys|;
      n := size;
    }

    /** `inorder()`: every stored pair once, in strictly ascending key order. */
    method InOrderPairs() returns (s: seq<(string, V)>)
      requires Valid()
      ensures |s| == |Map|
      ensures forall i, j :: 0 <= i < j < |s| ==> Less(s[i].0, s[j].0)
      ensures forall i :: 0 <= i < |s| ==> s[i].0 in Map && Map[s[i].0] == s[i].1
      ensures forall k :: k in Map ==> exists i :: 0 <= i < |s| && s[i].0 == k
    {
      s := InOrderFrom(root);
      InOrderRepresents(ModelOf(root), Map);
    }
  }
}
