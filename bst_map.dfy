/**
 * A map kept in an unbalanced binary search tree of linked nodes. Keys are
 * integers ordered as `compareTo` orders them. Every node carries, as a ghost
 * field, the value-level tree it roots; the search-tree order, the mappings
 * and the node count are functions of that tree.
 */
module BSTMaps {
  import opened Wrappers

  /** The shape and the mappings of a subtree of nodes. */
  datatype Tree<V> = Empty | Node(left: Tree<V>, key: int, value: V, right: Tree<V>)

  /** The mappings of `t`; a node's own mapping wins over its subtrees'. */
  function TreeContents<V>(t: Tree<V>): map<int, V>
  {
    match t
    case Empty => map[]
    case Node(l, k, v, r) => (TreeContents(l) + TreeContents(r))[k := v]
  }

  /** Every key on the left of a node is smaller than the node's key, every key on its right larger. */
  ghost predicate IsSearchTree<V>(t: Tree<V>)
  {
    match t
    case Empty => true
    case Node(l, k, _, r) =>
      && IsSearchTree(l) && IsSearchTree(r)
      && (forall x :: x in TreeContents(l) ==> x < k)
      && (forall x :: x in TreeContents(r) ==> k < x)
  }

  /** The number of nodes of `t`. */
  function Count<V>(t: Tree<V>): nat
  {
    match t
    case Empty => 0
    case Node(l, _, _, r) => Count(l) + 1 + Count(r)
  }

  /**
   * What `insert` does to the tree: a new leaf where the search for `k` ends;
   * a node with key `k` already there leaves the tree as it is.
   */
  function TreeInsert<V>(t: Tree<V>, k: int, v: V): Tree<V>
  {
    match t
    case Empty => Node(Empty, k, v, Empty)
    case Node(l, key, value, r) =>
      if key > k then Node(TreeInsert(l, k, v), key, value, r)
      else if key < k then Node(l, key, value, TreeInsert(r, k, v))
      else t
  }

  /** The keys of `t` from left to right: what `printInOrder` prints. */
  function InOrder<V>(t: Tree<V>): seq<int>
  {
    match t
    case Empty => []
    case Node(l, k, _, r) => InOrder(l) + [k] + InOrder(r)
  }

  /** Each key of `s` is smaller than the next. */
  predicate Increasing(s: seq<int>)
  {
    forall i, j :: 0 <= i < j < |s| ==> s[i] < s[j]
  }

  /** In a search tree the keys are distinct, so there are as many mappings as nodes. */
  lemma {:induction false} CountIsSize<V>(t: Tree<V>)
    requires IsSearchTree(t)
    ensures Count(t) == |TreeContents(t)|
  {
    match t
    case Empty =>
    case Node(l, k, v, r) =>
      CountIsSize(l);
      CountIsSize(r);
      var left, right := TreeContents(l), TreeContents(r);
      assert left.Keys !! right.Keys by {
        forall x | x in left
          ensures x !in right
        {
        }
      }
      assert |left + right| == |left| + |right| by {
        assert (left + right).Keys == left.Keys + right.Keys;
      }
  }

  /** Inserting into a search tree keeps it a search tree, and its keys gain the inserted one. */
  lemma {:induction false} InsertKeepsSearchTree<V>(t: Tree<V>, k: int, v: V)
    requires IsSearchTree(t)
    ensures IsSearchTree(TreeInsert(t, k, v))
    ensures TreeContents(TreeInsert(t, k, v)).Keys == TreeContents(t).Keys + {k}
  {
    match t
    case Empty =>
    case Node(l, key, value, r) =>
      if key > k {
        InsertKeepsSearchTree(l, k, v);
      } else if key < k {
        InsertKeepsSearchTree(r, k, v);
      }
  }

  /** Inserting into a search tree adds the mapping when its key is new and keeps the old mapping otherwise. */
  lemma {:induction false} InsertMapping<V>(t: Tree<V>, k: int, v: V)
    requires IsSearchTree(t)
    ensures TreeContents(TreeInsert(t, k, v)) ==
              if k in TreeContents(t) then TreeContents(t) else TreeContents(t)[k := v]
  {
    match t
    case Empty =>
    case Node(l, key, value, r) =>
      if key > k {
        InsertMapping(l, k, v);
        assert k !in TreeContents(r);
      } else if key < k {
        InsertMapping(r, k, v);
        assert k !in TreeContents(l);
      }
  }

  /** Inserting into a search tree adds a node exactly when the key is new. */
  lemma {:induction false} InsertCount<V>(t: Tree<V>, k: int, v: V)
    requires IsSearchTree(t)
    ensures Count(TreeInsert(t, k, v)) == if k in TreeContents(t) then Count(t) else Count(t) + 1
  {
    match t
    case Empty =>
    case Node(l, key, value, r) =>
      if key > k {
        InsertCount(l, k, v);
      } else if key < k {
        InsertCount(r, k, v);
      }
  }

  /** The in-order keys of a search tree increase and are exactly its keys. */
  lemma {:induction false} InOrderSorted<V>(t: Tree<V>)
    requires IsSearchTree(t)
    ensures Increasing(InOrder(t))
    ensures forall x :: x in InOrder(t) <==> x in TreeContents(t)
  {
    match t
    case Empty =>
    case Node(l, k, _, r) =>
      InOrderSorted(l);
      InOrderSorted(r);
      var s := InOrder(t);
      assert s == InOrder(l) + [k] + InOrder(r);
      forall i, j | 0 <= i < j < |s|
        ensures s[i] < s[j]
      {
        var nl := |InOrder(l)|;
        if j < nl {
          assert s[i] == InOrder(l)[i] && s[j] == InOrder(l)[j];
        } else if i > nl {
          assert s[i] == InOrder(r)[i - nl - 1] && s[j] == InOrder(r)[j - nl - 1];
        } else {
          if i < nl {
            assert s[i] == InOrder(l)[i] && s[i] in InOrder(l);
            assert s[i] < k;
          }
          if nl < j {
            assert s[j] == InOrder(r)[j - nl - 1] && s[j] in InOrder(r);
            assert k < s[j];
          }
        }
      }
  }

  class BSTNode<V> {
    var key: int
    var value: V
    var left: BSTNode?<V>
    var right: BSTNode?<V>
    /** The nodes of this subtree. */
    ghost var Repr: set<object>
    /** The tree this node roots. */
    ghost var Model: Tree<V>

    /** The subtrees are valid and disjoint, and `Model` is this node over its subtrees' models. */
    ghost predicate Valid()
      reads this, Repr
      decreases Repr
    {
      && this in Repr
      && (left != null ==>
            left in Repr && left.Repr <= Repr && this !in left.Repr && left.Valid())
      && (right != null ==>
            right in Repr && right.Repr <= Repr && this !in right.Repr && right.Valid())
      && (left != null && right != null ==> left.Repr !! right.Repr)
      && Model == Node(SubModel(left), key, value, SubModel(right))
    }

    /** A leaf holding one mapping. */
    constructor (k: int, v: V)
      ensures Valid() && fresh(Repr) && Repr == {this}
      ensures key == k && value == v && left == null && right == null
      ensures Model == Node(Empty, k, v, Empty)
    {
      key, value := k, v;
      left, right := null, null;
      Repr := {this};
      Model := Node(Empty, k, v, Empty);
    }
  }

  /** The tree rooted at `node`; `Empty` for null. */
  ghost function SubModel<V>(node: BSTNode?<V>): Tree<V>
    reads node
  {
    if node == null then Empty else node.Model
  }

  /** The nodes of the subtree at `node`. */
  ghost function SubtreeRepr<V>(node: BSTNode?<V>): set<object>
    reads node
  {
    if node == null then {} else {node} + node.Repr
  }

  /** `containsHelper`: follows the search path from `node`; true exactly when the subtree maps `key`. */
  function ContainsHelper<V>(node: BSTNode?<V>, key: int): (found: bool)
    reads if node == null then {} else {node} + node.Repr
    requires node != null ==> node.Valid() && IsSearchTree(node.Model)
    ensures found <==> key in TreeContents(SubModel(node))
    decreases if node == null then {} else node.Repr
  {
    if node == null then false
    else if node.key == key then true
    else if node.key > key then ContainsHelper(node.left, key)
    else ContainsHelper(node.right, key)
  }

  /** `getHelper`: follows the search path from `node`; the value the subtree maps `key` to, or `None`. */
  function GetHelper<V>(node: BSTNode?<V>, key: int): (value: Option<V>)
    reads if node == null then {} else {node} + node.Repr
    requires node != null ==> node.Valid() && IsSearchTree(node.Model)
    ensures value == Lookup(TreeContents(SubModel(node)), key)
    decreases if node == null then {} else node.Repr
  {
    if node == null then None
    else if node.key == key then Some(node.value)
    else if node.key > key then GetHelper(node.left, key)
    else GetHelper(node.right, key)
  }

  /** `printHelper`: the keys of the subtree, left subtree first; in increasing order, and each key once. */
  function PrintHelper<V>(node: BSTNode?<V>): (keys: seq<int>)
    reads if node == null then {} else {node} + node.Repr
    requires node != null ==> node.Valid() && IsSearchTree(node.Model)
    ensures keys == InOrder(SubModel(node))
    ensures Increasing(keys) && forall k :: k in keys <==> k in TreeContents(SubModel(node))
    decreases if node == null then {} else node.Repr
  {
    if node == null then []
    else
      InOrderSorted(node.Model);
      PrintHelper(node.left) + [node.key] + PrintHelper(node.right)
  }

  /**
   * `insert`: hangs the leaf `next` where the search for its key ends and
   * returns the subtree's root; when the key is already there, nothing changes
   * and `next` is dropped. `t` and `below` name the subtree's tree and nodes
   * before the call.
   */
  method Insert<V>(node: BSTNode?<V>, next: BSTNode<V>, ghost t: Tree<V>, ghost below: set<object>)
    returns (r: BSTNode<V>)
    requires t == SubModel(node) && below == SubtreeRepr(node)
    requires node != null ==> node.Valid() && next !in node.Repr
    requires next.Valid() && next.Repr == {next} && next.left == null && next.right == null
    modifies if node == null then {} else node.Repr
    ensures r.Valid()
    ensures node == null ==> r == next
    ensures node != null ==> r == node
    ensures r.Model == TreeInsert(t, next.key, next.value)
    ensures r.Repr <= below + {next}
    decreases if node == null then {} else node.Repr, 1
  {
    if node == null {
      return next;
    }
    if node.key > next.key {
      InsertLeft(node, next);
    } else if node.key < next.key {
      InsertRight(node, next);
    }
    return node;
  }

  /** The left branch of `insert`: `next` goes into the left subtree, which is relinked. */
  method InsertLeft<V>(node: BSTNode<V>, next: BSTNode<V>)
    requires node.Valid() && next !in node.Repr && next.key < node.key
    requires next.Valid() && next.Repr == {next} && next.left == null && next.right == null
    modifies node.Repr
    ensures node.Valid()
    ensures node.Model == TreeInsert(old(node.Model), next.key, next.value)
    ensures node.Repr <= old(node.Repr) + {next}
    decreases node.Repr, 0
  {
    var l := Insert(node.left, next, SubModel(node.left), SubtreeRepr(node.left));
    node.left := l;
    node.Repr := node.Repr + l.Repr;
    node.Model := Node(l.Model, node.key, node.value, SubModel(node.right));
  }

  /** The right branch of `insert`: `next` goes into the right subtree, which is relinked. */
  method InsertRight<V>(node: BSTNode<V>, next: BSTNode<V>)
    requires node.Valid() && next !in node.Repr && node.key < next.key
    requires next.Valid() && next.Repr == {next} && next.left == null && next.right == null
    modifies node.Repr
    ensures node.Valid()
    ensures node.Model == TreeInsert(old(node.Model), next.key, next.value)
    ensures node.Repr <= old(node.Repr) + {next}
    decreases node.Repr, 0
  {
    var rt := Insert(node.right, next, SubModel(node.right), SubtreeRepr(node.right));
    node.right := rt;
    node.Repr := node.Repr + rt.Repr;
    node.Model := Node(SubModel(node.left), node.key, node.value, rt.Model);
  }

  /** What a call of an operation the map may not support ends with: a value, or the exception. */
  datatype Outcome<T> = Returns(value: T) | UnsupportedOperationException

  class BSTMap<V> {
    var size: int
    var root: BSTNode?<V>

    /** The objects the map is made of: itself and its nodes. */
    ghost function Repr(): set<object>
      reads this, root
    {
      {this} + if root == null then {} else {root} + root.Repr
    }

    /** The mappings. */
    ghost function Contents(): map<int, V>
      reads this, root
    {
      TreeContents(SubModel(root))
    }

    /** The nodes form a valid search tree, and `size` counts them. */
    ghost predicate Valid()
      reads this, Repr()
    {
      && (root != null ==> this !in root.Repr && root.Valid())
      && IsSearchTree(SubModel(root))
      && size == Count(SubModel(root))
    }

    /** An empty map. */
    constructor ()
      ensures Valid() && fresh(Repr()) && Contents() == map[] && size == 0
    {
      size := 0;
      root := null;
    }

    /** `clear`: no mappings and a size of 0. */
    method Clear()
      requires Valid()
      modifies this
      ensures Valid() && Contents() == map[] && root == null && size == 0
    {
      size := 0;
      root := null;
    }

    /** `containsKey`: true exactly when the key has a mapping. */
    function ContainsKey(key: int): (found: bool)
      reads this, Repr()
      requires Valid()
      ensures found <==> key in Contents()
    {
      ContainsHelper(root, key)
    }

    /** `get`: the key's value, or `None` (Java's null) when the key has no mapping. */
    function Get(key: int): (value: Option<V>)
      reads this, Repr()
      requires Valid()
      ensures value == Lookup(Contents(), key)
    {
      GetHelper(root, key)
    }

    /** `size`: the number of mappings. */
    function Size(): (n: int)
      reads this, Repr()
      requires Valid()
      ensures n == |Contents()|
    {
      CountIsSize(SubModel(root));
      size
    }

    /** `printInOrder`: the keys, each once, in increasing order (printed one per line by the source). */
    function PrintInOrder(): (keys: seq<int>)
      reads this, Repr()
      requires Valid()
      ensures Increasing(keys)
      ensures forall k :: k in keys <==> k in Contents()
    {
      PrintHelper(root)
    }

    /**
     * `put`: a new key gets a fresh leaf and the size grows by one; for a key
     * that already has a mapping nothing changes, so its old value is kept.
     */
    method Put(key: int, value: V)
      requires Valid()
      modifies Repr()
      ensures Valid() && fresh(Repr() - old(Repr()))
      ensures Contents() == if key in old(Contents()) then old(Contents()) else old(Contents())[key := value]
      ensures size == if key in old(Contents()) then old(size) else old(size) + 1
    {
      if ContainsKey(key) {
        return;
      }
      ghost var t := SubModel(root);
      InsertKeepsSearchTree(t, key, value);
      InsertMapping(t, key, value);
      InsertCount(t, key, value);
      var node := new BSTNode(key, value);
      root := Insert(root, node, t, SubtreeRepr(root));
      size := size + 1;
    }

    /** `keySet`: not supported; it throws and the map is left as it is. */
    method KeySet() returns (r: Outcome<set<int>>)
      ensures r == UnsupportedOperationException
    {
      r := UnsupportedOperationException;
    }

    /** `remove(key)`: not supported; it throws and the map is left as it is. */
    method Remove(key: int) returns (r: Outcome<Option<V>>)
      ensures r == UnsupportedOperationException
    {
      r := UnsupportedOperationException;
    }

    /** `remove(key, value)`: not supported; it throws and the map is left as it is. */
    method RemoveMapping(key: int, value: V) returns (r: Outcome<Option<V>>)
      ensures r == UnsupportedOperationException
    {
      r := UnsupportedOperationException;
    }

    /** `iterator`: not supported; it throws instead of returning the keys to iterate over. */
    method Iterator() returns (r: Outcome<seq<int>>)
      ensures r == UnsupportedOperationException
    {
      r := UnsupportedOperationException;
    }
  }

  /** Two puts of the same key: the first value stays, and the size counts the key once. */
  method PutKeepsFirstValue() returns (value: Option<string>, count: int)
    ensures value == Some("first") && count == 1
  {
    var m := new BSTMap<string>();
    m.Put(7, "first");
    m.Put(7, "second");
    value := m.Get(7);
    count := m.Size();
  }
}
