/**
 The node structure of the binary search tree behind BSTMap, and the recursive
 algorithms that walk it: the in-order key traversal, the insertion descent and
 the three search descents (strict lookup, lookup with a default, membership).

 An absent child link (Python's None) is the constructor Nil; a node is
 Node(key, value, left, right). Keys are integers, compared with < and ==
 exactly as the source compares them; values are of an arbitrary type V.
 */
module BinaryTree {

  datatype Tree<V> = Nil | Node(key: int, value: V, left: Tree<V>, right: Tree<V>)

  /** Outcome of a strict lookup: the stored value, or the KeyError raised for the missing key. */
  datatype Lookup<V> = Found(value: V) | KeyError(key: int)

  // ---------------------------------------------------------------------------
  // Abstract view of a tree
  // ---------------------------------------------------------------------------

  /** The keys stored anywhere in the tree. */
  function Keys<V>(t: Tree<V>): set<int>
  {
    match t
    case Nil => {}
    case Node(k, _, l, r) => Keys(l) + {k} + Keys(r)
  }

  /** Number of nodes in the tree. */
  function Size<V>(t: Tree<V>): nat
  {
    match t
    case Nil => 0
    case Node(_, _, l, r) => Size(l) + 1 + Size(r)
  }

  /** The BST ordering: every key of a left subtree is strictly below its node's key,
      every key of a right subtree strictly above, at every node. */
  predicate IsBST<V>(t: Tree<V>)
  {
    match t
    case Nil => true
    case Node(k, _, l, r) =>
      && (forall x | x in Keys(l) :: x < k)
      && (forall x | x in Keys(r) :: k < x)
      && IsBST(l)
      && IsBST(r)
  }

  /** The dictionary a tree stands for; it is meant for BSTs, where every key occurs
      once. (On other trees a node's own entry wins over its subtrees', and the right
      subtree's over the left's.) */
  function Contents<V>(t: Tree<V>): (m: map<int, V>)
    ensures m.Keys == Keys(t)
  {
    match t
    case Nil => map[]
    case Node(k, v, l, r) => (Contents(l) + Contents(r))[k := v]
  }

  predicate StrictlyIncreasing(s: seq<int>)
  {
    forall i, j | 0 <= i < j < |s| :: s[i] < s[j]
  }

  // ---------------------------------------------------------------------------
  // In-order traversal (_Node.__iter__)
  // ---------------------------------------------------------------------------

  /** The keys of the tree, left subtree first, then the node, then the right subtree.
      A missing child contributes nothing, as the source's `is not None` tests do. */
  function InOrder<V>(t: Tree<V>): seq<int>
  {
    match t
    case Nil => []
    case Node(k, _, l, r) => InOrder(l) + [k] + InOrder(r)
  }

  /** The traversal yields exactly the stored keys, one per node. */
  lemma {:induction false} InOrderElements<V>(t: Tree<V>)
    ensures |InOrder(t)| == Size(t)
    ensures forall x :: x in InOrder(t) <==> x in Keys(t)
  {
    match t
    case Nil =>
    case Node(k, _, l, r) =>
      InOrderElements(l);
      InOrderElements(r);
  }

  lemma JoinIncreasing(a: seq<int>, k: int, b: seq<int>)
    requires StrictlyIncreasing(a) && StrictlyIncreasing(b)
    requires forall x | x in a :: x < k
    requires forall x | x in b :: k < x
    ensures StrictlyIncreasing(a + [k] + b)
  {
    var s := a + [k] + b;
    forall i, j | 0 <= i < j < |s| ensures s[i] < s[j] {
      if j < |a| {
      } else if i < |a| {
        assert s[i] in a;
        if j > |a| { assert s[j] == b[j - |a| - 1]; assert s[j] in b; }
      } else if i == |a| {
        assert s[j] == b[j - |a| - 1]; assert s[j] in b;
      } else {
        assert s[i] == b[i - |a| - 1] && s[j] == b[j - |a| - 1];
      }
    }
  }

  /** On a BST the traversal is strictly ascending, so every key appears exactly once. */
  lemma {:induction false} InOrderSorted<V>(t: Tree<V>)
    requires IsBST(t)
    ensures StrictlyIncreasing(InOrder(t))
  {
    match t
    case Nil =>
    case Node(k, _, l, r) =>
      InOrderSorted(l);
      InOrderSorted(r);
      InOrderElements(l);
      InOrderElements(r);
      JoinIncreasing(InOrder(l), k, InOrder(r));
  }

  /** On a BST the node count is the number of distinct keys. */
  lemma {:induction false} SizeIsKeyCount<V>(t: Tree<V>)
    requires IsBST(t)
    ensures Size(t) == |Keys(t)|
  {
    match t
    case Nil =>
    case Node(k, _, l, r) =>
      SizeIsKeyCount(l);
      SizeIsKeyCount(r);
      assert k !in Keys(l) && k !in Keys(r);
      assert Keys(l) * Keys(r) == {} by {
        forall x | x in Keys(l) ensures x !in Keys(r) { }
      }
      assert |Keys(l) + Keys(r)| == |Keys(l)| + |Keys(r)|;
      assert Keys(t) == (Keys(l) + Keys(r)) + {k};
  }

  // ---------------------------------------------------------------------------
  // The three search descents (_get_item, _get, _contains)
  // ---------------------------------------------------------------------------

  /** Strict lookup: the value at the first node on the search path whose key equals
      `key`; KeyError when the descent reaches a missing child. */
  function GetItem<V>(t: Tree<V>, key: int): Lookup<V>
  {
    match t
    case Nil => KeyError(key)
    case Node(k, v, l, r) =>
      if k == key then Found(v)
      else if key < k then GetItem(l, key)
      else GetItem(r, key)
  }

  /** Lookup with a default: as GetItem, but yields `default` on a miss. */
  function Get<V>(t: Tree<V>, key: int, default: V): V
  {
    match t
    case Nil => default
    case Node(k, v, l, r) =>
      if k == key then v
      else if key < k then Get(l, key, default)
      else Get(r, key, default)
  }

  /** Membership: whether the descent finds a node holding `key`. */
  function Contains<V>(t: Tree<V>, key: int): bool
  {
    match t
    case Nil => false
    case Node(k, _, l, r) =>
      if k == key then true
      else if key < k then Contains(l, key)
      else Contains(r, key)
  }

  /** Membership and strict lookup agree on every tree, ordered or not: membership
      holds exactly when the strict lookup hits, and a miss reports the key looked up. */
  lemma {:induction false} ContainsAgrees<V>(t: Tree<V>, key: int)
    ensures Contains(t, key) <==> GetItem(t, key).Found?
    ensures GetItem(t, key).KeyError? ==> GetItem(t, key) == KeyError(key)
  {
    match t
    case Nil =>
    case Node(k, _, l, r) =>
      if k == key {
      } else if key < k {
        ContainsAgrees(l, key);
      } else {
        ContainsAgrees(r, key);
      }
  }

  /** Lookup with a default agrees with the strict lookup on every tree: the same value
      on a hit, the default where the strict lookup raises KeyError. */
  lemma {:induction false} GetAgrees<V>(t: Tree<V>, key: int, default: V)
    ensures Get(t, key, default) == match GetItem(t, key) case Found(v) => v case KeyError(_) => default
  {
    match t
    case Nil =>
    case Node(k, _, l, r) =>
      if k == key {
      } else if key < k {
        GetAgrees(l, key, default);
      } else {
        GetAgrees(r, key, default);
      }
  }

  /** On a BST, the strict lookup fails exactly when the key is not stored, and
      otherwise returns the value the dictionary view holds for it. */
  lemma {:induction false} GetItemCorrect<V>(t: Tree<V>, key: int)
    requires IsBST(t)
    ensures GetItem(t, key) == if key in Contents(t) then Found(Contents(t)[key]) else KeyError(key)
  {
    match t
    case Nil =>
    case Node(k, v, l, r) =>
      if k == key {
      } else if key < k {
        GetItemCorrect(l, key);
        assert key !in Keys(r);
      } else {
        GetItemCorrect(r, key);
        assert key !in Keys(l);
      }
  }

  /** On a BST, membership is exactly "the key is stored". */
  lemma ContainsCorrect<V>(t: Tree<V>, key: int)
    requires IsBST(t)
    ensures Contains(t, key) <==> key in Keys(t)
  {
    GetItemCorrect(t, key);
    ContainsAgrees(t, key);
  }

  /** On a BST, lookup with a default yields the stored value, or the default when
      the key is not stored. */
  lemma GetCorrect<V>(t: Tree<V>, key: int, default: V)
    requires IsBST(t)
    ensures Get(t, key, default) == if key in Contents(t) then Contents(t)[key] else default
  {
    GetItemCorrect(t, key);
    GetAgrees(t, key, default);
  }

  // ---------------------------------------------------------------------------
  // Insertion descent (_set_item)
  // ---------------------------------------------------------------------------

  /** The tree after storing `value` at `key`: the first node on the search path
      holding `key` gets the new value; otherwise a new childless node is linked in
      where the descent falls off the tree (left when key < node key, right otherwise). */
  function Insert<V>(t: Tree<V>, key: int, value: V): (r: Tree<V>)
    ensures Keys(r) == Keys(t) + {key}
  {
    match t
    case Nil => Node(key, value, Nil, Nil)
    case Node(k, v, l, rt) =>
      if k == key then Node(k, value, l, rt)
      else if key < k then Node(k, v, Insert(l, key, value), rt)
      else Node(k, v, l, Insert(rt, key, value))
  }

  /** Insertion keeps the BST ordering. */
  lemma {:induction false} InsertPreservesBST<V>(t: Tree<V>, key: int, value: V)
    requires IsBST(t)
    ensures IsBST(Insert(t, key, value))
  {
    match t
    case Nil =>
    case Node(k, v, l, r) =>
      if k == key {
      } else if key < k {
        InsertPreservesBST(l, key, value);
      } else {
        InsertPreservesBST(r, key, value);
      }
  }

  /** On a BST, insertion changes the dictionary view exactly as a dictionary update. */
  lemma {:induction false} InsertContents<V>(t: Tree<V>, key: int, value: V)
    requires IsBST(t)
    ensures Contents(Insert(t, key, value)) == Contents(t)[key := value]
  {
    match t
    case Nil =>
    case Node(k, v, l, r) =>
      if k == key {
      } else if key < k {
        InsertContents(l, key, value);
        assert key !in Keys(r);
        UpdateLeftOfUnion(Contents(l), Contents(r), k, v, key, value);
      } else {
        InsertContents(r, key, value);
        UpdateRightOfUnion(Contents(l), Contents(r), k, v, key, value);
      }
  }

  lemma UpdateLeftOfUnion<V>(a: map<int, V>, b: map<int, V>, k: int, v: V, key: int, value: V)
    requires key !in b && key != k
    ensures (a[key := value] + b)[k := v] == ((a + b)[k := v])[key := value]
  {
    var lhs, rhs := (a[key := value] + b)[k := v], ((a + b)[k := v])[key := value];
    assert lhs.Keys == rhs.Keys;
    forall x | x in lhs ensures lhs[x] == rhs[x] { }
  }

  lemma UpdateRightOfUnion<V>(a: map<int, V>, b: map<int, V>, k: int, v: V, key: int, value: V)
    requires key != k
    ensures (a + b[key := value])[k := v] == ((a + b)[k := v])[key := value]
  {
    var lhs, rhs := (a + b[key := value])[k := v], ((a + b)[k := v])[key := value];
    assert lhs.Keys == rhs.Keys;
    forall x | x in lhs ensures lhs[x] == rhs[x] { }
  }

  /** After an insertion the strict lookup of that key returns the new value and the
      lookup of every other key is unchanged; this holds on every tree, because
      insertion follows the same descent as the lookup. */
  lemma {:induction false} GetItemAfterInsert<V>(t: Tree<V>, key: int, value: V, other: int)
    ensures GetItem(Insert(t, key, value), key) == Found(value)
    ensures other != key ==> GetItem(Insert(t, key, value), other) == GetItem(t, other)
  {
    match t
    case Nil =>
    case Node(k, v, l, r) =>
      if k == key {
      } else if key < k {
        GetItemAfterInsert(l, key, value, other);
      } else {
        GetItemAfterInsert(r, key, value, other);
      }
  }

  /** A second insertion at the same key overrides the first: inserting v1 then v2
      gives the tree that inserting v2 alone gives, and inserting the same pair twice
      is the same as inserting it once. */
  lemma {:induction false} InsertOverwrite<V>(t: Tree<V>, key: int, v1: V, v2: V)
    ensures Insert(Insert(t, key, v1), key, v2) == Insert(t, key, v2)
  {
    match t
    case Nil =>
    case Node(k, v, l, r) =>
      if k == key {
      } else if key < k {
        InsertOverwrite(l, key, v1, v2);
      } else {
        InsertOverwrite(r, key, v1, v2);
      }
  }

  /** `grown` is `t` with exactly one missing child replaced by the childless node
      (key, value); every node of `t` keeps its key, value and position. */
  ghost predicate AddsOneLeaf<V>(t: Tree<V>, grown: Tree<V>, key: int, value: V)
  {
    match t
    case Nil => grown == Node(key, value, Nil, Nil)
    case Node(k, v, l, r) =>
      && grown.Node? && grown.key == k && grown.value == v
      && ((AddsOneLeaf(l, grown.left, key, value) && grown.right == r)
          || (grown.left == l && AddsOneLeaf(r, grown.right, key, value)))
  }

  /** `a` and `b` have the same nodes at the same positions with the same keys;
      only values may differ. */
  ghost predicate SameShape<V>(a: Tree<V>, b: Tree<V>)
  {
    match a
    case Nil => b == Nil
    case Node(k, _, l, r) => b.Node? && b.key == k && SameShape(l, b.left) && SameShape(r, b.right)
  }

  /** Inserting a key the tree does not hold links in exactly one new childless node
      and leaves every existing node where it was: one more node in all. */
  lemma {:induction false} InsertAbsentAddsLeaf<V>(t: Tree<V>, key: int, value: V)
    requires key !in Keys(t)
    ensures AddsOneLeaf(t, Insert(t, key, value), key, value)
    ensures Size(Insert(t, key, value)) == Size(t) + 1
  {
    match t
    case Nil =>
    case Node(k, v, l, r) =>
      if key < k {
        InsertAbsentAddsLeaf(l, key, value);
      } else {
        InsertAbsentAddsLeaf(r, key, value);
      }
  }

  /** Inserting a key a BST already holds creates no node: the shape and the node count
      are unchanged, and only that key's value is overwritten. */
  lemma {:induction false} InsertPresentOverwrites<V>(t: Tree<V>, key: int, value: V)
    requires IsBST(t) && key in Keys(t)
    ensures SameShape(t, Insert(t, key, value))
    ensures Size(Insert(t, key, value)) == Size(t)
    ensures Contents(Insert(t, key, value)) == Contents(t)[key := value]
  {
    InsertContents(t, key, value);
    match t
    case Node(k, v, l, r) =>
      SameShapeRefl(l);
      SameShapeRefl(r);
      if k == key {
      } else if key < k {
        assert key !in Keys(r);
        InsertPresentOverwrites(l, key, value);
      } else {
        assert key !in Keys(l);
        InsertPresentOverwrites(r, key, value);
      }
  }

  lemma {:induction false} SameShapeRefl<V>(t: Tree<V>)
    ensures SameShape(t, t)
  {
    match t
    case Nil =>
    case Node(_, _, l, r) =>
      SameShapeRefl(l);
      SameShapeRefl(r);
  }

  // ---------------------------------------------------------------------------
  // Traversal after insertion
  // ---------------------------------------------------------------------------

  /** For an ascending `s`: `s` with `key` put in its ascending position, and `s`
      itself when `key` is already there. */
  function InsertSorted(s: seq<int>, key: int): seq<int>
  {
    if s == [] then [key]
    else if key == s[0] then s
    else if key < s[0] then [key] + s
    else [s[0]] + InsertSorted(s[1..], key)
  }

  lemma {:induction false} InsertSortedBefore(a: seq<int>, b: seq<int>, key: int)
    requires b == [] || key < b[0]
    ensures InsertSorted(a + b, key) == InsertSorted(a, key) + b
  {
    if a == [] {
      assert a + b == b;
    } else {
      assert (a + b)[0] == a[0] && (a + b)[1..] == a[1..] + b;
      if key != a[0] && !(key < a[0]) {
        InsertSortedBefore(a[1..], b, key);
      }
    }
  }

  lemma {:induction false} InsertSortedAfter(a: seq<int>, b: seq<int>, key: int)
    requires forall x | x in a :: x < key
    ensures InsertSorted(a + b, key) == a + InsertSorted(b, key)
  {
    if a == [] {
      assert a + b == b;
    } else {
      assert a[0] in a;
      assert (a + b)[0] == a[0] && (a + b)[1..] == a[1..] + b;
      forall x | x in a[1..] ensures x < key { assert x in a; }
      InsertSortedAfter(a[1..], b, key);
    }
  }

  /** On a BST, the traversal after an insertion is the traversal before it with the
      key put in its ascending position (and unchanged when the key was present). */
  lemma {:induction false} InOrderAfterInsert<V>(t: Tree<V>, key: int, value: V)
    requires IsBST(t)
    ensures InOrder(Insert(t, key, value)) == InsertSorted(InOrder(t), key)
  {
    match t
    case Nil =>
    case Node(k, v, l, r) =>
      InOrderElements(l);
      InOrderElements(r);
      if k == key {
        InsertSortedAfter(InOrder(l), [k] + InOrder(r), key);
        assert InOrder(t) == InOrder(l) + ([k] + InOrder(r));
      } else if key < k {
        InOrderAfterInsert(l, key, value);
        InsertSortedBefore(InOrder(l), [k] + InOrder(r), key);
        assert InOrder(t) == InOrder(l) + ([k] + InOrder(r));
        assert InOrder(Insert(t, key, value)) == InOrder(Insert(l, key, value)) + ([k] + InOrder(r));
      } else {
        InOrderAfterInsert(r, key, value);
        InsertSortedAfter(InOrder(l) + [k], InOrder(r), key);
      }
  }

  /** An ascending sequence already holding `key` is left as it is. */
  lemma {:induction false} InsertSortedPresent(s: seq<int>, key: int)
    requires StrictlyIncreasing(s) && key in s
    ensures InsertSorted(s, key) == s
  {
    if key != s[0] {
      var j :| 0 <= j < |s| && s[j] == key;
      assert j > 0 && s[0] < key;
      assert key in s[1..] by { assert s[1..][j - 1] == key; }
      InsertSortedPresent(s[1..], key);
      assert [s[0]] + s[1..] == s;
    }
  }

  /** On a BST, inserting a key it already holds leaves the traversal unchanged. */
  lemma InOrderAfterInsertPresent<V>(t: Tree<V>, key: int, value: V)
    requires IsBST(t) && key in Keys(t)
    ensures InOrder(Insert(t, key, value)) == InOrder(t)
  {
    InOrderAfterInsert(t, key, value);
    InOrderSorted(t);
    InOrderElements(t);
    InsertSortedPresent(InOrder(t), key);
  }
}
