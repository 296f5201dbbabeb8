/**
 BSTMap: a map from unique integer keys to values, kept in an unbalanced binary
 search tree. The object holds the root of the tree and an entry counter that
 insertion maintains incrementally; lookups, membership and the in-order key
 sequence are computed from the root.
 */
module OrderedMap {
  import opened BinaryTree

  // ---------------------------------------------------------------------------
  // Construction from a sequence of pairs, as a reference definition
  // ---------------------------------------------------------------------------

  /** The tree obtained by inserting the pairs one after another, first to last. */
  function InsertAll<V>(t: Tree<V>, pairs: seq<(int, V)>): Tree<V>
  {
    if pairs == [] then t
    else
      var last := pairs[|pairs| - 1];
      Insert(InsertAll(t, pairs[..|pairs| - 1]), last.0, last.1)
  }

  /** The dictionary obtained by assigning the pairs one after another, first to last,
      so that a later pair for a key overrides an earlier one. */
  function UpdateAll<V>(m: map<int, V>, pairs: seq<(int, V)>): map<int, V>
  {
    if pairs == [] then m
    else
      var last := pairs[|pairs| - 1];
      UpdateAll(m, pairs[..|pairs| - 1])[last.0 := last.1]
  }

  /** The keys occurring in a sequence of pairs. */
  function PairKeys<V>(pairs: seq<(int, V)>): set<int>
  {
    set i | 0 <= i < |pairs| :: pairs[i].0
  }

  /** Inserting the pairs into a BST keeps it a BST and changes its dictionary view as
      assigning the same pairs to a dictionary would. */
  lemma {:induction false} InsertAllContents<V>(t: Tree<V>, pairs: seq<(int, V)>)
    requires IsBST(t)
    ensures IsBST(InsertAll(t, pairs))
    ensures Contents(InsertAll(t, pairs)) == UpdateAll(Contents(t), pairs)
  {
    if pairs != [] {
      var last := pairs[|pairs| - 1];
      InsertAllContents(t, pairs[..|pairs| - 1]);
      InsertPreservesBST(InsertAll(t, pairs[..|pairs| - 1]), last.0, last.1);
      InsertContents(InsertAll(t, pairs[..|pairs| - 1]), last.0, last.1);
    }
  }

  /** Assigning pairs to a dictionary: the keys afterwards are the old keys and the
      pairs' keys; a key the pairs mention holds the value of its LAST pair, and a key
      they do not mention keeps its old value. */
  lemma {:induction false} UpdateAllLookup<V>(m: map<int, V>, pairs: seq<(int, V)>, key: int)
    ensures key in UpdateAll(m, pairs) <==> key in m || key in PairKeys(pairs)
    ensures key !in PairKeys(pairs) && key in m ==> UpdateAll(m, pairs)[key] == m[key]
    ensures forall i | 0 <= i < |pairs| && pairs[i].0 == key ::
              (forall j | i < j < |pairs| :: pairs[j].0 != key) ==> UpdateAll(m, pairs)[key] == pairs[i].1
  {
    if pairs != [] {
      var n := |pairs| - 1;
      var init := pairs[..n];
      UpdateAllLookup(m, init, key);
      assert PairKeys(pairs) == PairKeys(init) + {pairs[n].0} by {
        forall x | x in PairKeys(pairs) ensures x in PairKeys(init) + {pairs[n].0} {
          var i :| 0 <= i < |pairs| && pairs[i].0 == x;
          if i < n { assert init[i] == pairs[i]; }
        }
        forall x | x in PairKeys(init) ensures x in PairKeys(pairs) {
          var i :| 0 <= i < |init| && init[i].0 == x;
          assert pairs[i] == init[i];
        }
      }
      forall i | 0 <= i < |pairs| && pairs[i].0 == key && (forall j | i < j < |pairs| :: pairs[j].0 != key)
        ensures UpdateAll(m, pairs)[key] == pairs[i].1
      {
        if i < n {
          assert init[i] == pairs[i];
          assert pairs[n].0 != key;
          forall j | i < j < |init| ensures init[j].0 != key { assert init[j] == pairs[j]; }
        }
      }
    }
  }

  // ---------------------------------------------------------------------------
  // The map object
  // ---------------------------------------------------------------------------

  class BSTMap<V> {
    /** The top node of the tree, Nil while the map is empty. */
    var root: Tree<V>
    /** Number of key/value pairs, counted by insertion rather than recomputed. */
    var numEntries: nat

    /** The object invariant: the tree is ordered and the counter equals the number of
        distinct keys reachable from the root. */
    predicate Valid()
      reads this
    {
      IsBST(root) && numEntries == |Keys(root)|
    }

    /** The dictionary this map stands for. */
    function Items(): map<int, V>
      reads this
    {
      Contents(root)
    }

    /** Builds the map by assigning the pairs in order; no pairs gives the empty map. */
    constructor (pairs: seq<(int, V)>)
      ensures Valid()
      ensures root == InsertAll(Nil, pairs)
      ensures Items() == UpdateAll(map[], pairs)
      ensures numEntries == |PairKeys(pairs)|
    {
      root := Nil;
      numEntries := 0;
      new;
      for i := 0 to |pairs|
        invariant Valid()
        invariant root == InsertAll(Nil, pairs[..i])
      {
        assert pairs[..i + 1][..i] == pairs[..i];
        SetItem(pairs[i].0, pairs[i].1);
      }
      assert pairs[..|pairs|] == pairs;
      InsertAllContents(Nil, pairs);
      forall k ensures k in Items() <==> k in PairKeys(pairs) {
        UpdateAllLookup(map[], pairs, k);
      }
      assert Keys(root) == PairKeys(pairs);
    }

    /** The recursive descent of assignment: returns the subtree with `newValue` stored
        at `key`, and counts one more entry exactly when the descent linked in a new node. */
    method SetItemAt(node: Tree<V>, key: int, newValue: V) returns (r: Tree<V>)
      modifies this`numEntries
      ensures r == Insert(node, key, newValue)
      ensures numEntries == old(numEntries) + (if BinaryTree.Contains(node, key) then 0 else 1)
      decreases node
    {
      match node
      case Nil =>
        numEntries := numEntries + 1;
        r := Node(key, newValue, Nil, Nil);
      case Node(k, v, l, rt) =>
        if k == key {
          r := Node(k, newValue, l, rt);
        } else if key < k {
          var l' := SetItemAt(l, key, newValue);
          r := Node(k, v, l', rt);
        } else {
          var rt' := SetItemAt(rt, key, newValue);
          r := Node(k, v, l, rt');
        }
    }

    /** `m[key] = newValue`: the dictionary view is updated at `key`, the counter grows
        by one exactly when the key was new, and the invariant is kept. */
    method SetItem(key: int, newValue: V)
      requires Valid()
      modifies this
      ensures Valid()
      ensures root == Insert(old(root), key, newValue)
      ensures Items() == old(Items())[key := newValue]
      ensures numEntries == old(numEntries) + (if key in old(Items()) then 0 else 1)
    {
      ContainsCorrect(root, key);
      InsertPreservesBST(root, key, newValue);
      InsertContents(root, key, newValue);
      root := SetItemAt(root, key, newValue);
    }

    /** `m[key]`: the stored value, or KeyError exactly when the key is absent. */
    function GetItem(key: int): (r: Lookup<V>)
      reads this
      requires Valid()
      ensures r.KeyError? <==> key !in Items()
      ensures r.Found? ==> r.value == Items()[key]
      ensures r.KeyError? ==> r.key == key
    {
      GetItemCorrect(root, key);
      BinaryTree.GetItem(root, key)
    }

    /** `m.get(key, default)`: the stored value, or `default` when the key is absent. */
    function Get(key: int, default: V): (r: V)
      reads this
      requires Valid()
      ensures key in Items() ==> r == Items()[key]
      ensures key !in Items() ==> r == default
    {
      GetCorrect(root, key, default);
      BinaryTree.Get(root, key, default)
    }

    /** `key in m`. */
    function Contains(key: int): (b: bool)
      reads this
      requires Valid()
      ensures b <==> key in Items()
    {
      ContainsCorrect(root, key);
      BinaryTree.Contains(root, key)
    }

    /** `len(m)`: the counter, which is the number of stored keys and the number of
        keys iteration yields. */
    function Len(): (n: nat)
      reads this
      requires Valid()
      ensures n == |Items()|
      ensures n == |InOrder(root)|
    {
      SizeIsKeyCount(root);
      InOrderElements(root);
      numEntries
    }

    /** `list(m)`: the keys in ascending order, each stored key exactly once; empty for
        the empty map. */
    function Iter(): (s: seq<int>)
      reads this
      requires Valid()
      ensures StrictlyIncreasing(s)
      ensures forall k :: k in s <==> k in Items()
      ensures |s| == |Items()|
      ensures Items() == map[] ==> s == []
    {
      InOrderSorted(root);
      InOrderElements(root);
      SizeIsKeyCount(root);
      InOrder(root)
    }
  }

  // ---------------------------------------------------------------------------
  // Worked examples
  // ---------------------------------------------------------------------------

  /** The pairs of the grades example: three distinct student numbers, out of order. */
  function GradePairs(): seq<(int, string)>
  {
    [(111537, "A+"), (101156, "A+"), (127118, "B")]
  }

  /** Inserting the grade pairs in order puts the second key to the left of the first
      and the third to its right. */
  lemma GradesTree()
    ensures InsertAll(Nil, GradePairs())
         == Node(111537, "A+", Node(101156, "A+", Nil, Nil), Node(127118, "B", Nil, Nil))
  {
    var ps := GradePairs();
    assert ps[..2][..1] == ps[..1] && ps[..1][..0] == [];
    assert InsertAll(Nil, ps[..1]) == Node(111537, "A+", Nil, Nil);
    assert InsertAll(Nil, ps[..2]) == Node(111537, "A+", Node(101156, "A+", Nil, Nil), Nil);
  }

  /** That tree holds three keys and iterates them in ascending order. */
  lemma GradesView(t: Tree<string>)
    requires t == Node(111537, "A+", Node(101156, "A+", Nil, Nil), Node(127118, "B", Nil, Nil))
    ensures |Keys(t)| == 3
    ensures InOrder(t) == [101156, 111537, 127118]
  {
    assert Size(t) == 3;
    SizeIsKeyCount(t);
  }

  /** The grades example: three entries, iterated in ascending student number. */
  method GradesExample() returns (n: nat, keys: seq<int>, grade: Lookup<string>)
    ensures n == 3
    ensures keys == [101156, 111537, 127118]
    ensures grade == Found("A+")
  {
    var grades := new BSTMap(GradePairs());
    GradesTree();
    GradesView(grades.root);
    n := grades.Len();
    keys := grades.Iter();
    grade := grades.GetItem(101156);
  }

  /** An empty map has no entries, contains nothing and iterates over nothing. */
  method EmptyExample(probe: int) returns (n: nat, keys: seq<int>, found: bool)
    ensures n == 0 && keys == [] && !found
  {
    var m := new BSTMap<string>([]);
    n := m.Len();
    keys := m.Iter();
    found := m.Contains(probe);
  }
}
