# BSTMap: a verified model of a map kept in an unbalanced binary search tree

The modelled component is `BSTMap` from `SYSC2100/bstmap.py`. It maps unique keys
to values and stores them in a binary search tree that it never rebalances. The
object holds two fields: the root of the tree and an entry counter. Assignment
`m[k] = v` walks down from the root. If it finds `k`, it overwrites that node's
value. Otherwise it links a new childless node in where the walk fell off the tree,
and bumps the counter. The strict lookup `m[k]`, the lookup with a default
`m.get(k, d)` and the membership test `k in m` are three separate copies of the same
descent. `len(m)` returns the counter. Iterating over `m` yields the keys in order:
left subtree first, then the node, then the right subtree.

Two files make up the model:

- `binary_tree.dfy` (module `BinaryTree`) holds the node structure and the recursive
  helpers. The node is the datatype `Tree<V> = Nil | Node(key, value, left, right)`,
  with `Nil` standing for Python's `None`. The helpers are the in-order traversal,
  the insertion descent and the three search descents. Around them are the views
  the proofs use: `Keys`, `Size`, `Contents` (the dictionary a tree stands for) and
  the ordering predicate `IsBST`.
- `ordered_map.dfy` (module `OrderedMap`) holds the class `BSTMap<V>`, with the fields
  `root` and `numEntries`. Its invariant `Valid()` says that the tree is ordered and
  that the counter equals the number of distinct keys in it. The file also holds the
  constructor from a sequence of pairs, two reference folds (`InsertAll` inserts
  pairs into a tree, `UpdateAll` assigns them to a dictionary) and the doctest
  examples.

Assignment is imperative, as in the source. `SetItemAt` is the recursive descent
`_set_item`: a method that returns the rebuilt subtree and increments `numEntries`
when it creates a node. `SetItem` stores the returned tree in `root`. The searches
and the traversal are functions over the tree.

## Model

| member | source | states |
|---|---|---|
| `BinaryTree.InOrder` | SYSC2100/bstmap.py:20-33 | no contract of its own: left subtree, then key, then right subtree; `InOrderElements` and `InOrderSorted` fix its meaning |
| `BinaryTree.GetItem` | SYSC2100/bstmap.py:128-145 | no contract of its own: the strict descent; `GetItemCorrect` and `ContainsAgrees` fix its meaning |
| `BinaryTree.Get` | SYSC2100/bstmap.py:154-172 | no contract of its own: the descent with a default; `GetAgrees` and `GetCorrect` fix its meaning |
| `BinaryTree.Contains` | SYSC2100/bstmap.py:186-203 | no contract of its own: the membership descent; `ContainsAgrees` and `ContainsCorrect` fix its meaning |
| `BinaryTree.InOrderElements` | SYSC2100/bstmap.py:20-33 | the in-order traversal yields one key per node, and exactly the keys stored in the tree |
| `BinaryTree.InOrderSorted` | SYSC2100/bstmap.py:20-33 | on an ordered tree the traversal is strictly ascending, so no key is yielded twice |
| `BinaryTree.SizeIsKeyCount` | SYSC2100/bstmap.py:60-61 | on an ordered tree the number of nodes equals the number of distinct keys |
| `BinaryTree.ContainsAgrees` | SYSC2100/bstmap.py:128-205 | on any tree, ordered or not, membership holds exactly when the strict lookup finds the key; a miss is a KeyError for the key looked up |
| `BinaryTree.GetAgrees` | SYSC2100/bstmap.py:128-174 | on any tree, the lookup with a default returns what the strict lookup finds, and returns the default where the strict lookup raises KeyError |
| `BinaryTree.GetItemCorrect` | SYSC2100/bstmap.py:128-147 | on an ordered tree the strict lookup raises KeyError exactly when the key is absent, and otherwise returns the stored value |
| `BinaryTree.ContainsCorrect` | SYSC2100/bstmap.py:186-203 | on an ordered tree, membership holds exactly when the key is stored |
| `BinaryTree.GetCorrect` | SYSC2100/bstmap.py:154-172 | on an ordered tree the lookup with a default returns the stored value, or the default when the key is absent |
| `BinaryTree.Insert` | SYSC2100/bstmap.py:97-119 | after the insertion descent the tree's keys are the old keys plus the inserted one |
| `BinaryTree.InsertPreservesBST` | SYSC2100/bstmap.py:112-119 | the descent goes left on a smaller key and right otherwise, and re-links the subtree in place, so the ordering is kept |
| `BinaryTree.InsertContents` | SYSC2100/bstmap.py:97-121 | on an ordered tree, insertion changes the dictionary view exactly as the dictionary update `m[k := v]` does |
| `BinaryTree.GetItemAfterInsert` | SYSC2100/bstmap.py:93-147 | on any tree, after `m[k] = v` the lookup `m[k]` returns `v`, and the lookup of every other key gives the same result as before |
| `BinaryTree.InsertOverwrite` | SYSC2100/bstmap.py:107-110 | assigning `v1` and then `v2` to a key gives the same tree as assigning `v2` alone; assigning the same pair twice equals assigning it once |
| `BinaryTree.InsertAbsentAddsLeaf` | SYSC2100/bstmap.py:102-105 | inserting an absent key links in exactly one new childless node and leaves every existing node's key, value and position alone; the node count grows by one |
| `BinaryTree.InsertPresentOverwrites` | SYSC2100/bstmap.py:107-110 | inserting a present key into an ordered tree creates no node: shape and node count stay the same, and only that key's value changes |
| `BinaryTree.InOrderAfterInsert` | SYSC2100/bstmap.py:97-121 | on an ordered tree, the traversal after an insertion is the old traversal with the inserted key put in its ascending position |
| `BinaryTree.InOrderAfterInsertPresent` | SYSC2100/bstmap.py:107-110 | on an ordered tree, inserting a key that is already present leaves the traversal unchanged |
| `OrderedMap.InsertAllContents` | SYSC2100/bstmap.py:63-64 | inserting a sequence of pairs keeps the tree ordered, and changes its dictionary view as assigning the same pairs to a dictionary in the same order would |
| `OrderedMap.UpdateAllLookup` | SYSC2100/bstmap.py:35-64 | after assigning pairs in order, the keys are the old keys plus the pairs' keys; a mentioned key holds the value of its last pair, and an unmentioned key keeps its old value |
| `OrderedMap.BSTMap.constructor` | SYSC2100/bstmap.py:35-64 | building from pairs gives the tree obtained by inserting them one after another, with the invariant established. The counter equals the number of distinct keys, and an empty sequence gives the empty map |
| `OrderedMap.BSTMap.SetItemAt` | SYSC2100/bstmap.py:97-119 | the recursive descent returns the subtree with the value stored, and increments the counter exactly when its search would miss the key |
| `OrderedMap.BSTMap.SetItem` | SYSC2100/bstmap.py:93-121 | `m[k] = v` keeps the invariant and updates the dictionary view at `k`. The counter grows by one exactly when `k` was absent |
| `OrderedMap.BSTMap.GetItem` | SYSC2100/bstmap.py:123-147 | `m[k]` returns the stored value, and raises KeyError carrying `k` exactly when `k` is absent |
| `OrderedMap.BSTMap.Get` | SYSC2100/bstmap.py:149-174 | `m.get(k, d)` returns the stored value, or `d` when `k` is absent |
| `OrderedMap.BSTMap.Contains` | SYSC2100/bstmap.py:182-205 | `k in m` holds exactly when `k` is stored |
| `OrderedMap.BSTMap.Len` | SYSC2100/bstmap.py:176-180 | `len(m)` returns the counter, which is the number of stored keys and the number of keys iteration yields |
| `OrderedMap.BSTMap.Iter` | SYSC2100/bstmap.py:81-91 | iteration yields the stored keys in strictly ascending order, each exactly once; the empty map yields nothing |
| `OrderedMap.GradesTree` | SYSC2100/bstmap.py:54-56 | the doctest pairs give a root 111537 with 101156 to its left and 127118 to its right |
| `OrderedMap.GradesView` | SYSC2100/bstmap.py:71-73 | that tree holds three keys and iterates them as 101156, 111537, 127118 |
| `OrderedMap.GradesExample` | SYSC2100/bstmap.py:54-56 | for the map built from the doctest pairs, `len` is 3, the keys come out as 101156, 111537, 127118, and 101156 maps to 'A+' |
| `OrderedMap.EmptyExample` | SYSC2100/bstmap.py:46-48 | a map built with no pairs has length 0, contains no key and iterates over nothing |

## Left out

- `__str__` / `__repr__` (bstmap.py:66-79) are not modelled. They format text with Python's `repr` and `str.format`. The only fact they add is that keys appear in iteration order, which `Iter` states. The doctest at line 56 shows a trailing `", }"`. That does not match the code at line 77 or the doctest at line 73, and the model takes no position on it.
- The text of the KeyError message (line 134) is not modelled. A miss is the value `KeyError(key)`, not an exception.
- Keys are `int`, compared with `<` and `==` exactly as the source compares them. Python's duck typing is not modelled, and neither are the errors raised when comparing keys that cannot be compared.
- The generator in `_Node.__iter__` is modelled as an eagerly computed sequence. Its laziness, and the option of abandoning a traversal early, are not modelled. The source's generator is a live view of the nodes it has not reached yet: it reads `self.right` only after resuming from `yield self.key` (bstmap.py:29-33). The model's `Iter` is a snapshot of the keys at the moment of the call.
- Nodes are values of a datatype, not mutable objects. The source overwrites `node.value` and re-links `node.left`/`node.right` in place. The model rebuilds the nodes along the search path instead. Nodes are private to the map and never shared, so no caller sees the difference, except through a traversal suspended across an assignment. For example, after `m = BSTMap([(1, 'a')])`, `it = iter(m)` and `next(it)`, the assignment `m[2] = 'b'` links a node under the root in place, and the next `next(it)` yields 2. A snapshot taken before the assignment holds only `[1]`. Node identity and aliasing are not represented.
- The optional `default_value=None` of `get` is a required argument here, because the model has no `None` of an arbitrary value type. Likewise the constructor's default `iterable=[]` (bstmap.py:35) becomes a required `pairs` argument, and the doctest's `BSTMap()` is `new BSTMap([])`. Any iterable of pairs is modelled as a `seq` of pairs.
- Recursion depth, stack exhaustion, tree height and balance are not modelled. The source has no deletion or rebalancing.
