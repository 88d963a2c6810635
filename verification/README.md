# B+ tree keyed by name hashes — Dafny model

This project models `lab2.py`, a small in-memory index. It has two parts:

- **NameHasher** turns a name into an integer key. The first three letters are mapped to codes 1..33 by their position in the Ukrainian alphabet, and to 0 when missing or unknown. The codes are packed in base 100, and a last decimal digit holds the name's length capped at 9.
- **BPlusTree** is a B+ tree of `BPlusTreeNode`s. Leaves hold parallel `keys`/`children` (value) lists and a `next` link; internal nodes hold routing keys and child nodes. It supports insertion with leaf splitting, point search, the range searches `search_greater`/`search_less`, and deletion with `_rebalance_after_delete` (borrow from a sibling, merge with one, collapse the root).

Layout:

- `name_hash.dfy` (module `NameHash`): the alphabet, `_build_char_map` as a loop, `hash_name` as a loop proved against the closed form, and lemmas on its digits, range and collisions.
- `tree_nodes.dfy` (module `TreeNodes`): nodes held in an arena (a node reference is an index into `nodes`, so identity is index equality). It also holds the pure parts of the tree:
  - routing inside a node and the descent to a leaf;
  - `find_parent` as a recursive function;
  - the leaf chain and the entries along it;
  - the before/after relations of a leaf split and of the four rebalancing steps.
- `entry_order.dfy` (module `EntryOrder`): the order `sorted` uses on `(key, value)` tuples, and a sort proved to yield the unique sorted permutation.
- `bplus_tree.dfy` (module `BPlus`): class `BPlusTree`, with fields `root` and `nodes` and the constant `order` (4 unless given). `find_parent` only computes, so it is the function `TreeNodes.FindParent`; every other operation of the class is a method. Two ghost fields support the proofs:
  - `height`: every node's height above the leaves, used for termination;
  - `pos`: every node's place in the leaf-chain order; every `next` link goes forward, so walking the chain terminates.

The model follows what the code does, not a textbook B+ tree:

- `insert` puts a key in front of every equal key.
- `find_parent` returns `None` whenever the searched node's first child is a leaf. So it never returns the parent of a leaf (`TreeNodes.FindParent` proves this). As a result:
  - a non-root leaf split only links the new leaf into the chain and changes no internal node;
  - the parent-insert branch of `split` (lab2.py:83-87) is unreachable, as is the internal-node slicing it would lead to;
  - the rebalancing that `delete` starts on a leaf changes nothing.
- The rebalancing is still modelled for a call on any node whose parent `find_parent` does find. Each step is proved against its before/after relation (`StepTaken`), and the whole of `_rebalance_after_delete` against the recursive relation `Climbed`: one step, then the same again on the parent when the step asks for it.

## Model

| member | source | states |
|---|---|---|
| NameHash.LettersDistinct | lab2.py:7 | the alphabet has 33 letters, no two equal |
| NameHash.BuildCharMap | lab2.py:6-11 | the map's keys are exactly the alphabet's letters and the letter at position i maps to i + 1 |
| NameHash.CharMapCodes | lab2.py:7-10 | every code in the char map is in 1..33 and is its letter's position plus one; distinct letters get distinct codes |
| NameHash.NameHasher.constructor | lab2.py:3-4 | the hasher's map is the char map of the alphabet |
| NameHash.NameHasher.HashName | lab2.py:13-27 | the loop's result is the packed hash of the first three codes (0 when missing or unknown) followed by the capped length |
| NameHash.HashClosedForm | lab2.py:17-26 | the hash is `((c0*100 + c1)*100 + c2)*10 + min(len, 9)` |
| NameHash.HashDigitAndRange | lab2.py:19-26 | with two-digit codes, the last digit is `min(len, 9)` and the hash lies in 0..10^7 - 1 |
| NameHash.CharMapHashBound | lab2.py:7-10 | with the alphabet's map, every hash lies in 0..3333339 |
| NameHash.CharMapHashDigit | lab2.py:7-26 | the hasher's own map has two-digit codes, so the last digit of every hash it computes is `min(len, 9)` |
| NameHash.HashEqualIff | lab2.py:19-26 | two names hash alike if and only if their first three codes and capped lengths agree |
| EntryOrder.EntryLeTotalOrder | lab2.py:116 | the `(key, value)` order of `sorted` is total, antisymmetric and transitive |
| EntryOrder.InsertSorted | lab2.py:116 | inserting into a sorted list keeps it sorted and adds exactly that entry |
| EntryOrder.SortEntries | lab2.py:116 | `sorted` yields a sorted permutation of its input |
| EntryOrder.SortedUnique | lab2.py:116 | two sorted permutations of the same entries are equal, so the sorted result is determined by its entries |
| EntryOrder.SortedKeysAscending | lab2.py:116 | a sorted result lists keys in ascending order |
| TreeNodes.RouteIndex | lab2.py:45-47 | the child index taken at an internal node is the length of the prefix of keys that are `<= key` |
| TreeNodes.InsertPos | lab2.py:53-55 | the insertion index is the length of the prefix of keys that are `< key`, so the key goes before the first key `>= key` |
| TreeNodes.FirstIndex | lab2.py:131-134 | `None` exactly when the key is absent, else the first position holding the key |
| TreeNodes.WithEntryKeepsOrder | lab2.py:53-57 | insertion keeps a leaf's lists parallel, grows both by one, adds exactly the key, keeps ascending keys ascending, and puts the key before every equal key |
| TreeNodes.LookupAfterInsert | lab2.py:54-57 | right after an insertion into a leaf, the first match for the key there holds the new value, even if the key was present before |
| TreeNodes.RemoveFirstOccurrence | lab2.py:134-136 | deleting removes exactly one copy of the key from parallel lists; when it was the only copy, the key is no longer found in the leaf |
| TreeNodes.Descend | lab2.py:42-49 | the descent from any node ends at a leaf of the arena |
| TreeNodes.DescendFrame | lab2.py:42-49 | the leaf reached depends only on internal nodes, so changing leaves does not change it |
| TreeNodes.Leftmost | lab2.py:120-122 | following first children ends at a leaf |
| TreeNodes.FindParent | lab2.py:89-99 | a result lists the child among its children, is one level above it and at least two above the leaves; the result is `None` when the child is a leaf or the searched node sits right above the leaves |
| TreeNodes.ScanChildren | lab2.py:92-99 | the child loop of `find_parent` only returns parents of the child |
| TreeNodes.FindParentFinds | lab2.py:92-98 | whenever the searched node is not right above the leaves and lists the child, a parent is found |
| TreeNodes.Chain | lab2.py:111-115 | the walk along `next` starts at its leaf, stays in the arena and meets only leaves |
| TreeNodes.Select | lab2.py:112-114 | the filter keeps only entries on its side of the key |
| TreeNodes.SelectCounts | lab2.py:112-114 | the filter keeps every entry on its side of the key, as often as it occurs, and nothing else |
| TreeNodes.SelectAppend | lab2.py:111-115 | filtering a chain leaf by leaf gives the filter of all its entries |
| BPlus.ChildIndex | lab2.py:154 | `children.index(node)` is the first position holding that node |
| BPlus.BPlusTree.constructor | lab2.py:38-40 | a new tree is a single empty leaf with the given order, 4 by default |
| BPlus.BPlusTree.FindLeaf | lab2.py:42-49 | the loop reaches exactly the leaf of the descent by RouteIndex |
| BPlus.BPlusTree.Search | lab2.py:101-106 | the value at the first match of the key in the leaf `find_leaf` reaches, and `None` exactly when the key is not in that leaf |
| BPlus.BPlusTree.Insert | lab2.py:51-60 | the leaf reached gets the entry at the insertion index; a split happens exactly when it then has more than `order - 1` keys; without a split nothing else changes and a search for the key returns the new value |
| BPlus.BPlusTree.Split | lab2.py:62-87 | the two halves concatenate to the old keys and values, the old leaf keeps the first `len // 2`, the chain becomes node -> new node -> old next, a split root gets an internal root `[new.keys[0]]` over `[node, new]`, and otherwise no other node changes |
| BPlus.BPlusTree.Delete | lab2.py:129-147 | `False` with nothing changed exactly when the key is not in the leaf reached; otherwise the first occurrence is removed; an emptied root leaf is replaced by a fresh empty leaf; rebalancing is started exactly when fewer than `(order+1)//2 - 1` keys remain; a key held once is then no longer found |
| BPlus.BPlusTree.Rebalance | lab2.py:149-193 | the new arena and root are related to the old ones by `Climbed`: without a parent found nothing changes (always so for a leaf); otherwise the step `StepTaken` describes is taken at the node's first position (`children.index`) in its parent and, exactly when that step says the parent is under the minimum, the whole is repeated on the parent from the new arena; the tree stays well formed |
| BPlus.BPlusTree.RebalanceAt | lab2.py:154-193 | the step chosen (`StepChosen`) and the new state (`StepTaken`): borrow left or right when that sibling has more than the minimum, else merge left or right; afterwards a keyless root collapses to its first child, and otherwise the parent is rebalanced in turn exactly when it is under the minimum |
| BPlus.BPlusTree.BorrowFromLeft | lab2.py:161-167 | the left sibling's last entry moves to the front of the node, the parent's key at `index-1` becomes the node's first key, and nothing else changes |
| BPlus.BPlusTree.BorrowFromRight | lab2.py:169-175 | the right sibling's first entry moves to the end of the node, the parent's key at `index` becomes the sibling's new first key, and nothing else changes |
| BPlus.BPlusTree.MergeWithLeft | lab2.py:177-182 | the left sibling gets the node's keys, values and `next`; the parent loses key `index-1` and child `index`; nothing else changes |
| BPlus.BPlusTree.MergeWithRight | lab2.py:183-188 | the node gets the right sibling's keys, values and `next`; the parent loses key `index` and child `index+1`; nothing else changes |
| BPlus.BPlusTree.Collect | lab2.py:111-115 | the chain walk collects exactly the filtered entries of the leaves along `next`, in chain order |
| BPlus.BPlusTree.CollectLeaf | lab2.py:112-114 | the inner loop appends exactly the filtered entries of one leaf, taken as `LeafEntries`, the pairs of `zip(keys, children)` |
| BPlus.BPlusTree.SearchGreater | lab2.py:108-116 | `Values` (the comprehension's value of each entry, in order) of the sorted permutation (unique by SortedUnique) of exactly the entries with a key above `key` along the chain from `find_leaf(key)` |
| BPlus.BPlusTree.SearchLess | lab2.py:118-128 | `Values` (the comprehension's value of each entry, in order) of the sorted permutation (unique by SortedUnique) of exactly the entries with a key below `key` along the chain from the leftmost leaf |

## Left out

- `str.upper()` (lab2.py:14) is Unicode case mapping from the runtime library; `HashName` takes the name as already upper-cased.
- The demo driver and its `print` calls (lab2.py:199-213) are I/O only.
- `search` returns the one-element list `[value]`; the model returns `Some(value)` in its place.
- Values are strings. `sorted` compares tuples by key, then by the value's code points. Any other value type is not modelled.
- Python exceptions are not modelled. Where the source would raise, the model requires the input that avoids it:
  - `Split` requires a leaf with at least one key (its only caller passes a leaf that just overflowed);
  - the rebalancing steps require well-formed parents: one more child than keys, which the index arithmetic of lab2.py:166, 174, 181 and 187 relies on, and `order >= 3`, without which `right_sibling.keys[0]` at lab2.py:174 can fail.
- BPlus.BPlusTree.MergeWithLeft, BPlus.BPlusTree.MergeWithRight and BPlus.BPlusTree.RebalanceAt: when the node is a leaf, they require the left sibling to come before it, and it before the right sibling, in the order of the `next` chain. The model proves that the chain never cycles. Without this requirement, a merge whose siblings are chained the other way round would close a cycle in the `next` chain. `Rebalance` never reaches these steps with a leaf, so for every call from `delete` the requirement is empty.
- The internal-node parts of `split` (slicing an internal node's children at lab2.py:66-69, inserting into the parent at lab2.py:83-87) are not modelled. `find_parent` never returns the parent of a leaf, and only leaves are ever split, so this code is unreachable; `Split` asserts that the parent branch is never taken.
- BPlus.BPlusTree.Rebalance: where a parent is found, it requires `order >= 3` and that every node above the one rebalanced has one more child than keys, with no child listed twice. The source makes no such demand. Without the first two, some `pop` or index would raise; the third is covered by the next line. From `delete` the requirement is always met, because a leaf has no parent `find_parent` can find.
- BPlus.BPlusTree.Rebalance, BPlus.BPlusTree.RebalanceAt, BPlus.BPlusTree.BorrowFromLeft, BPlus.BPlusTree.BorrowFromRight, BPlus.BPlusTree.MergeWithLeft, BPlus.BPlusTree.MergeWithRight: they require that a parent does not list the same child twice (`SaneAbove`, and the sibling at `index - 1` or `index + 1` differing from the node). This is not to avoid an exception. The source would run without error on a parent whose children are `[A, A]`, updating the one node `A` under two names (a merge would append `A`'s keys to themselves). The step relations of the model treat the node and its sibling as two distinct nodes, so that case is not modelled. It cannot arise from `delete`, which only starts rebalancing on a leaf, and `find_parent` never finds a leaf's parent.
- Global invariants are not claimed, because the source does not maintain them: every leaf reachable from the root, occupancy bounds, a sorted chain. The model keeps only node shape, parallel leaf lists, and a chain that never cycles.
- The ghost fields `height` and `pos` do not exist in the source. They record facts about the shape of the object graph: it is acyclic, and the `next` chain ends.
