/**
 * Nodes of the B+ tree (BPlusTreeNode) held in an arena, and the pure
 * functions over the arena: routing inside a node, descent to a leaf, parent
 * lookup by identity, the leaf chain and the entries along it.
 *
 * A node reference of the source is an index into the arena `nodes`; two
 * references are the same object exactly when the indices are equal.
 */
module TreeNodes {
  import opened Wrappers
  import opened EntryOrder

  type Value = string

  /** An element of a node's `children` list: a stored value in a leaf, a node in an internal node. */
  datatype Child = Item(value: Value) | Sub(index: nat)

  /** BPlusTreeNode: `is_leaf`, `keys`, `children` and `next`. */
  datatype Node = Node(isLeaf: bool, keys: seq<int>, children: seq<Child>, next: Option<nat>)

  /** `BPlusTreeNode(is_leaf=True)`. */
  const EMPTY_LEAF: Node := Node(true, [], [], None)

  /** A leaf holds one value per key. */
  predicate LeafOk(n: Node)
  {
    |n.children| == |n.keys| && forall j :: 0 <= j < |n.children| ==> n.children[j].Item?
  }

  /**
   * Node `n` sits at height `h` of an arena whose heights are `height`: leaves
   * are exactly the nodes at height 0, and an internal node has more children
   * than keys, no `next` link, and only children one level below it.
   */
  ghost predicate NodeOk(n: Node, h: nat, height: seq<nat>)
  {
    (n.isLeaf <==> h == 0) &&
    if n.isLeaf then LeafOk(n)
    else
      n.next == None && |n.children| > |n.keys| &&
      forall j :: 0 <= j < |n.children| ==>
        n.children[j].Sub? && n.children[j].index < |height| && height[n.children[j].index] + 1 == h
  }

  /** Every node of the arena fits its height. */
  ghost predicate Shaped(nodes: seq<Node>, height: seq<nat>)
  {
    |height| == |nodes| && forall i :: 0 <= i < |nodes| ==> NodeOk(nodes[i], height[i], height)
  }

  /**
   * Every `next` link goes to a leaf of the arena placed further along the
   * chain order `pos`; so no chain of links closes a cycle.
   */
  ghost predicate Chained(nodes: seq<Node>, pos: seq<real>)
  {
    |pos| == |nodes| &&
    forall i :: 0 <= i < |nodes| && nodes[i].next.Some? ==>
      nodes[i].next.value < |nodes| && nodes[nodes[i].next.value].isLeaf && pos[i] < pos[nodes[i].next.value]
  }

  lemma ShapedAppend(nodes: seq<Node>, height: seq<nat>, n: Node, h: nat)
    requires Shaped(nodes, height) && NodeOk(n, h, height + [h])
    ensures Shaped(nodes + [n], height + [h])
  {
    var height' := height + [h];
    forall i | 0 <= i < |nodes|
      ensures NodeOk(nodes[i], height[i], height')
    {
      assert NodeOk(nodes[i], height[i], height);
    }
  }

  /** Replacing one node by a node that fits the same height keeps the arena shaped. */
  lemma ShapedUpdate(nodes: seq<Node>, height: seq<nat>, i: nat, n: Node)
    requires Shaped(nodes, height) && i < |nodes| && NodeOk(n, height[i], height)
    ensures Shaped(nodes[i := n], height)
  {
  }

  /**
   * Replacing one node by one of the same kind whose `next` link, if any,
   * goes further along the chain order keeps the arena chained.
   */
  lemma ChainedUpdate(nodes: seq<Node>, pos: seq<real>, i: nat, n: Node)
    requires Chained(nodes, pos) && i < |nodes| && n.isLeaf == nodes[i].isLeaf
    requires n.next.Some? ==> n.next.value < |nodes| && nodes[n.next.value].isLeaf && pos[i] < pos[n.next.value]
    ensures Chained(nodes[i := n], pos)
  {
  }

  /** Moving the last element of `a` to the front of `b` keeps `a + b`. */
  lemma ShiftRight<T>(a: seq<T>, b: seq<T>)
    requires |a| > 0
    ensures a[..|a| - 1] + ([a[|a| - 1]] + b) == a + b
  {
  }

  /** Moving the first element of `b` to the end of `a` keeps `a + b`. */
  lemma ShiftLeft<T>(a: seq<T>, b: seq<T>)
    requires |b| > 0
    ensures (a + [b[0]]) + b[1..] == a + b
  {
  }

  /** Replacing a node by one that fits the same height and keeps its kind and `next` link. */
  lemma ReplaceNode(nodes: seq<Node>, height: seq<nat>, pos: seq<real>, i: nat, n: Node)
    requires Shaped(nodes, height) && Chained(nodes, pos) && i < |nodes|
    requires NodeOk(n, height[i], height) && n.isLeaf == nodes[i].isLeaf && n.next == nodes[i].next
    ensures Shaped(nodes[i := n], height) && Chained(nodes[i := n], pos)
  {
  }

  /** Appending a node without a `next` link keeps the arena chained. */
  lemma ChainedAppend(nodes: seq<Node>, pos: seq<real>, n: Node, p: real)
    requires Chained(nodes, pos) && n.next.None?
    ensures Chained(nodes + [n], pos + [p])
  {
    var nodes', pos' := nodes + [n], pos + [p];
    forall i | 0 <= i < |nodes'| && nodes'[i].next.Some?
      ensures nodes'[i].next.value < |nodes'| && nodes'[nodes'[i].next.value].isLeaf &&
              pos'[i] < pos'[nodes'[i].next.value]
    {
      assert i < |nodes|;
    }
  }

  /** Both halves of a leaf are leaves. */
  lemma SplitHalvesOk(n: Node, mid: nat, next: Option<nat>)
    requires LeafOk(n) && mid <= |n.keys|
    ensures LeafOk(n.(keys := n.keys[..mid], children := n.children[..mid], next := next))
    ensures LeafOk(Node(n.isLeaf, n.keys[mid..], n.children[mid..], n.next))
  {
  }

  /**
   * Splitting leaf `node` into `kept` and a new leaf appended at the end,
   * linked in between `node` and its old successor at chain place `p`,
   * keeps the arena shaped and chained.
   */
  lemma SplitArena(nodes: seq<Node>, height: seq<nat>, pos: seq<real>, node: nat, kept: Node, added: Node, p: real)
    requires Shaped(nodes, height) && Chained(nodes, pos) && node < |nodes| && nodes[node].isLeaf
    requires kept.isLeaf && added.isLeaf && LeafOk(kept) && LeafOk(added)
    requires kept.next == Some(|nodes|) && added.next == nodes[node].next
    requires pos[node] < p && (added.next.Some? ==> p < pos[added.next.value])
    ensures Shaped(nodes[node := kept] + [added], height + [0])
    ensures Chained(nodes[node := kept] + [added], pos + [p])
  {
    assert NodeOk(nodes[node], height[node], height);
    ShapedUpdate(nodes, height, node, kept);
    ShapedAppend(nodes[node := kept], height, added, 0);
    var nodes', pos' := nodes[node := kept] + [added], pos + [p];
    forall i | 0 <= i < |nodes'| && nodes'[i].next.Some?
      ensures nodes'[i].next.value < |nodes'| && nodes'[nodes'[i].next.value].isLeaf &&
              pos'[i] < pos'[nodes'[i].next.value]
    {
      if i != node && i < |nodes| {
        assert nodes'[i] == nodes[i];
        var j := nodes[i].next.value;
        assert j != node ==> nodes'[j] == nodes[j];
      } else if i == |nodes| {
        var j := nodes[node].next.value;
        assert j != node;
      }
    }
  }

  // ---------------------------------------------------------------------
  // Scans inside one node

  /** The child taken by `find_leaf`: the length of the prefix of keys that are `<= key`. */
  function RouteIndex(keys: seq<int>, key: int): (i: nat)
    ensures i <= |keys|
    ensures forall j :: 0 <= j < i ==> keys[j] <= key
    ensures i < |keys| ==> key < keys[i]
  {
    if keys == [] || key < keys[0] then 0 else 1 + RouteIndex(keys[1..], key)
  }

  /** Where `insert` puts a key: in front of the first existing key `>= key`. */
  function InsertPos(keys: seq<int>, key: int): (p: nat)
    ensures p <= |keys|
    ensures forall j :: 0 <= j < p ==> keys[j] < key
    ensures p < |keys| ==> key <= keys[p]
  {
    if keys == [] || key <= keys[0] then 0 else 1 + InsertPos(keys[1..], key)
  }

  /** `keys.index(key)`, or None when the key is absent. */
  function FirstIndex(keys: seq<int>, key: int): (r: Option<nat>)
    ensures r.None? <==> key !in keys
    ensures r.Some? ==> r.value < |keys| && keys[r.value] == key && key !in keys[..r.value]
  {
    if keys == [] then None
    else if keys[0] == key then Some(0)
    else
      match FirstIndex(keys[1..], key)
      case None => None
      case Some(i) =>
        assert keys[..i + 1] == [keys[0]] + keys[1..][..i];
        Some(i + 1)
  }

  /** A position holding the key with no copy before it is the first index. */
  lemma FirstIndexAt(keys: seq<int>, key: int, i: nat)
    requires i < |keys| && keys[i] == key && key !in keys[..i]
    ensures FirstIndex(keys, key) == Some(i)
  {
  }

  predicate Ascending(keys: seq<int>)
  {
    forall i, j :: 0 <= i < j < |keys| ==> keys[i] <= keys[j]
  }

  /** The leaf after `insert` has put `(key, value)` at InsertPos in both lists. */
  function WithEntry(n: Node, key: int, value: Value): Node
    requires LeafOk(n)
  {
    var p := InsertPos(n.keys, key);
    n.(keys := n.keys[..p] + [key] + n.keys[p..],
       children := n.children[..p] + [Item(value)] + n.children[p..])
  }

  /** The leaf after `delete` has removed position `i` from both lists. */
  function WithoutEntry(n: Node, i: nat): Node
    requires LeafOk(n) && i < |n.keys|
  {
    n.(keys := n.keys[..i] + n.keys[i + 1..], children := n.children[..i] + n.children[i + 1..])
  }

  /** What `search` finds in a leaf: the value of the first entry with this key. */
  function LeafLookup(n: Node, key: int): Option<Value>
    requires LeafOk(n)
  {
    match FirstIndex(n.keys, key)
    case None => None
    case Some(i) => Some(n.children[i].value)
  }

  /** The keys after an insertion at InsertPos, read position by position. */
  lemma InsertedKeyAt(keys: seq<int>, key: int, j: nat)
    requires j <= |keys|
    ensures var p := InsertPos(keys, key);
      var k' := keys[..p] + [key] + keys[p..];
      |k'| == |keys| + 1 && k'[j] == if j < p then keys[j] else if j == p then key else keys[j - 1]
  {
  }

  /**
   * Inserting keeps a leaf well formed, grows both lists by one entry, keeps
   * ascending keys ascending, and places the key before every equal key.
   */
  lemma {:induction false} WithEntryKeepsOrder(n: Node, key: int, value: Value)
    requires LeafOk(n)
    ensures var n' := WithEntry(n, key, value);
      LeafOk(n') && n'.isLeaf == n.isLeaf && n'.next == n.next &&
      |n'.keys| == |n.keys| + 1 &&
      multiset(n'.keys) == multiset(n.keys) + multiset{key} &&
      (Ascending(n.keys) ==> Ascending(n'.keys)) &&
      forall j :: 0 <= j < |n'.keys| && n'.keys[j] == key ==> InsertPos(n.keys, key) <= j
  {
    var p := InsertPos(n.keys, key);
    var n' := WithEntry(n, key, value);
    assert n.keys == n.keys[..p] + n.keys[p..];
    forall j | 0 <= j < |n'.children|
      ensures n'.children[j].Item?
    {
      if j < p { assert n'.children[j] == n.children[j]; }
      else if j > p { assert n'.children[j] == n.children[j - 1]; }
    }
    forall j | 0 <= j < |n'.keys| && n'.keys[j] == key
      ensures p <= j
    {
      InsertedKeyAt(n.keys, key, j);
    }
    if Ascending(n.keys) {
      forall i, j | 0 <= i < j < |n'.keys|
        ensures n'.keys[i] <= n'.keys[j]
      {
        InsertedKeyAt(n.keys, key, i);
        InsertedKeyAt(n.keys, key, j);
      }
    }
  }

  /** Right after an insertion, the leaf's lookup of that key finds the new value. */
  lemma {:induction false} LookupAfterInsert(n: Node, key: int, value: Value)
    requires LeafOk(n)
    ensures LeafOk(WithEntry(n, key, value))
    ensures LeafLookup(WithEntry(n, key, value), key) == Some(value)
  {
    WithEntryKeepsOrder(n, key, value);
    var p := InsertPos(n.keys, key);
    var n' := WithEntry(n, key, value);
    assert n'.keys[p] == key;
    assert key !in n'.keys[..p] by {
      assert n'.keys[..p] == n.keys[..p];
    }
    assert FirstIndex(n'.keys, key) == Some(p);
  }

  /**
   * Deleting the first occurrence removes exactly one copy of the key; when
   * it was the only copy, the leaf's lookup of that key finds nothing.
   */
  lemma {:induction false} RemoveFirstOccurrence(n: Node, key: int)
    requires LeafOk(n) && key in n.keys
    ensures var i := FirstIndex(n.keys, key).value;
      var n' := WithoutEntry(n, i);
      LeafOk(n') && |n'.keys| + 1 == |n.keys| &&
      multiset(n'.keys) == multiset(n.keys) - multiset{key} &&
      (multiset(n.keys)[key] == 1 ==> LeafLookup(n', key) == None)
  {
    var i := FirstIndex(n.keys, key).value;
    var n' := WithoutEntry(n, i);
    assert n.keys == n.keys[..i] + [key] + n.keys[i + 1..];
    assert multiset(n.keys) == multiset(n'.keys) + multiset{key};
    forall j | 0 <= j < |n'.children|
      ensures n'.children[j].Item?
    {
      if j < i { assert n'.children[j] == n.children[j]; }
      else { assert n'.children[j] == n.children[j + 1]; }
    }
  }

  // ---------------------------------------------------------------------
  // Descent

  /** The leaf `find_leaf` reaches from `current`. */
  ghost function Descend(nodes: seq<Node>, height: seq<nat>, current: nat, key: int): (leaf: nat)
    requires Shaped(nodes, height) && current < |nodes|
    ensures leaf < |nodes| && nodes[leaf].isLeaf
    decreases height[current]
  {
    var n := nodes[current];
    if n.isLeaf then current
    else
      assert NodeOk(n, height[current], height);
      Descend(nodes, height, n.children[RouteIndex(n.keys, key)].index, key)
  }

  /**
   * The descent depends only on the internal nodes: changing leaves (but no
   * node's kind) does not change the leaf reached.
   */
  lemma {:induction false} DescendFrame(nodes: seq<Node>, nodes': seq<Node>, height: seq<nat>, current: nat, key: int)
    requires Shaped(nodes, height) && Shaped(nodes', height) && current < |nodes| == |nodes'|
    requires forall i :: 0 <= i < |nodes| && !nodes[i].isLeaf ==> nodes'[i] == nodes[i]
    requires forall i :: 0 <= i < |nodes| ==> nodes'[i].isLeaf == nodes[i].isLeaf
    ensures Descend(nodes', height, current, key) == Descend(nodes, height, current, key)
    decreases height[current]
  {
    var n := nodes[current];
    if !n.isLeaf {
      assert NodeOk(n, height[current], height);
      DescendFrame(nodes, nodes', height, n.children[RouteIndex(n.keys, key)].index, key);
    }
  }

  /** The leaf `search_less` starts from: always the first child. */
  ghost function Leftmost(nodes: seq<Node>, height: seq<nat>, current: nat): (leaf: nat)
    requires Shaped(nodes, height) && current < |nodes|
    ensures leaf < |nodes| && nodes[leaf].isLeaf
    decreases height[current]
  {
    var n := nodes[current];
    if n.isLeaf then current
    else
      assert NodeOk(n, height[current], height);
      Leftmost(nodes, height, n.children[0].index)
  }

  // ---------------------------------------------------------------------
  // Parent lookup

  /** `p` is an internal node that lists `child` among its children. */
  ghost predicate IsParent(nodes: seq<Node>, p: nat, child: nat)
  {
    p < |nodes| && !nodes[p].isLeaf && Sub(child) in nodes[p].children
  }

  /** `current.is_leaf or current.children[0].is_leaf`. */
  predicate AboveLeaves(nodes: seq<Node>, current: nat)
    requires current < |nodes|
    requires !nodes[current].isLeaf ==>
      |nodes[current].children| > 0 && nodes[current].children[0].Sub? && nodes[current].children[0].index < |nodes|
  {
    nodes[current].isLeaf || nodes[nodes[current].children[0].index].isLeaf
  }

  /**
   * `find_parent(current, child)`: a depth-first search for a node listing
   * `child` among its children, which never looks inside a node whose first
   * child is a leaf. So it never returns the parent of a leaf.
   */
  function FindParent(nodes: seq<Node>, ghost height: seq<nat>, current: nat, child: nat): (r: Option<nat>)
    requires Shaped(nodes, height) && current < |nodes|
    ensures r.Some? ==> IsParent(nodes, r.value, child) && 2 <= height[r.value] <= height[current]
    ensures r.Some? ==> child < |nodes| && height[child] + 1 == height[r.value]
    ensures child < |nodes| && nodes[child].isLeaf ==> r.None?
    ensures AboveLeaves(nodes, current) ==> r.None?
    decreases height[current], 1
  {
    assert NodeOk(nodes[current], height[current], height);
    if AboveLeaves(nodes, current) then None
    else ScanChildren(nodes, height, current, child, 0)
  }

  /** The `for` loop of `find_parent` from child position `i` on. */
  function ScanChildren(nodes: seq<Node>, ghost height: seq<nat>, current: nat, child: nat, i: nat): (r: Option<nat>)
    requires Shaped(nodes, height) && current < |nodes| && !nodes[current].isLeaf
    requires i <= |nodes[current].children|
    requires !AboveLeaves(nodes, current)
    ensures r.Some? ==> IsParent(nodes, r.value, child) && 2 <= height[r.value] <= height[current]
    ensures r.Some? ==> child < |nodes| && height[child] + 1 == height[r.value]
    decreases height[current], 0, |nodes[current].children| - i
  {
    var n := nodes[current];
    assert NodeOk(n, height[current], height);
    if i == |n.children| then None
    else if n.children[i].index == child then
      assert n.children[i] == Sub(child);
      assert NodeOk(nodes[n.children[0].index], height[n.children[0].index], height);
      Some(current)
    else
      match FindParent(nodes, height, n.children[i].index, child)
      case Some(p) => Some(p)
      case None => ScanChildren(nodes, height, current, child, i + 1)
  }

  /** Whenever `current` is searched and lists `child`, a parent is found. */
  lemma {:induction false} FindParentFinds(nodes: seq<Node>, height: seq<nat>, current: nat, child: nat)
    requires Shaped(nodes, height) && current < |nodes| && !nodes[current].isLeaf
    requires (assert NodeOk(nodes[current], height[current], height); !AboveLeaves(nodes, current))
    requires Sub(child) in nodes[current].children
    ensures FindParent(nodes, height, current, child).Some?
  {
    var kids := nodes[current].children;
    var k :| 0 <= k < |kids| && kids[k] == Sub(child);
    ScanFinds(nodes, height, current, child, 0, k);
  }

  lemma {:induction false} ScanFinds(nodes: seq<Node>, height: seq<nat>, current: nat, child: nat, i: nat, k: nat)
    requires Shaped(nodes, height) && current < |nodes| && !nodes[current].isLeaf
    requires (assert NodeOk(nodes[current], height[current], height); !AboveLeaves(nodes, current))
    requires i <= k < |nodes[current].children| && nodes[current].children[k] == Sub(child)
    ensures ScanChildren(nodes, height, current, child, i).Some?
    decreases k - i
  {
    if nodes[current].children[i].index != child {
      ScanFinds(nodes, height, current, child, i + 1, k);
    }
  }

  // ---------------------------------------------------------------------
  // The leaf chain and its entries

  /** The arena positions placed after chain position `p`. */
  ghost function Ahead(pos: seq<real>, p: real): set<nat>
  {
    set j: nat | j < |pos| && p < pos[j]
  }

  lemma AheadShrinks(pos: seq<real>, i: nat, j: nat)
    requires i < |pos| && j < |pos| && pos[i] < pos[j]
    ensures |Ahead(pos, pos[j])| < |Ahead(pos, pos[i])|
  {
    var a, b := Ahead(pos, pos[j]), Ahead(pos, pos[i]);
    assert a <= b;
    assert j in b - a;
    assert b == a + (b - a);
  }

  /** The nodes visited by following `next` from `start` until it is None. */
  ghost function Chain(nodes: seq<Node>, pos: seq<real>, start: nat): (c: seq<nat>)
    requires Chained(nodes, pos) && start < |nodes|
    ensures c != [] && c[0] == start
    ensures forall k :: 0 <= k < |c| ==> c[k] < |nodes|
    ensures forall k :: 0 < k < |c| ==> nodes[c[k]].isLeaf
    decreases |Ahead(pos, pos[start])|
  {
    match nodes[start].next
    case None => [start]
    case Some(j) =>
      AheadShrinks(pos, start, j);
      [start] + Chain(nodes, pos, j)
  }

  /** One step of the walk: the chain from a leaf is that leaf, then the chain from its `next`. */
  lemma ChainStep(nodes: seq<Node>, pos: seq<real>, start: nat, visited: seq<nat>)
    requires Chained(nodes, pos) && start < |nodes|
    ensures nodes[start].next.None? ==> visited + Chain(nodes, pos, start) == (visited + [start]) + []
    ensures nodes[start].next.Some? ==>
      visited + Chain(nodes, pos, start) == (visited + [start]) + Chain(nodes, pos, nodes[start].next.value)
  {
  }

  /** `zip(leaf.keys, leaf.children)`. */
  function LeafEntries(n: Node): seq<Entry>
    requires LeafOk(n)
  {
    seq(|n.keys|, j requires 0 <= j < |n.keys| => (n.keys[j], n.children[j].value))
  }

  /** Every node of `chain` is a well-formed leaf. */
  ghost predicate LeafChain(nodes: seq<Node>, chain: seq<nat>)
  {
    forall k :: 0 <= k < |chain| ==> chain[k] < |nodes| && nodes[chain[k]].isLeaf && LeafOk(nodes[chain[k]])
  }

  /** All entries of the leaves of `chain`, leaf after leaf. */
  ghost function ChainEntries(nodes: seq<Node>, chain: seq<nat>): seq<Entry>
    requires LeafChain(nodes, chain)
  {
    if chain == [] then []
    else ChainEntries(nodes, chain[..|chain| - 1]) + LeafEntries(nodes[chain[|chain| - 1]])
  }

  /** The range searches' filters: `k > key` and `k < key`. */
  datatype Side = Greater | Less

  predicate Beyond(k: int, key: int, side: Side)
  {
    if side == Greater then k > key else k < key
  }

  /** The entries of `es` on the given side of `key`, in order. */
  function Select(es: seq<Entry>, key: int, side: Side): (r: seq<Entry>)
    ensures |r| <= |es|
    ensures forall i :: 0 <= i < |r| ==> Beyond(r[i].0, key, side)
  {
    if es == [] then []
    else
      var init, e := es[..|es| - 1], es[|es| - 1];
      assert es == init + [e];
      Select(init, key, side) + if Beyond(e.0, key, side) then [e] else []
  }

  /** Select keeps exactly the entries on its side of `key`, each as often as it occurs. */
  lemma {:induction false} SelectCounts(es: seq<Entry>, key: int, side: Side)
    ensures forall e :: multiset(Select(es, key, side))[e] == if Beyond(e.0, key, side) then multiset(es)[e] else 0
    decreases |es|
  {
    if es != [] {
      var init, e := es[..|es| - 1], es[|es| - 1];
      assert es == init + [e];
      SelectCounts(init, key, side);
    }
  }

  /** Select over one more entry. */
  lemma SelectSnoc(es: seq<Entry>, e: Entry, key: int, side: Side)
    ensures Select(es + [e], key, side) == Select(es, key, side) + if Beyond(e.0, key, side) then [e] else []
  {
    assert (es + [e])[..|es|] == es;
  }

  /** Select distributes over concatenation. */
  lemma {:induction false} SelectAppend(a: seq<Entry>, b: seq<Entry>, key: int, side: Side)
    ensures Select(a + b, key, side) == Select(a, key, side) + Select(b, key, side)
    decreases |b|
  {
    if b != [] {
      var init, e := b[..|b| - 1], b[|b| - 1];
      assert b == init + [e];
      assert a + b == (a + init) + [e];
      SelectAppend(a, init, key, side);
      SelectSnoc(a + init, e, key, side);
      SelectSnoc(init, e, key, side);
    } else {
      assert a + b == a;
    }
  }

  /** The entries of a chain grown by one more leaf. */
  lemma ChainEntriesSnoc(nodes: seq<Node>, chain: seq<nat>, leaf: nat)
    requires LeafChain(nodes, chain) && leaf < |nodes| && nodes[leaf].isLeaf && LeafOk(nodes[leaf])
    ensures LeafChain(nodes, chain + [leaf])
    ensures ChainEntries(nodes, chain + [leaf]) == ChainEntries(nodes, chain) + LeafEntries(nodes[leaf])
  {
    assert (chain + [leaf])[..|chain|] == chain;
  }

  // ---------------------------------------------------------------------
  // Splitting a leaf (`split`, lab2.py:62-79), as a relation between the arena before and after

  /**
   * Leaf `node` of `before` was split: it keeps the first half of its
   * entries, a new leaf appended to the arena takes the rest and is linked in
   * right after it, and a split root is replaced by a new internal root over
   * the two halves, keyed by the new leaf's first key. No other node changes.
   */
  ghost predicate SplitLeaf(before: seq<Node>, rootBefore: nat, node: nat, after: seq<Node>, rootAfter: nat)
  {
    node < |before| &&
    var n, added := before[node], |before|;
    |after| > added &&
    after[node].isLeaf && after[added].isLeaf &&
    after[node].keys + after[added].keys == n.keys &&
    after[node].children + after[added].children == n.children &&
    |after[node].keys| == |n.keys| / 2 && |after[node].children| == |n.keys| / 2 &&
    after[node].next == Some(added) && after[added].next == n.next &&
    (if node == rootBefore then
       |after| == added + 2 && rootAfter == added + 1 && |after[added].keys| > 0 &&
       after[added + 1] == Node(false, [after[added].keys[0]], [Sub(node), Sub(added)], None)
     else
       |after| == added + 1 && rootAfter == rootBefore) &&
    forall i :: 0 <= i < added && i != node ==> after[i] == before[i]
  }

  // ---------------------------------------------------------------------
  // Rebalancing steps (`_rebalance_after_delete`, lab2.py:154-188), as relations between the arena before and after

  /** `index` is a position in the children of internal node `parent`, whose children are nodes. */
  ghost predicate Slot(nodes: seq<Node>, parent: nat, index: nat)
  {
    parent < |nodes| && !nodes[parent].isLeaf && index < |nodes[parent].children| &&
    |nodes[parent].children| == |nodes[parent].keys| + 1 &&
    forall j :: 0 <= j < |nodes[parent].children| ==>
      nodes[parent].children[j].Sub? && nodes[parent].children[j].index < |nodes|
  }

  /** The child of `parent` at position `j`. */
  ghost function Kid(nodes: seq<Node>, parent: nat, j: nat): nat
    requires Slot(nodes, parent, j)
  {
    nodes[parent].children[j].index
  }

  /** All nodes outside `changed` are as before. */
  ghost predicate UnchangedExcept(before: seq<Node>, after: seq<Node>, changed: set<nat>)
  {
    |after| == |before| && forall i :: 0 <= i < |before| && i !in changed ==> after[i] == before[i]
  }

  /**
   * Borrow from the left sibling: its last entry moves to the front of the
   * node (the two lists, read one after the other, are as before) and the
   * parent's key at `index - 1` becomes the node's new first key.
   */
  ghost predicate BorrowedLeft(before: seq<Node>, after: seq<Node>, parent: nat, index: nat)
  {
    Slot(before, parent, index) && index > 0 &&
    var node, left := Kid(before, parent, index), Kid(before, parent, index - 1);
    var p, l, n := before[parent], before[left], before[node];
    |after| == |before| && |l.keys| > 0 &&
    after[left].keys + after[node].keys == l.keys + n.keys &&
    after[left].children + after[node].children == l.children + n.children &&
    |after[left].keys| + 1 == |l.keys| && |after[left].children| + 1 == |l.children| &&
    after[left].isLeaf == l.isLeaf && after[left].next == l.next &&
    after[node].isLeaf == n.isLeaf && after[node].next == n.next &&
    after[parent] == p.(keys := p.keys[index - 1 := after[node].keys[0]]) &&
    UnchangedExcept(before, after, {parent, left, node})
  }

  /** The updates of lab2.py:162-166: the new left sibling and node, and the parent's new key. */
  ghost predicate BorrowLeftParts(before: seq<Node>, parent: nat, index: nat, l': Node, n': Node, pn': Node)
  {
    Slot(before, parent, index) && index > 0 &&
    Kid(before, parent, index - 1) != Kid(before, parent, index) &&
    var l, n := before[Kid(before, parent, index - 1)], before[Kid(before, parent, index)];
    |l.keys| > 0 && |l.children| > 0 &&
    l' == l.(keys := l.keys[..|l.keys| - 1], children := l.children[..|l.children| - 1]) &&
    n' == n.(keys := [l.keys[|l.keys| - 1]] + n.keys, children := [l.children[|l.children| - 1]] + n.children) &&
    pn' == before[parent].(keys := before[parent].keys[index - 1 := n'.keys[0]])
  }

  /** Borrowing from the left sibling keeps the arena shaped and chained. */
  lemma BorrowLeftKeepsShape(before: seq<Node>, height: seq<nat>, pos: seq<real>, parent: nat, index: nat,
                             l': Node, n': Node, pn': Node)
    requires Shaped(before, height) && Chained(before, pos)
    requires BorrowLeftParts(before, parent, index, l', n', pn')
    ensures var left, node := Kid(before, parent, index - 1), Kid(before, parent, index);
      var after := before[left := l'][node := n'][parent := pn'];
      Shaped(after, height) && Chained(after, pos)
  {
    var left, node := Kid(before, parent, index - 1), Kid(before, parent, index);
    var l, n := before[left], before[node];
    assert NodeOk(before[parent], height[parent], height);
    assert NodeOk(l, height[left], height);
    assert NodeOk(n, height[node], height);
    assert NodeOk(l', height[left], height);
    assert NodeOk(n', height[node], height);
    ReplaceNode(before, height, pos, left, l');
    var mid := before[left := l'];
    ReplaceNode(mid, height, pos, node, n');
    assert NodeOk(pn', height[parent], height);
    ReplaceNode(mid[node := n'], height, pos, parent, pn');
  }

  /** The updates of lab2.py:162-166 establish BorrowedLeft. */
  lemma BorrowLeftRelation(before: seq<Node>, parent: nat, index: nat, l': Node, n': Node, pn': Node)
    requires BorrowLeftParts(before, parent, index, l', n', pn')
    requires parent != Kid(before, parent, index - 1) && parent != Kid(before, parent, index)
    ensures var left, node := Kid(before, parent, index - 1), Kid(before, parent, index);
      BorrowedLeft(before, before[left := l'][node := n'][parent := pn'], parent, index)
  {
    var left, node := Kid(before, parent, index - 1), Kid(before, parent, index);
    ShiftRight(before[left].keys, before[node].keys);
    ShiftRight(before[left].children, before[node].children);
  }

  /**
   * Borrow from the right sibling: its first entry moves to the end of the
   * node and the parent's key at `index` becomes the sibling's new first key.
   */
  ghost predicate BorrowedRight(before: seq<Node>, after: seq<Node>, parent: nat, index: nat)
  {
    Slot(before, parent, index) && index + 1 < |before[parent].children| &&
    var node, right := Kid(before, parent, index), Kid(before, parent, index + 1);
    var p, n, r := before[parent], before[node], before[right];
    |after| == |before| && |r.keys| > 1 &&
    after[node].keys + after[right].keys == n.keys + r.keys &&
    after[node].children + after[right].children == n.children + r.children &&
    |after[right].keys| + 1 == |r.keys| && |after[right].children| + 1 == |r.children| &&
    after[node].isLeaf == n.isLeaf && after[node].next == n.next &&
    after[right].isLeaf == r.isLeaf && after[right].next == r.next &&
    after[parent] == p.(keys := p.keys[index := after[right].keys[0]]) &&
    UnchangedExcept(before, after, {parent, node, right})
  }

  /** The updates of lab2.py:170-174 establish BorrowedRight. */
  lemma BorrowRightRelation(before: seq<Node>, parent: nat, index: nat, n': Node, r': Node, pn': Node)
    requires Slot(before, parent, index) && index + 1 < |before[parent].children|
    requires var node, right := Kid(before, parent, index), Kid(before, parent, index + 1);
      right != node && parent != right && parent != node
    requires var r := before[Kid(before, parent, index + 1)];
      |r.keys| > 1 && |r.children| > 0 &&
      r' == r.(keys := r.keys[1..], children := r.children[1..])
    requires var n, r := before[Kid(before, parent, index)], before[Kid(before, parent, index + 1)];
      n' == n.(keys := n.keys + [r.keys[0]], children := n.children + [r.children[0]])
    requires pn' == before[parent].(keys := before[parent].keys[index := r'.keys[0]])
    ensures var node, right := Kid(before, parent, index), Kid(before, parent, index + 1);
      BorrowedRight(before, before[right := r'][node := n'][parent := pn'], parent, index)
  {
    var node, right := Kid(before, parent, index), Kid(before, parent, index + 1);
    ShiftLeft(before[node].keys, before[right].keys);
    ShiftLeft(before[node].children, before[right].children);
  }

  /**
   * Merge into the left sibling: it receives the node's keys and children
   * and its `next`; the parent loses its key at `index - 1` and its child at
   * `index`.
   */
  ghost predicate MergedLeft(before: seq<Node>, after: seq<Node>, parent: nat, index: nat)
  {
    Slot(before, parent, index) && index > 0 &&
    var node, left := Kid(before, parent, index), Kid(before, parent, index - 1);
    var p, l, n := before[parent], before[left], before[node];
    |after| == |before| &&
    after[left] == l.(keys := l.keys + n.keys, children := l.children + n.children, next := n.next) &&
    after[parent] == p.(keys := p.keys[..index - 1] + p.keys[index..],
                        children := p.children[..index] + p.children[index + 1..]) &&
    UnchangedExcept(before, after, {parent, left})
  }

  /**
   * Merge the right sibling into the node: the node receives its keys and
   * children and its `next`; the parent loses its key at `index` and its
   * child at `index + 1`.
   */
  ghost predicate MergedRight(before: seq<Node>, after: seq<Node>, parent: nat, index: nat)
  {
    Slot(before, parent, index) && index + 1 < |before[parent].children| &&
    var node, right := Kid(before, parent, index), Kid(before, parent, index + 1);
    var p, n, r := before[parent], before[node], before[right];
    |after| == |before| &&
    after[node] == n.(keys := n.keys + r.keys, children := n.children + r.children, next := r.next) &&
    after[parent] == p.(keys := p.keys[..index] + p.keys[index + 1..],
                        children := p.children[..index + 1] + p.children[index + 2..]) &&
    UnchangedExcept(before, after, {parent, node})
  }
}
