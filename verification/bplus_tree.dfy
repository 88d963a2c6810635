/**
 * The B+ tree engine (class BPlusTree): a root reference and an order over
 * an arena of nodes, with insertion and leaf splitting, point and range
 * search, deletion, and sibling borrow/merge rebalancing.
 */
module BPlus {
  import opened Wrappers
  import opened EntryOrder
  import opened TreeNodes

  /** `(order + 1) // 2 - 1`: a node with fewer keys is rebalanced. */
  function MinKeys(order: int): int
  {
    (order + 1) / 2 - 1
  }

  /**
   * What the rebalancing steps need of every node above height `h` so that
   * no list index is out of range: one more child than keys, and no child
   * listed twice.
   */
  ghost predicate SaneAbove(nodes: seq<Node>, height: seq<nat>, h: nat)
    requires |height| == |nodes|
  {
    forall i :: 0 <= i < |nodes| && height[i] > h ==>
      |nodes[i].children| == |nodes[i].keys| + 1 &&
      forall a, b :: 0 <= a < b < |nodes[i].children| ==> nodes[i].children[a] != nodes[i].children[b]
  }

  /** The first position of `c`: `children.index(c)`. */
  function ChildIndex(children: seq<Child>, c: Child): (i: nat)
    requires c in children
    ensures i < |children| && children[i] == c && c !in children[..i]
  {
    if children[0] == c then 0
    else
      var i := ChildIndex(children[1..], c);
      assert children[..i + 1] == [children[0]] + children[1..][..i];
      i + 1
  }

  /** The rule `_rebalance_after_delete` applied. */
  datatype Step = BorrowLeft | BorrowRight | MergeLeft | MergeRight | NoSibling

  /**
   * The rule chosen for the node at position `index` of `p`: borrow from the
   * left sibling, else the right one, when it has more than MinKeys keys;
   * otherwise merge with the left sibling, else the right one.
   */
  ghost function StepChosen(order: int, nodes: seq<Node>, p: nat, index: nat): Step
    requires Slot(nodes, p, index)
  {
    var kids := nodes[p].children;
    if index > 0 && |nodes[kids[index - 1].index].keys| > MinKeys(order) then BorrowLeft
    else if index + 1 < |kids| && |nodes[kids[index + 1].index].keys| > MinKeys(order) then BorrowRight
    else if index > 0 then MergeLeft
    else if index + 1 < |kids| then MergeRight
    else NoSibling
  }

  /**
   * One step of `_rebalance_after_delete` (lab2.py:154-193) at position
   * `index` of `p` takes arena `before` with root `rootBefore` to `after`
   * with root `rootAfter`; `recurse` says whether the parent is rebalanced
   * next. Only `p` and its children change. After a merge (or with no
   * sibling) a root left without keys gives way to its first child.
   */
  ghost predicate StepTaken(order: int, before: seq<Node>, rootBefore: nat, p: nat, index: nat,
                            after: seq<Node>, rootAfter: nat, recurse: bool)
  {
    Slot(before, p, index) && |after| == |before| &&
    UnchangedExcept(before, after, {p} + set j | 0 <= j < |before[p].children| :: Kid(before, p, j)) &&
    var step := StepChosen(order, before, p, index);
    (step == BorrowLeft ==> BorrowedLeft(before, after, p, index) && rootAfter == rootBefore && !recurse) &&
    (step == BorrowRight ==> BorrowedRight(before, after, p, index) && rootAfter == rootBefore && !recurse) &&
    (step == MergeLeft ==> MergedLeft(before, after, p, index)) &&
    (step == MergeRight ==> MergedRight(before, after, p, index)) &&
    (step == NoSibling ==> after == before) &&
    (step in {MergeLeft, MergeRight, NoSibling} ==>
      |after[p].children| > 0 && after[p].children[0].Sub? &&
      var emptyRoot := p == rootBefore && |after[p].keys| == 0;
      (emptyRoot ==> rootAfter == after[p].children[0].index && !recurse) &&
      (!emptyRoot ==> rootAfter == rootBefore && recurse == (|after[p].keys| < MinKeys(order))))
  }

  /** A borrow from either sibling is a step that keeps the root and stops the climb. */
  lemma BorrowTaken(order: int, before: seq<Node>, root: nat, p: nat, index: nat, after: seq<Node>)
    requires Slot(before, p, index)
    requires StepChosen(order, before, p, index) == BorrowLeft ==> BorrowedLeft(before, after, p, index)
    requires StepChosen(order, before, p, index) == BorrowRight ==> BorrowedRight(before, after, p, index)
    requires StepChosen(order, before, p, index) in {BorrowLeft, BorrowRight}
    ensures StepTaken(order, before, root, p, index, after, root, false)
  {
    var kids := set j | 0 <= j < |before[p].children| :: Kid(before, p, j);
    assert Kid(before, p, index) in kids;
    if StepChosen(order, before, p, index) == BorrowLeft {
      assert Kid(before, p, index - 1) in kids;
    } else {
      assert Kid(before, p, index + 1) in kids;
    }
  }

  /** A merge (or no sibling at all) followed by the root collapse or the decision to climb. */
  lemma MergeTaken(order: int, before: seq<Node>, rootBefore: nat, p: nat, index: nat,
                   after: seq<Node>, rootAfter: nat, recurse: bool)
    requires Slot(before, p, index)
    requires StepChosen(order, before, p, index) == MergeLeft ==> MergedLeft(before, after, p, index)
    requires StepChosen(order, before, p, index) == MergeRight ==> MergedRight(before, after, p, index)
    requires StepChosen(order, before, p, index) == NoSibling ==> after == before
    requires StepChosen(order, before, p, index) in {MergeLeft, MergeRight, NoSibling}
    requires |after| == |before| && |after[p].children| > 0 && after[p].children[0].Sub?
    requires var emptyRoot := p == rootBefore && |after[p].keys| == 0;
      (emptyRoot ==> rootAfter == after[p].children[0].index && !recurse) &&
      (!emptyRoot ==> rootAfter == rootBefore && recurse == (|after[p].keys| < MinKeys(order)))
    ensures StepTaken(order, before, rootBefore, p, index, after, rootAfter, recurse)
  {
    var kids := set j | 0 <= j < |before[p].children| :: Kid(before, p, j);
    assert Kid(before, p, index) in kids;
    if StepChosen(order, before, p, index) == MergeLeft {
      assert Kid(before, p, index - 1) in kids;
    }
  }

  /**
   * The whole of `_rebalance_after_delete` (lab2.py:149-193) started on
   * `node`: when `find_parent` finds no parent nothing changes; otherwise one
   * step is taken at the node's first position in its parent and, when that
   * step asks for it, the whole is repeated on the parent from the new arena.
   */
  ghost predicate Climbed(order: int, height: seq<nat>, before: seq<Node>, rootBefore: nat, node: nat,
                          after: seq<Node>, rootAfter: nat)
    requires Shaped(before, height) && rootBefore < |before|
    decreases if node < |height| && height[node] <= height[rootBefore] then height[rootBefore] - height[node] else 0
  {
    match FindParent(before, height, rootBefore, node)
    case None => after == before && rootAfter == rootBefore
    case Some(p) =>
      var index := ChildIndex(before[p].children, Sub(node));
      exists mid: seq<Node>, midRoot: nat, recurse: bool ::
        StepTaken(order, before, rootBefore, p, index, mid, midRoot, recurse) &&
        if recurse then midRoot == rootBefore && Shaped(mid, height) && Climbed(order, height, mid, rootBefore, p, after, rootAfter)
        else after == mid && rootAfter == midRoot
  }

  class BPlusTree {
    var root: nat
    var nodes: seq<Node>
    const order: int
    /** Ghost: each node's height above the leaves. */
    ghost var height: seq<nat>
    /** Ghost: each node's place in the order of the leaf chain. */
    ghost var pos: seq<real>

    ghost predicate Valid()
      reads this
    {
      Shaped(nodes, height) && Chained(nodes, pos) && root < |nodes|
    }

    /** A new tree is a single empty leaf; the order defaults to 4. */
    constructor (order: int := 4)
      ensures Valid() && this.order == order
      ensures nodes == [EMPTY_LEAF] && root == 0
    {
      this.order := order;
      root := 0;
      nodes := [EMPTY_LEAF];
      height := [0];
      pos := [0.0];
    }

    /** `find_leaf`: descend from the root, taking child RouteIndex at every internal node. */
    method FindLeaf(key: int) returns (leaf: nat)
      requires Valid()
      ensures leaf == Descend(nodes, height, root, key)
      ensures leaf < |nodes| && nodes[leaf].isLeaf
    {
      var current: nat := root;
      while !nodes[current].isLeaf
        invariant current < |nodes|
        invariant Descend(nodes, height, current, key) == Descend(nodes, height, root, key)
        decreases height[current]
      {
        var n := nodes[current];
        assert NodeOk(n, height[current], height);
        var i := 0;
        while i < |n.keys| && key >= n.keys[i]
          invariant 0 <= i <= |n.keys|
          invariant forall j :: 0 <= j < i ==> n.keys[j] <= key
        {
          i := i + 1;
        }
        assert i == RouteIndex(n.keys, key);
        current := n.children[i].index;
      }
      leaf := current;
    }

    /** `search`: the value of the first entry with this key in the leaf `find_leaf` reaches. */
    method Search(key: int) returns (r: Option<Value>)
      requires Valid()
      ensures var n := nodes[Descend(nodes, height, root, key)];
        LeafOk(n) && r == LeafLookup(n, key) && (r.Some? <==> key in n.keys)
    {
      var leaf := FindLeaf(key);
      var n := nodes[leaf];
      assert NodeOk(n, height[leaf], height);
      var i := 0;
      while i < |n.keys|
        invariant 0 <= i <= |n.keys|
        invariant key !in n.keys[..i]
      {
        if n.keys[i] == key {
          FirstIndexAt(n.keys, key, i);
          return Some(n.children[i].value);
        }
        assert n.keys[..i + 1] == n.keys[..i] + [n.keys[i]];
        i := i + 1;
      }
      assert n.keys[..i] == n.keys;
      return None;
    }

    /**
     * `insert`: put the entry into the leaf `find_leaf` reaches, in front of
     * any equal keys, and split that leaf exactly when it then holds more
     * than `order - 1` keys. Without a split, a search for the key finds the
     * new value at once.
     */
    method Insert(key: int, value: Value) returns (ghost split: bool)
      requires Valid()
      modifies this
      ensures Valid()
      ensures var leaf := Descend(old(nodes), old(height), old(root), key);
        LeafOk(old(nodes)[leaf]) &&
        var n := WithEntry(old(nodes)[leaf], key, value);
        split == (|n.keys| > order - 1) &&
        (!split ==> nodes == old(nodes)[leaf := n] && root == old(root)) &&
        (split ==> SplitLeaf(old(nodes)[leaf := n], old(root), leaf, nodes, root))
      ensures !split ==>
        var n := nodes[Descend(nodes, height, root, key)];
        LeafOk(n) && LeafLookup(n, key) == Some(value)
    {
      var leaf := FindLeaf(key);
      var n := nodes[leaf];
      assert NodeOk(n, height[leaf], height);
      var insertIndex := 0;
      while insertIndex < |n.keys| && key > n.keys[insertIndex]
        invariant 0 <= insertIndex <= |n.keys|
        invariant forall j :: 0 <= j < insertIndex ==> n.keys[j] < key
      {
        insertIndex := insertIndex + 1;
      }
      assert insertIndex == InsertPos(n.keys, key);
      var n' := n.(keys := n.keys[..insertIndex] + [key] + n.keys[insertIndex..],
                   children := n.children[..insertIndex] + [Item(value)] + n.children[insertIndex..]);
      assert n' == WithEntry(n, key, value);
      WithEntryKeepsOrder(n, key, value);
      LookupAfterInsert(n, key, value);
      ShapedUpdate(nodes, height, leaf, n');
      ChainedUpdate(nodes, pos, leaf, n');
      ghost var before := nodes;
      nodes := nodes[leaf := n'];
      var overfull := |n'.keys| > order - 1;
      split := overfull;
      if overfull {
        Split(leaf);
      } else {
        DescendFrame(before, nodes, height, root, key);
      }
    }

    /**
     * `split` of a leaf: the leaf keeps its first half, a new leaf takes the
     * rest and follows it in the chain; a split root gets a new internal root
     * above the two. A non-root leaf's new sibling is never added to an
     * internal node, because `find_parent` does not return the parent of a leaf.
     */
    method Split(node: nat)
      requires Valid() && node < |nodes| && nodes[node].isLeaf && |nodes[node].keys| > 0
      modifies this
      ensures Valid()
      ensures SplitLeaf(old(nodes), old(root), node, nodes, root)
    {
      var n := nodes[node];
      assert NodeOk(n, height[node], height);
      var mid := |n.keys| / 2;
      var added := |nodes|;
      // the new node takes the upper halves, the split node keeps the lower ones;
      // a leaf is linked in right after the split one
      var newNode := Node(n.isLeaf, n.keys[mid..], n.children[mid..], n.next);
      var kept := n.(keys := n.keys[..mid], children := n.children[..mid], next := Some(added));
      ghost var newPos := if n.next.Some? then (pos[node] + pos[n.next.value]) / 2.0 else pos[node] + 1.0;
      SplitHalvesOk(n, mid, Some(added));
      SplitArena(nodes, height, pos, node, kept, newNode, newPos);
      assert n.keys[..mid] + n.keys[mid..] == n.keys;
      assert n.children[..mid] + n.children[mid..] == n.children;
      ghost var before := nodes;
      nodes := nodes[node := kept] + [newNode];
      height := height + [0];
      pos := pos + [newPos];
      assert forall i :: 0 <= i < added && i != node ==> nodes[i] == before[i];
      if node == root {
        var newRoot := Node(false, [newNode.keys[0]], [Sub(node), Sub(added)], None);
        assert NodeOk(newRoot, 1, height + [1]);
        ShapedAppend(nodes, height, newRoot, 1);
        ChainedAppend(nodes, pos, newRoot, 0.0);
        nodes := nodes + [newRoot];
        height := height + [1];
        pos := pos + [0.0];
        root := added + 1;
      } else {
        var parent := FindParent(nodes, height, root, node);
        if parent.Some? {
          // find_parent never returns the parent of a leaf: lab2.py:83-87 are not reached
          assert false;
        }
      }
    }

    /**
     * `delete`: remove the first entry with this key from the leaf
     * `find_leaf` reaches, or report False and change nothing. A root leaf
     * left empty is replaced by a fresh empty leaf; otherwise rebalancing is
     * started exactly when fewer than MinKeys keys remain, and it changes
     * nothing because a leaf has no parent `find_parent` can find. When the
     * leaf held the key once, a search for it then finds nothing.
     */
    method Delete(key: int) returns (ok: bool, ghost rebalanced: bool)
      requires Valid()
      modifies this
      ensures Valid()
      ensures var leaf := Descend(old(nodes), old(height), old(root), key);
        var n := old(nodes)[leaf];
        LeafOk(n) && ok == (key in n.keys) &&
        (!ok ==> nodes == old(nodes) && root == old(root) && !rebalanced) &&
        (ok ==>
          var n' := WithoutEntry(n, FirstIndex(n.keys, key).value);
          var emptied := leaf == old(root) && |n'.keys| == 0;
          (emptied ==> nodes == old(nodes)[leaf := n'] + [EMPTY_LEAF] && root == |old(nodes)|) &&
          (!emptied ==> nodes == old(nodes)[leaf := n'] && root == old(root)) &&
          rebalanced == (!emptied && |n'.keys| < MinKeys(order)))
      ensures ok && multiset(old(nodes)[Descend(old(nodes), old(height), old(root), key)].keys)[key] == 1 ==>
        var n := nodes[Descend(nodes, height, root, key)];
        LeafOk(n) && LeafLookup(n, key) == None
    {
      rebalanced := false;
      var leaf := FindLeaf(key);
      var n := nodes[leaf];
      assert NodeOk(n, height[leaf], height);
      if key !in n.keys {
        return false, rebalanced;
      }
      var index := FirstIndex(n.keys, key).value;
      var n' := n.(keys := n.keys[..index] + n.keys[index + 1..],
                   children := n.children[..index] + n.children[index + 1..]);
      assert n' == WithoutEntry(n, index);
      RemoveFirstOccurrence(n, key);
      ShapedUpdate(nodes, height, leaf, n');
      ChainedUpdate(nodes, pos, leaf, n');
      ghost var before := nodes;
      nodes := nodes[leaf := n'];
      if root == leaf && |n'.keys| == 0 {
        ShapedAppend(nodes, height, EMPTY_LEAF, 0);
        ChainedAppend(nodes, pos, EMPTY_LEAF, 0.0);
        nodes := nodes + [EMPTY_LEAF];
        height := height + [0];
        pos := pos + [0.0];
        root := |nodes| - 1;
        return true, rebalanced;
      }
      DescendFrame(before, nodes, height, root, key);
      var minKeys := MinKeys(order);
      if |n'.keys| < minKeys {
        Rebalance(leaf);
        rebalanced := true;
      }
      return true, rebalanced;
    }

    /**
     * `_rebalance_after_delete`: look up the node's parent; without one, stop.
     * Otherwise apply one rebalancing step at the node's first position in
     * the parent, and continue with the parent when the step asks for it;
     * the arena and root reached are those Climbed relates to the old ones.
     * The requirement applies only where a parent is found, so it is empty
     * for a leaf.
     */
    method Rebalance(node: nat)
      requires Valid() && node < |nodes|
      requires FindParent(nodes, height, root, node).Some? ==>
        order >= 3 && SaneAbove(nodes, height, height[node])
      modifies this
      ensures Valid() && |nodes| == old(|nodes|) && height == old(height)
      ensures FindParent(old(nodes), old(height), old(root), node).None? ==>
        nodes == old(nodes) && root == old(root)
      ensures Climbed(order, height, old(nodes), old(root), node, nodes, root)
      decreases if height[node] <= height[root] then height[root] - height[node] else 0
    {
      var parent := FindParent(nodes, height, root, node);
      if parent.None? {
        return;
      }
      var p := parent.value;
      var index := ChildIndex(nodes[p].children, Sub(node));
      SlotOf(p, index, node);
      ghost var before, rootBefore := nodes, root;
      var recurse, step := RebalanceAt(p, index);
      ghost var mid, midRoot := nodes, root;
      if recurse {
        SaneAboveKept(before, p, index, node);
        Rebalance(p);
      }
      assert StepTaken(order, before, rootBefore, p, index, mid, midRoot, recurse);
    }

    /** The facts about parent `p` that the rebalancing steps require. */
    lemma SlotOf(p: nat, index: nat, node: nat)
      requires Valid() && order >= 3 && node < |nodes| && IsParent(nodes, p, node) && height[p] == height[node] + 1
      requires SaneAbove(nodes, height, height[node])
      requires index < |nodes[p].children| && nodes[p].children[index] == Sub(node)
      requires Sub(node) !in nodes[p].children[..index]
      ensures Slot(nodes, p, index) && Kid(nodes, p, index) == node
      ensures index > 0 ==> Kid(nodes, p, index - 1) != node
      ensures index + 1 < |nodes[p].children| ==> Kid(nodes, p, index + 1) != node
    {
      assert NodeOk(nodes[p], height[p], height);
      if index > 0 {
        assert nodes[p].children[index - 1] in nodes[p].children[..index];
      }
    }

    /** A step below height `height[p]` leaves every node above `p` as it was. */
    lemma SaneAboveKept(before: seq<Node>, p: nat, index: nat, node: nat)
      requires Shaped(before, height) && Shaped(nodes, height)
      requires node < |before| && SaneAbove(before, height, height[node])
      requires Slot(before, p, index) && height[p] == height[node] + 1
      requires UnchangedExcept(before, nodes, {p} + set j | 0 <= j < |before[p].children| :: Kid(before, p, j))
      ensures SaneAbove(nodes, height, height[p])
    {
      assert NodeOk(before[p], height[p], height);
      forall i | 0 <= i < |nodes| && height[i] > height[p]
        ensures nodes[i] == before[i]
      {
      }
    }

    /**
     * `_rebalance_after_delete` (lab2.py:154-193) for the node at position
     * `index` of `p`: borrow from the left sibling, else from the right one,
     * when that sibling has more than MinKeys keys; otherwise merge with the
     * left sibling, else the right one. After a merge (or with no sibling) a
     * root left without keys is replaced by its first child, and `recurse`
     * says whether the parent is now under MinKeys and is rebalanced in turn.
     */
    method RebalanceAt(p: nat, index: nat) returns (recurse: bool, ghost step: Step)
      requires Valid() && order >= 3 && Slot(nodes, p, index)
      requires index > 0 ==> Kid(nodes, p, index - 1) != Kid(nodes, p, index)
      requires index + 1 < |nodes[p].children| ==> Kid(nodes, p, index + 1) != Kid(nodes, p, index)
      requires nodes[Kid(nodes, p, index)].isLeaf ==>
        (index > 0 ==> pos[Kid(nodes, p, index - 1)] < pos[Kid(nodes, p, index)]) &&
        (index + 1 < |nodes[p].children| ==> pos[Kid(nodes, p, index)] < pos[Kid(nodes, p, index + 1)])
      modifies this
      ensures Valid() && height == old(height) && pos == old(pos)
      ensures step == StepChosen(order, old(nodes), p, index)
      ensures StepTaken(order, old(nodes), old(root), p, index, nodes, root, recurse)
    {
      var minKeys := MinKeys(order);
      var kids := nodes[p].children;
      if index > 0 && |nodes[kids[index - 1].index].keys| > minKeys {
        BorrowFromLeft(p, index);
        BorrowTaken(order, old(nodes), root, p, index, nodes);
        return false, BorrowLeft;
      }
      if index + 1 < |kids| && |nodes[kids[index + 1].index].keys| > minKeys {
        BorrowFromRight(p, index);
        BorrowTaken(order, old(nodes), root, p, index, nodes);
        return false, BorrowRight;
      }
      if index > 0 {
        MergeWithLeft(p, index);
        step := MergeLeft;
      } else if index + 1 < |kids| {
        MergeWithRight(p, index);
        step := MergeRight;
      } else {
        step := NoSibling;
      }
      assert NodeOk(nodes[p], height[p], height);
      if p == root && |nodes[p].keys| == 0 {
        root := nodes[p].children[0].index;
        recurse := false;
      } else {
        recurse := |nodes[p].keys| < minKeys;
      }
      MergeTaken(order, old(nodes), old(root), p, index, nodes, root, recurse);
    }

    /** `_rebalance_after_delete`, lab2.py:161-167: move the left sibling's last entry to the front of the node. */
    method BorrowFromLeft(p: nat, index: nat)
      requires Valid() && Slot(nodes, p, index) && index > 0
      requires Kid(nodes, p, index - 1) != Kid(nodes, p, index)
      requires |nodes[Kid(nodes, p, index - 1)].keys| > 0
      modifies this
      ensures Valid() && height == old(height) && pos == old(pos) && root == old(root)
      ensures BorrowedLeft(old(nodes), nodes, p, index)
    {
      var left, node := nodes[p].children[index - 1].index, nodes[p].children[index].index;
      var l, n := nodes[left], nodes[node];
      assert height[left] + 1 == height[p] && height[node] + 1 == height[p] && |l.children| >= |l.keys| by {
        assert NodeOk(nodes[p], height[p], height);
        assert NodeOk(l, height[left], height);
      }
      var borrowedKey, borrowedChild := l.keys[|l.keys| - 1], l.children[|l.children| - 1];
      var l' := l.(keys := l.keys[..|l.keys| - 1], children := l.children[..|l.children| - 1]);
      var n' := n.(keys := [borrowedKey] + n.keys, children := [borrowedChild] + n.children);
      var pn' := nodes[p].(keys := nodes[p].keys[index - 1 := n'.keys[0]]);
      BorrowLeftKeepsShape(nodes, height, pos, p, index, l', n', pn');
      BorrowLeftRelation(nodes, p, index, l', n', pn');
      nodes := nodes[left := l'][node := n'][p := pn'];
    }

    /** `_rebalance_after_delete`, lab2.py:169-175: move the right sibling's first entry to the end of the node. */
    method BorrowFromRight(p: nat, index: nat)
      requires Valid() && Slot(nodes, p, index) && index + 1 < |nodes[p].children|
      requires Kid(nodes, p, index + 1) != Kid(nodes, p, index)
      requires |nodes[Kid(nodes, p, index + 1)].keys| > 1
      modifies this
      ensures Valid() && height == old(height) && pos == old(pos) && root == old(root)
      ensures BorrowedRight(old(nodes), nodes, p, index)
    {
      ghost var before := nodes;
      var node, right := nodes[p].children[index].index, nodes[p].children[index + 1].index;
      var n, r := nodes[node], nodes[right];
      assert height[right] + 1 == height[p] && height[node] + 1 == height[p] && |r.children| >= |r.keys| by {
        assert NodeOk(nodes[p], height[p], height);
        assert NodeOk(r, height[right], height);
      }
      var borrowedKey, borrowedChild := r.keys[0], r.children[0];
      var r' := r.(keys := r.keys[1..], children := r.children[1..]);
      var n' := n.(keys := n.keys + [borrowedKey], children := n.children + [borrowedChild]);
      assert NodeOk(r', height[right], height) && NodeOk(n', height[node], height) by {
        assert NodeOk(nodes[p], height[p], height);
        assert NodeOk(r, height[right], height);
        assert NodeOk(n, height[node], height);
      }
      ReplaceNode(nodes, height, pos, right, r');
      nodes := nodes[right := r'];
      ReplaceNode(nodes, height, pos, node, n');
      nodes := nodes[node := n'];
      var pn := nodes[p];
      var pn' := pn.(keys := pn.keys[index := r'.keys[0]]);
      assert NodeOk(pn', height[p], height) by {
        assert NodeOk(pn, height[p], height);
      }
      ReplaceNode(nodes, height, pos, p, pn');
      nodes := nodes[p := pn'];
      BorrowRightRelation(before, p, index, n', r', pn');
    }

    /** `_rebalance_after_delete`, lab2.py:177-182: the left sibling absorbs the node and takes its `next`. */
    method MergeWithLeft(p: nat, index: nat)
      requires Valid() && Slot(nodes, p, index) && index > 0
      requires Kid(nodes, p, index - 1) != Kid(nodes, p, index)
      requires nodes[Kid(nodes, p, index)].isLeaf ==> pos[Kid(nodes, p, index - 1)] < pos[Kid(nodes, p, index)]
      modifies this
      ensures Valid() && height == old(height) && pos == old(pos) && root == old(root)
      ensures MergedLeft(old(nodes), nodes, p, index)
    {
      var left, node := nodes[p].children[index - 1].index, nodes[p].children[index].index;
      assert NodeOk(nodes[p], height[p], height);
      var l, n := nodes[left], nodes[node];
      assert NodeOk(l, height[left], height);
      assert NodeOk(n, height[node], height);
      var l' := l.(keys := l.keys + n.keys, children := l.children + n.children, next := n.next);
      assert NodeOk(l', height[left], height);
      ShapedUpdate(nodes, height, left, l');
      ChainedUpdate(nodes, pos, left, l');
      nodes := nodes[left := l'];
      var pn := nodes[p];
      var pn' := pn.(keys := pn.keys[..index - 1] + pn.keys[index..],
                     children := pn.children[..index] + pn.children[index + 1..]);
      assert NodeOk(pn', height[p], height);
      ReplaceNode(nodes, height, pos, p, pn');
      nodes := nodes[p := pn'];
    }

    /** `_rebalance_after_delete`, lab2.py:183-188: the node absorbs its right sibling and takes its `next`. */
    method MergeWithRight(p: nat, index: nat)
      requires Valid() && Slot(nodes, p, index) && index + 1 < |nodes[p].children|
      requires Kid(nodes, p, index + 1) != Kid(nodes, p, index)
      requires nodes[Kid(nodes, p, index)].isLeaf ==> pos[Kid(nodes, p, index)] < pos[Kid(nodes, p, index + 1)]
      modifies this
      ensures Valid() && height == old(height) && pos == old(pos) && root == old(root)
      ensures MergedRight(old(nodes), nodes, p, index)
    {
      var node, right := nodes[p].children[index].index, nodes[p].children[index + 1].index;
      assert NodeOk(nodes[p], height[p], height);
      var n, r := nodes[node], nodes[right];
      assert NodeOk(n, height[node], height);
      assert NodeOk(r, height[right], height);
      var n' := n.(keys := n.keys + r.keys, children := n.children + r.children, next := r.next);
      assert NodeOk(n', height[node], height);
      ShapedUpdate(nodes, height, node, n');
      ChainedUpdate(nodes, pos, node, n');
      nodes := nodes[node := n'];
      var pn := nodes[p];
      var pn' := pn.(keys := pn.keys[..index] + pn.keys[index + 1..],
                     children := pn.children[..index + 1] + pn.children[index + 2..]);
      assert NodeOk(pn', height[p], height);
      ReplaceNode(nodes, height, pos, p, pn');
      nodes := nodes[p := pn'];
    }

    /**
     * The walk along `next` from `start` that both range searches make,
     * keeping the entries on `side` of `key` in the order met.
     */
    method Collect(start: nat, key: int, side: Side) returns (result: seq<Entry>)
      requires Valid() && start < |nodes| && nodes[start].isLeaf
      ensures LeafChain(nodes, Chain(nodes, pos, start))
      ensures result == Select(ChainEntries(nodes, Chain(nodes, pos, start)), key, side)
    {
      ChainOfLeaves(start);
      result := [];
      var current: Option<nat> := Some(start);
      ghost var visited: seq<nat> := [];
      ghost var rest := Chain(nodes, pos, start);
      assert visited + rest == rest;
      while current.Some?
        invariant LeafChain(nodes, visited)
        invariant current.Some? ==> current.value < |nodes| && nodes[current.value].isLeaf
        invariant current.Some? ==> rest == Chain(nodes, pos, current.value)
        invariant current.None? ==> rest == []
        invariant visited + rest == Chain(nodes, pos, start)
        invariant result == Select(ChainEntries(nodes, visited), key, side)
        decreases if current.Some? then |Ahead(pos, pos[current.value])| + 1 else 0
      {
        var leaf := current.value;
        var n := nodes[leaf];
        assert NodeOk(n, height[leaf], height);
        SelectAppend(ChainEntries(nodes, visited), LeafEntries(n), key, side);
        result := CollectLeaf(n, key, side, result);
        ChainEntriesSnoc(nodes, visited, leaf);
        ChainStep(nodes, pos, leaf, visited);
        visited := visited + [leaf];
        if n.next.Some? {
          AheadShrinks(pos, leaf, n.next.value);
          rest := Chain(nodes, pos, n.next.value);
        } else {
          rest := [];
        }
        current := n.next;
      }
      assert visited + [] == visited;
    }

    /** The inner loop of both range searches: the entries of one leaf on `side` of `key`, in order. */
    static method CollectLeaf(n: Node, key: int, side: Side, acc: seq<Entry>) returns (result: seq<Entry>)
      requires LeafOk(n)
      ensures result == acc + Select(LeafEntries(n), key, side)
    {
      ghost var es := LeafEntries(n);
      result := acc;
      assert es[..0] == [];
      var j := 0;
      while j < |n.keys|
        invariant 0 <= j <= |n.keys|
        invariant result == acc + Select(es[..j], key, side)
      {
        assert es[..j + 1] == es[..j] + [es[j]];
        SelectSnoc(es[..j], es[j], key, side);
        if Beyond(n.keys[j], key, side) {
          result := result + [(n.keys[j], n.children[j].value)];
        }
        j := j + 1;
      }
      assert es[..j] == es;
    }

    lemma ChainOfLeaves(start: nat)
      requires Valid() && start < |nodes| && nodes[start].isLeaf
      ensures LeafChain(nodes, Chain(nodes, pos, start))
    {
      var c := Chain(nodes, pos, start);
      forall k | 0 <= k < |c|
        ensures c[k] < |nodes| && nodes[c[k]].isLeaf && LeafOk(nodes[c[k]])
      {
        assert NodeOk(nodes[c[k]], height[c[k]], height);
      }
    }

    /**
     * `search_greater`: the values of exactly the entries with a key above
     * `key` in the leaves met along `next` from the leaf `find_leaf` reaches,
     * ordered by `(key, value)`.
     */
    method SearchGreater(key: int) returns (r: seq<Value>)
      requires Valid()
      ensures var chain := Chain(nodes, pos, Descend(nodes, height, root, key));
        LeafChain(nodes, chain) &&
        var hits := Select(ChainEntries(nodes, chain), key, Greater);
        r == Values(SortEntries(hits)) && |r| == |hits|
    {
      var leaf := FindLeaf(key);
      var result := Collect(leaf, key, Greater);
      r := Values(SortEntries(result));
    }

    /**
     * `search_less`: the values of exactly the entries with a key below
     * `key` in the leaves met along `next` from the leftmost leaf, ordered by
     * `(key, value)`.
     */
    method SearchLess(key: int) returns (r: seq<Value>)
      requires Valid()
      ensures var chain := Chain(nodes, pos, Leftmost(nodes, height, root));
        LeafChain(nodes, chain) &&
        var hits := Select(ChainEntries(nodes, chain), key, Less);
        r == Values(SortEntries(hits)) && |r| == |hits|
    {
      var current: nat := root;
      while !nodes[current].isLeaf
        invariant current < |nodes|
        invariant Leftmost(nodes, height, current) == Leftmost(nodes, height, root)
        decreases height[current]
      {
        assert NodeOk(nodes[current], height[current], height);
        current := nodes[current].children[0].index;
      }
      var result := Collect(current, key, Less);
      r := Values(SortEntries(result));
    }
  }
}
