/**
 * The state of a B+ tree as a value, and the invariant every operation keeps.
 *
 * A `Node` is the C struct: fixed arrays plus a live count, a parent pointer and a leaf chain.
 * A `View` is what a node means: only the live prefix of each array, together with the ghost
 * key range and height of the node. A `Tree` is a snapshot of all nodes. The invariant is local
 * (one clause per node), so each step of an insertion has to be justified only where it writes.
 */
module BPTreeModel {
  import opened Wrappers
  import opened Records

  const BPTREE_ORDER := 4
  const BPTREE_MAX_KEYS := BPTREE_ORDER - 1

  type Count = n: int | 0 <= n <= BPTREE_MAX_KEYS witness 0
  type KeyArray = s: seq<int> | |s| == BPTREE_MAX_KEYS witness [0, 0, 0]
  type ValueArray = s: seq<Pointer> | |s| == BPTREE_MAX_KEYS witness [None, None, None]
  type ChildArray = s: seq<Node?> | |s| == BPTREE_ORDER witness [null, null, null, null]

  /** A tree node. The arrays are part of the struct, so writing a slot is writing the node. */
  class Node {
    var isLeaf: bool
    var numKeys: Count
    var keys: KeyArray
    var values: ValueArray
    var children: ChildArray
    var parent: Node?
    var next: Node?

    // The half-open key range this node is responsible for, and its distance to the leaves.
    ghost var lo: Option<int>
    ghost var hi: Option<int>
    ghost var height: nat

    constructor (isLeaf: bool)
      ensures this.isLeaf == isLeaf && numKeys == 0 && parent == null && next == null
      ensures lo == None && hi == None && height == 0
    {
      this.isLeaf := isLeaf;
      numKeys := 0;
      keys := [0, 0, 0];
      values := [None, None, None];
      children := [null, null, null, null];
      parent := null;
      next := null;
      lo, hi, height := None, None, 0;
    }

    ghost function GetView(): View
      reads this
    {
      View(isLeaf, keys[..numKeys],
           if isLeaf then values[..numKeys] else [],
           if isLeaf then [] else children[..numKeys + 1],
           parent, next, lo, hi, height)
    }
  }

  datatype View = View(
    isLeaf: bool,
    keys: seq<int>,
    values: seq<Pointer>,
    children: seq<Node?>,
    parent: Node?,
    next: Node?,
    lo: Option<int>,
    hi: Option<int>,
    height: nat)

  datatype Tree = Tree(nodes: map<Node, View>, root: Node?, leaves: seq<Node>, contents: map<int, Pointer>)

  /**
   * Whether a split still waits for its separator to reach the parent. While `Split(left, right,
   * hi)` is pending, the two nodes share the slot of `left`, whose range used to end at `hi`.
   */
  datatype Pending = Settled | Split(left: Node, right: Node, hi: Option<int>)

  // ---------------------------------------------------------------- ranges

  predicate AtLeast(k: int, lo: Option<int>) { lo.Some? ==> lo.value <= k }
  predicate Above(k: int, lo: Option<int>) { lo.Some? ==> lo.value < k }
  predicate Below(k: int, hi: Option<int>) { hi.Some? ==> k < hi.value }

  predicate InRange(v: View, k: int) { AtLeast(k, v.lo) && Below(k, v.hi) }

  ghost predicate Sorted(s: seq<int>) {
    forall i, j :: 0 <= i < j < |s| ==> s[i] < s[j]
  }

  // ---------------------------------------------------------------- invariant

  /** One node by itself: counts, order and range of its keys. */
  ghost predicate ViewOk(v: View) {
    && 1 <= |v.keys| <= BPTREE_MAX_KEYS
    && Sorted(v.keys)
    && (v.isLeaf <==> v.height == 0)
    && (v.isLeaf ==> |v.values| == |v.keys| && v.children == [])
    && (!v.isLeaf ==> |v.children| == |v.keys| + 1 && v.values == [] && v.next == null)
    && (forall i :: 0 <= i < |v.keys| ==>
          (if v.isLeaf then AtLeast(v.keys[i], v.lo) else Above(v.keys[i], v.lo)) && Below(v.keys[i], v.hi))
  }

  /** A leaf that is not the whole tree is at least half full. */
  ghost predicate FillOk(t: Tree, p: Pending, n: Node)
    requires n in t.nodes
  {
    t.nodes[n].isLeaf ==> |t.nodes[n].keys| >= 2 || (n == t.root && p.Settled?)
  }

  /** The range end of a child as its parent sees it: a pending pair counts as one child. */
  ghost function OuterHi(t: Tree, p: Pending, c: Node): Option<int>
    requires c in t.nodes
  {
    if p.Split? && c == p.left then p.hi else t.nodes[c].hi
  }

  ghost function SlotLo(v: View, i: nat): Option<int>
    requires i <= |v.keys|
  {
    if i == 0 then v.lo else Some(v.keys[i - 1])
  }

  ghost function SlotHi(v: View, i: nat): Option<int>
    requires i <= |v.keys|
  {
    if i == |v.keys| then v.hi else Some(v.keys[i])
  }

  /** Child `c` in slot `i` of `n`: a node one level down, pointing back, covering the slot's range. */
  ghost predicate KidOk(t: Tree, p: Pending, n: Node, i: nat, c: Node?)
    requires n in t.nodes && i <= |t.nodes[n].keys|
  {
    && c != null && c in t.nodes
    && t.nodes[c].parent == n
    && t.nodes[c].height + 1 == t.nodes[n].height
    && t.nodes[c].lo == SlotLo(t.nodes[n], i)
    && OuterHi(t, p, c) == SlotHi(t.nodes[n], i)
    && (p.Split? ==> c != p.right)
  }

  ghost predicate KidsOk(t: Tree, p: Pending, n: Node)
    requires n in t.nodes
  {
    var v := t.nodes[n];
    !v.isLeaf ==>
      |v.children| == |v.keys| + 1 &&
      forall i {:trigger KidOk(t, p, n, i, v.children[i])} :: 0 <= i < |v.children| ==> KidOk(t, p, n, i, v.children[i])
  }

  /** Every node but the root (and the waiting right sibling) sits in a slot of its parent. */
  ghost predicate ParentOk(t: Tree, p: Pending, n: Node)
    requires n in t.nodes
  {
    var q := t.nodes[n].parent;
    && (n == t.root ==> q == null)
    && (n != t.root && !(p.Split? && n == p.right) ==>
          q != null && q in t.nodes && !t.nodes[q].isLeaf && n in t.nodes[q].children)
  }

  /** A leaf holds exactly the map entries of its range, with their values. */
  ghost predicate EntriesOk(v: View, contents: map<int, Pointer>) {
    v.isLeaf ==>
      && |v.values| == |v.keys|
      && (forall i :: 0 <= i < |v.keys| ==> v.keys[i] in contents && contents[v.keys[i]] == v.values[i])
      && (forall k :: k in contents && InRange(v, k) ==> k in v.keys)
  }

  ghost predicate NodeOk(t: Tree, p: Pending, n: Node)
    requires n in t.nodes
  {
    && ViewOk(t.nodes[n])
    && FillOk(t, p, n)
    && KidsOk(t, p, n)
    && ParentOk(t, p, n)
    && EntriesOk(t.nodes[n], t.contents)
  }

  ghost predicate RootOk(t: Tree, p: Pending) {
    if t.root == null then
      t.nodes == map[] && t.leaves == [] && t.contents == map[] && p.Settled?
    else
      && t.root in t.nodes
      && t.nodes[t.root].lo == None
      && OuterHi(t, p, t.root) == None
      && (forall n {:trigger t.nodes[n].height} :: n in t.nodes ==> t.nodes[n].height <= t.nodes[t.root].height)
  }

  /** The two halves of a pending split. */
  ghost predicate PendingOk(t: Tree, p: Pending) {
    p.Split? ==>
      && p.left in t.nodes && p.right in t.nodes && p.left != p.right && p.right != t.root
      && t.nodes[p.left].hi.Some?
      && t.nodes[p.right].lo == t.nodes[p.left].hi
      && t.nodes[p.right].hi == p.hi
      && t.nodes[p.right].parent == t.nodes[p.left].parent
      && t.nodes[p.right].height == t.nodes[p.left].height
      && Above(t.nodes[p.left].hi.value, t.nodes[p.left].lo)
      && Below(t.nodes[p.left].hi.value, p.hi)
  }

  /** One link of the leaf chain. */
  ghost predicate LinkOk(t: Tree, i: nat)
    requires i < |t.leaves|
  {
    var n := t.leaves[i];
    && n in t.nodes && t.nodes[n].isLeaf
    && (i == 0 ==> t.nodes[n].lo == None)
    && (i + 1 == |t.leaves| ==> t.nodes[n].next == null && t.nodes[n].hi == None)
    && (i + 1 < |t.leaves| ==>
          && t.nodes[n].next == t.leaves[i + 1]
          && t.leaves[i + 1] in t.nodes
          && t.nodes[t.leaves[i + 1]].lo == t.nodes[n].hi
          && t.nodes[n].hi.Some?)
  }

  ghost predicate ChainOk(t: Tree) {
    && (forall i {:trigger LinkOk(t, i)} :: 0 <= i < |t.leaves| ==> LinkOk(t, i))
    && (forall n {:trigger n in t.leaves} :: n in t.nodes && t.nodes[n].isLeaf ==> n in t.leaves)
  }

  ghost predicate Inv(t: Tree, p: Pending) {
    && RootOk(t, p)
    && PendingOk(t, p)
    && ChainOk(t)
    && (forall n {:trigger NodeOk(t, p, n)} :: n in t.nodes ==> NodeOk(t, p, n))
  }
}
