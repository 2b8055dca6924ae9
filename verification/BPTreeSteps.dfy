/**
 * The five ways bptree.c changes a tree, as functions on snapshots, and for each the proof that
 * it keeps the invariant. The methods of `BPTreeNodes` and `BPTrees` perform exactly these steps.
 */
module BPTreeSteps {
  import opened Wrappers
  import opened Records
  import opened BPTreeModel

  // ---------------------------------------------------------------- sequences

  function InsertAt<T>(s: seq<T>, i: nat, x: T): (r: seq<T>)
    requires i <= |s|
    ensures |r| == |s| + 1 && r[i] == x
    ensures forall j :: 0 <= j < i ==> r[j] == s[j]
    ensures forall j :: i < j < |r| ==> r[j] == s[j - 1]
  {
    s[..i] + [x] + s[i..]
  }

  /** `i` is where the fresh key `k` belongs in the sorted sequence `s`. */
  ghost predicate SlotFor(s: seq<int>, i: nat, k: int) {
    && i <= |s|
    && (forall j :: 0 <= j < i ==> s[j] < k)
    && (forall j :: i <= j < |s| ==> k < s[j])
  }

  lemma InsertAtMembers<T>(s: seq<T>, i: nat, x: T)
    requires i <= |s|
    ensures forall y :: y in InsertAt(s, i, x) <==> y == x || y in s
  {
    var r := InsertAt(s, i, x);
    forall y
      ensures y in r <==> y == x || y in s
    {
      if y in s {
        var j :| 0 <= j < |s| && s[j] == y;
        assert r[if j < i then j else j + 1] == y;
      }
    }
  }

  lemma SortedInsertAt(s: seq<int>, i: nat, k: int)
    requires Sorted(s) && SlotFor(s, i, k)
    ensures Sorted(InsertAt(s, i, k))
  {
    var r := InsertAt(s, i, k);
    forall a, b | 0 <= a < b < |r|
      ensures r[a] < r[b]
    {
      var a' := if a < i then a else a - 1;
      var b' := if b < i then b else b - 1;
      if a != i && b != i {
        assert s[a'] < s[b'];
      }
    }
  }

  // ---------------------------------------------------------------- leaf ranges

  ghost predicate ViewsOk(t: Tree) {
    forall n {:trigger ViewOk(t.nodes[n])} :: n in t.nodes ==> ViewOk(t.nodes[n])
  }

  lemma InvViews(t: Tree, p: Pending)
    requires Inv(t, p)
    ensures ViewsOk(t)
  {
    forall n | n in t.nodes
      ensures ViewOk(t.nodes[n])
    {
      assert NodeOk(t, p, n);
    }
  }

  /** Leaves further right in the chain start no earlier than an earlier one ends. */
  lemma {:induction false} ChainOrdered(t: Tree, i: nat, j: nat)
    requires ChainOk(t) && ViewsOk(t) && i < j < |t.leaves|
    ensures t.leaves[i] in t.nodes && t.leaves[j] in t.nodes
    ensures t.nodes[t.leaves[i]].hi.Some? && t.nodes[t.leaves[j]].lo.Some?
    ensures t.nodes[t.leaves[i]].hi.value <= t.nodes[t.leaves[j]].lo.value
    decreases j
  {
    assert LinkOk(t, i) && LinkOk(t, j - 1) && LinkOk(t, j);
    if i + 1 < j {
      ChainOrdered(t, i, j - 1);
      var m := t.nodes[t.leaves[j - 1]];
      assert ViewOk(m) && AtLeast(m.keys[0], m.lo) && Below(m.keys[0], m.hi);
    }
  }

  /** All keys of an earlier leaf are smaller than all keys of a later one. */
  lemma ChainKeysOrdered(t: Tree, i: nat, j: nat)
    requires ChainOk(t) && ViewsOk(t) && i < j < |t.leaves|
    ensures t.leaves[i] in t.nodes && t.leaves[j] in t.nodes
    ensures forall x, y :: x in t.nodes[t.leaves[i]].keys && y in t.nodes[t.leaves[j]].keys ==> x < y
  {
    ChainOrdered(t, i, j);
    assert ViewOk(t.nodes[t.leaves[i]]) && ViewOk(t.nodes[t.leaves[j]]);
  }

  /** No two leaves are responsible for the same key. */
  lemma LeafUnique(t: Tree, a: Node, b: Node, k: int)
    requires ChainOk(t) && ViewsOk(t)
    requires a in t.nodes && b in t.nodes && t.nodes[a].isLeaf && t.nodes[b].isLeaf
    requires InRange(t.nodes[a], k) && InRange(t.nodes[b], k)
    ensures a == b
  {
    assert a in t.leaves && b in t.leaves;
    var i :| 0 <= i < |t.leaves| && t.leaves[i] == a;
    var j :| 0 <= j < |t.leaves| && t.leaves[j] == b;
    if i < j {
      ChainOrdered(t, i, j);
    } else if j < i {
      ChainOrdered(t, j, i);
    }
  }

  /** No leaf occurs twice in the chain. */
  lemma LeavesDistinct(t: Tree, a: nat, b: nat)
    requires ChainOk(t) && ViewsOk(t)
    requires a < |t.leaves| && b < |t.leaves| && a != b
    ensures t.leaves[a] != t.leaves[b]
  {
    ChainOrdered(t, if a < b then a else b, if a < b then b else a);
    assert LinkOk(t, a);
    var v := t.nodes[t.leaves[a]];
    assert ViewOk(v) && AtLeast(v.keys[0], v.lo) && Below(v.keys[0], v.hi);
  }

  // ---------------------------------------------------------------- step 1: insert into a leaf with room

  /** Key `k` is not in the leaf, belongs to its range, and goes to slot `i`. */
  ghost predicate LeafSlot(v: View, i: nat, k: int) {
    v.isLeaf && |v.values| == |v.keys| && InRange(v, k) && SlotFor(v.keys, i, k)
  }

  ghost function Filled(v: View, i: nat, k: int, value: Pointer): View
    requires LeafSlot(v, i, k)
  {
    v.(keys := InsertAt(v.keys, i, k), values := InsertAt(v.values, i, value))
  }

  ghost function LeafInserted(t: Tree, leaf: Node, i: nat, k: int, value: Pointer): Tree
    requires leaf in t.nodes && LeafSlot(t.nodes[leaf], i, k)
  {
    t.(nodes := t.nodes[leaf := Filled(t.nodes[leaf], i, k, value)], contents := t.contents[k := value])
  }

  lemma FilledEntries(v: View, i: nat, k: int, value: Pointer, contents: map<int, Pointer>)
    requires LeafSlot(v, i, k) && EntriesOk(v, contents)
    ensures EntriesOk(Filled(v, i, k, value), contents[k := value])
  {
    InsertAtMembers(v.keys, i, k);
  }

  lemma FilledSorted(v: View, i: nat, k: int, value: Pointer)
    requires LeafSlot(v, i, k) && ViewOk(v)
    ensures Sorted(Filled(v, i, k, value).keys)
    ensures forall j :: 0 <= j <= |v.keys| ==>
              AtLeast(Filled(v, i, k, value).keys[j], v.lo) && Below(Filled(v, i, k, value).keys[j], v.hi)
  {
    SortedInsertAt(v.keys, i, k);
  }

  /** An entry inside the range of `leaf` is no entry of another leaf. */
  lemma OtherEntries(t: Tree, leaf: Node, k: int, value: Pointer, n: Node)
    requires Inv(t, Settled) && leaf in t.nodes && n in t.nodes && n != leaf
    requires t.nodes[leaf].isLeaf && InRange(t.nodes[leaf], k)
    ensures EntriesOk(t.nodes[n], t.contents[k := value])
  {
    assert NodeOk(t, Settled, n);
    if t.nodes[n].isLeaf {
      if InRange(t.nodes[n], k) {
        InvViews(t, Settled);
        LeafUnique(t, n, leaf, k);
      }
      assert forall j :: 0 <= j < |t.nodes[n].keys| ==> InRange(t.nodes[n], t.nodes[n].keys[j]);
    }
  }

  /** Same links everywhere: what leaf steps leave alone. */
  ghost predicate SameLinks(t: Tree, t': Tree, p': Pending) {
    && t'.root == t.root
    && (forall n :: n in t.nodes ==>
          && n in t'.nodes
          && (if t.nodes[n].isLeaf then t'.nodes[n].isLeaf else t'.nodes[n] == t.nodes[n])
          && t'.nodes[n].parent == t.nodes[n].parent
          && t'.nodes[n].height == t.nodes[n].height
          && t'.nodes[n].lo == t.nodes[n].lo
          && OuterHi(t', p', n) == t.nodes[n].hi
          && (p'.Split? ==> n != p'.right))
  }

  lemma LinksKept(t: Tree, t': Tree, p': Pending, n: Node)
    requires n in t.nodes && SameLinks(t, t', p')
    requires KidsOk(t, Settled, n) && ParentOk(t, Settled, n)
    ensures KidsOk(t', p', n) && ParentOk(t', p', n)
  {
    forall c | 0 <= c < |t.nodes[n].children| && !t.nodes[n].isLeaf
      ensures KidOk(t', p', n, c, t.nodes[n].children[c])
    {
      assert KidOk(t, Settled, n, c, t.nodes[n].children[c]);
    }
  }

  lemma LeafInsertedNode(t: Tree, leaf: Node, i: nat, k: int, value: Pointer, n: Node)
    requires Inv(t, Settled) && leaf in t.nodes && LeafSlot(t.nodes[leaf], i, k) && n in t.nodes
    requires |t.nodes[leaf].keys| < BPTREE_MAX_KEYS
    ensures NodeOk(LeafInserted(t, leaf, i, k, value), Settled, n)
  {
    assert NodeOk(t, Settled, n);
    LinksKept(t, LeafInserted(t, leaf, i, k, value), Settled, n);
    if n != leaf {
      OtherEntries(t, leaf, k, value, n);
    } else {
      FilledSorted(t.nodes[leaf], i, k, value);
      FilledEntries(t.nodes[leaf], i, k, value, t.contents);
    }
  }

  lemma LeafInsertedInv(t: Tree, leaf: Node, i: nat, k: int, value: Pointer)
    requires Inv(t, Settled) && leaf in t.nodes && LeafSlot(t.nodes[leaf], i, k)
    requires |t.nodes[leaf].keys| < BPTREE_MAX_KEYS
    ensures Inv(LeafInserted(t, leaf, i, k, value), Settled)
  {
    var t' := LeafInserted(t, leaf, i, k, value);
    forall n | n in t'.nodes
      ensures NodeOk(t', Settled, n)
    {
      LeafInsertedNode(t, leaf, i, k, value, n);
    }
    forall j | 0 <= j < |t'.leaves|
      ensures LinkOk(t', j)
    {
      assert LinkOk(t, j);
    }
  }

  // ---------------------------------------------------------------- step 2: split a full leaf

  const LEFT_COUNT := BPTREE_ORDER / 2

  ghost predicate LeafFull(v: View, i: nat, k: int) {
    LeafSlot(v, i, k) && |v.keys| == BPTREE_MAX_KEYS
  }

  ghost function LeafSeparator(v: View, i: nat, k: int): int
    requires LeafFull(v, i, k)
  {
    InsertAt(v.keys, i, k)[LEFT_COUNT]
  }

  ghost function LeafLeft(v: View, i: nat, k: int, value: Pointer, sib: Node): View
    requires LeafFull(v, i, k)
  {
    var w := Filled(v, i, k, value);
    w.(keys := w.keys[..LEFT_COUNT], values := w.values[..LEFT_COUNT], next := sib, hi := Some(w.keys[LEFT_COUNT]))
  }

  ghost function LeafRight(v: View, i: nat, k: int, value: Pointer): View
    requires LeafFull(v, i, k)
  {
    var w := Filled(v, i, k, value);
    w.(keys := w.keys[LEFT_COUNT..], values := w.values[LEFT_COUNT..], lo := Some(w.keys[LEFT_COUNT]))
  }

  /** A leaf split loses and reorders nothing: the halves side by side are the filled leaf. */
  lemma LeafSplitConserves(v: View, i: nat, k: int, value: Pointer, sib: Node)
    requires LeafFull(v, i, k)
    ensures var l, r := LeafLeft(v, i, k, value, sib), LeafRight(v, i, k, value);
      && l.keys + r.keys == v.keys[..i] + [k] + v.keys[i..]
      && l.values + r.values == v.values[..i] + [value] + v.values[i..]
      && |l.keys| == |r.keys| == 2 && r.keys[0] == LeafSeparator(v, i, k)
  {
  }

  /** `sib` is the new right leaf, `leaf` is number `j` of the chain. */
  ghost function LeafSplit(t: Tree, leaf: Node, i: nat, k: int, value: Pointer, sib: Node, j: nat): Tree
    requires leaf in t.nodes && LeafFull(t.nodes[leaf], i, k) && j < |t.leaves|
  {
    var v := t.nodes[leaf];
    t.(nodes := t.nodes[leaf := LeafLeft(v, i, k, value, sib)][sib := LeafRight(v, i, k, value)],
       leaves := InsertAt(t.leaves, j + 1, sib),
       contents := t.contents[k := value])
  }

  ghost predicate CanSplitLeaf(t: Tree, leaf: Node, i: nat, k: int, sib: Node, j: nat) {
    && leaf in t.nodes && LeafFull(t.nodes[leaf], i, k)
    && sib !in t.nodes
    && j < |t.leaves| && t.leaves[j] == leaf
  }

  lemma LeafHalvesViews(v: View, i: nat, k: int, value: Pointer, sib: Node)
    requires LeafFull(v, i, k) && ViewOk(v)
    ensures ViewOk(LeafLeft(v, i, k, value, sib)) && ViewOk(LeafRight(v, i, k, value))
    ensures Above(LeafSeparator(v, i, k), v.lo) && Below(LeafSeparator(v, i, k), v.hi)
  {
    var w := Filled(v, i, k, value);
    FilledSorted(v, i, k, value);
    assert w.keys[0] < w.keys[LEFT_COUNT];
  }

  /** Splitting a leaf deals the entries of its range out to the two halves: here the left one. */
  lemma LeftEntries(w: View, a: View, contents: map<int, Pointer>)
    requires w.isLeaf && |w.keys| == BPTREE_ORDER && Sorted(w.keys) && EntriesOk(w, contents)
    requires a.keys == w.keys[..LEFT_COUNT] && a.values == w.values[..LEFT_COUNT]
    requires a.lo == w.lo && a.hi == Some(w.keys[LEFT_COUNT]) && Below(w.keys[LEFT_COUNT], w.hi)
    ensures EntriesOk(a, contents)
  {
    forall k | k in contents && InRange(a, k)
      ensures k in a.keys
    {
      var x :| 0 <= x < |w.keys| && w.keys[x] == k;
      assert a.keys[x] == k;
    }
    assert forall i :: 0 <= i < LEFT_COUNT ==> a.keys[i] == w.keys[i] && a.values[i] == w.values[i];
  }

  lemma RightEntries(w: View, b: View, contents: map<int, Pointer>)
    requires w.isLeaf && |w.keys| == BPTREE_ORDER && Sorted(w.keys) && EntriesOk(w, contents)
    requires b.keys == w.keys[LEFT_COUNT..] && b.values == w.values[LEFT_COUNT..]
    requires b.hi == w.hi && b.lo == Some(w.keys[LEFT_COUNT]) && AtLeast(w.keys[LEFT_COUNT], w.lo)
    ensures EntriesOk(b, contents)
  {
    forall k | k in contents && InRange(b, k)
      ensures k in b.keys
    {
      var x :| 0 <= x < |w.keys| && w.keys[x] == k;
      assert b.keys[x - LEFT_COUNT] == k;
    }
    assert forall i :: 0 <= i < |b.keys| ==>
        b.keys[i] == w.keys[i + LEFT_COUNT] && b.values[i] == w.values[i + LEFT_COUNT];
  }

  lemma LeafHalvesEntries(v: View, i: nat, k: int, value: Pointer, sib: Node, contents: map<int, Pointer>)
    requires LeafFull(v, i, k) && ViewOk(v) && EntriesOk(v, contents)
    ensures EntriesOk(LeafLeft(v, i, k, value, sib), contents[k := value])
    ensures EntriesOk(LeafRight(v, i, k, value), contents[k := value])
  {
    FilledSorted(v, i, k, value);
    FilledEntries(v, i, k, value, contents);
    LeftEntries(Filled(v, i, k, value), LeafLeft(v, i, k, value, sib), contents[k := value]);
    RightEntries(Filled(v, i, k, value), LeafRight(v, i, k, value), contents[k := value]);
  }

  lemma LeafSplitChain(t: Tree, leaf: Node, i: nat, k: int, value: Pointer, sib: Node, j: nat)
    requires ChainOk(t) && ViewsOk(t) && CanSplitLeaf(t, leaf, i, k, sib, j)
    ensures ChainOk(LeafSplit(t, leaf, i, k, value, sib, j))
  {
    var t' := LeafSplit(t, leaf, i, k, value, sib, j);
    forall a | 0 <= a < |t'.leaves|
      ensures LinkOk(t', a)
    {
      LeafSplitLink(t, leaf, i, k, value, sib, j, a);
    }
    InsertAtMembers(t.leaves, j + 1, sib);
  }

  lemma LeafSplitLink(t: Tree, leaf: Node, i: nat, k: int, value: Pointer, sib: Node, j: nat, a: nat)
    requires ChainOk(t) && ViewsOk(t) && CanSplitLeaf(t, leaf, i, k, sib, j) && a <= |t.leaves|
    ensures LinkOk(LeafSplit(t, leaf, i, k, value, sib, j), a)
  {
    assert LinkOk(t, j);
    if a <= j {
      LeafSplitLinkBefore(t, leaf, i, k, value, sib, j, a);
    } else {
      LeafSplitLinkBehind(t, leaf, i, k, value, sib, j, a);
    }
  }

  lemma LeafSplitLinkBefore(t: Tree, leaf: Node, i: nat, k: int, value: Pointer, sib: Node, j: nat, a: nat)
    requires ChainOk(t) && ViewsOk(t) && CanSplitLeaf(t, leaf, i, k, sib, j) && a <= j
    ensures LinkOk(LeafSplit(t, leaf, i, k, value, sib, j), a)
  {
    assert LinkOk(t, j) && LinkOk(t, a);
    if a < j {
      assert LinkOk(t, a + 1);
      LeavesDistinct(t, a, j);
      if a + 1 < j {
        LeavesDistinct(t, a + 1, j);
      }
    }
  }

  lemma LeafSplitLinkBehind(t: Tree, leaf: Node, i: nat, k: int, value: Pointer, sib: Node, j: nat, a: nat)
    requires ChainOk(t) && ViewsOk(t) && CanSplitLeaf(t, leaf, i, k, sib, j) && j < a <= |t.leaves|
    ensures LinkOk(LeafSplit(t, leaf, i, k, value, sib, j), a)
  {
    assert LinkOk(t, j) && LinkOk(t, a - 1);
    if a - 1 > j {
      LeavesDistinct(t, j, a - 1);
    }
    if a < |t.leaves| {
      assert LinkOk(t, a);
      LeavesDistinct(t, j, a);
    }
  }

  /** Before a split, a leaf with fewer than two keys is the only node. */
  lemma SmallLeafAlone(t: Tree, leaf: Node, n: Node)
    requires Inv(t, Settled) && leaf in t.nodes && n in t.nodes && n != leaf
    requires t.nodes[n].isLeaf && t.nodes[leaf].isLeaf
    ensures |t.nodes[n].keys| >= 2
  {
    assert NodeOk(t, Settled, n) && NodeOk(t, Settled, leaf);
    if leaf != t.root {
      assert NodeOk(t, Settled, t.nodes[leaf].parent);
    }
  }

  lemma LeafSplitNode(t: Tree, leaf: Node, i: nat, k: int, value: Pointer, sib: Node, j: nat, n: Node)
    requires Inv(t, Settled) && CanSplitLeaf(t, leaf, i, k, sib, j) && n in t.nodes
    ensures NodeOk(LeafSplit(t, leaf, i, k, value, sib, j), Split(leaf, sib, t.nodes[leaf].hi), n)
  {
    assert NodeOk(t, Settled, n);
    LinksKept(t, LeafSplit(t, leaf, i, k, value, sib, j), Split(leaf, sib, t.nodes[leaf].hi), n);
    if n == leaf {
      LeafHalvesViews(t.nodes[leaf], i, k, value, sib);
      LeafHalvesEntries(t.nodes[leaf], i, k, value, sib, t.contents);
    } else {
      OtherEntries(t, leaf, k, value, n);
      if t.nodes[n].isLeaf {
        SmallLeafAlone(t, leaf, n);
      }
    }
  }

  lemma LeafSplitSib(t: Tree, leaf: Node, i: nat, k: int, value: Pointer, sib: Node, j: nat)
    requires Inv(t, Settled) && CanSplitLeaf(t, leaf, i, k, sib, j)
    ensures NodeOk(LeafSplit(t, leaf, i, k, value, sib, j), Split(leaf, sib, t.nodes[leaf].hi), sib)
    ensures PendingOk(LeafSplit(t, leaf, i, k, value, sib, j), Split(leaf, sib, t.nodes[leaf].hi))
  {
    assert NodeOk(t, Settled, leaf);
    LeafHalvesViews(t.nodes[leaf], i, k, value, sib);
    LeafHalvesEntries(t.nodes[leaf], i, k, value, sib, t.contents);
  }

  lemma LeafSplitNodes(t: Tree, leaf: Node, i: nat, k: int, value: Pointer, sib: Node, j: nat, t': Tree, p: Pending)
    requires Inv(t, Settled) && CanSplitLeaf(t, leaf, i, k, sib, j)
    requires t' == LeafSplit(t, leaf, i, k, value, sib, j) && p == Split(leaf, sib, t.nodes[leaf].hi)
    ensures forall n {:trigger NodeOk(t', p, n)} :: n in t'.nodes ==> NodeOk(t', p, n)
  {
    LeafSplitSib(t, leaf, i, k, value, sib, j);
    forall n | n in t'.nodes
      ensures NodeOk(t', p, n)
    {
      if n != sib {
        LeafSplitNode(t, leaf, i, k, value, sib, j, n);
      }
    }
  }

  lemma LeafSplitInv(t: Tree, leaf: Node, i: nat, k: int, value: Pointer, sib: Node, j: nat)
    requires Inv(t, Settled) && CanSplitLeaf(t, leaf, i, k, sib, j)
    ensures Inv(LeafSplit(t, leaf, i, k, value, sib, j), Split(leaf, sib, t.nodes[leaf].hi))
  {
    LeafSplitSib(t, leaf, i, k, value, sib, j);
    LeafSplitNodes(t, leaf, i, k, value, sib, j,
                   LeafSplit(t, leaf, i, k, value, sib, j), Split(leaf, sib, t.nodes[leaf].hi));
    InvViews(t, Settled);
    LeafSplitChain(t, leaf, i, k, value, sib, j);
  }

  /** Steps above the leaves leave the chain alone. */
  ghost predicate SameChain(t: Tree, t': Tree) {
    && t'.leaves == t.leaves
    && (forall n {:trigger n in t'.nodes} :: n in t.nodes ==>
          && n in t'.nodes
          && (t.nodes[n].isLeaf ==>
                && t'.nodes[n].isLeaf
                && t'.nodes[n].lo == t.nodes[n].lo
                && t'.nodes[n].hi == t.nodes[n].hi
                && t'.nodes[n].next == t.nodes[n].next))
    && (forall n {:trigger n in t'.nodes} :: n in t'.nodes && t'.nodes[n].isLeaf ==> n in t.nodes && t.nodes[n].isLeaf)
  }

  lemma ChainKept(t: Tree, t': Tree)
    requires ChainOk(t) && SameChain(t, t')
    ensures ChainOk(t')
  {
    forall j | 0 <= j < |t'.leaves|
      ensures LinkOk(t', j)
    {
      assert LinkOk(t, j);
      if j + 1 < |t.leaves| {
        assert LinkOk(t, j + 1);
      }
    }
  }

  // ---------------------------------------------------------------- step 3: a new root over the two halves

  ghost function NewRoot(t: Tree, p: Pending, top: Node): Tree
    requires p.Split? && p.left in t.nodes && p.right in t.nodes && t.nodes[p.left].hi.Some?
  {
    var l, r := t.nodes[p.left], t.nodes[p.right];
    var v := View(false, [l.hi.value], [], [p.left, p.right], null, null, None, None, l.height + 1);
    t.(nodes := t.nodes[p.left := l.(parent := top)][p.right := r.(parent := top)][top := v], root := top)
  }

  /** With no parent above it, the split node was the root. */
  ghost predicate AtTop(t: Tree, p: Pending, top: Node) {
    && p.Split? && p.left in t.nodes && p.right in t.nodes && t.nodes[p.left].hi.Some?
    && t.nodes[p.left].parent == null
    && top !in t.nodes
  }

  lemma NewRootNode(t: Tree, p: Pending, top: Node, n: Node)
    requires Inv(t, p) && AtTop(t, p, top) && n in t.nodes
    ensures NodeOk(NewRoot(t, p, top), Settled, n)
  {
    var t' := NewRoot(t, p, top);
    assert NodeOk(t, p, n) && NodeOk(t, p, p.left);
    forall c | 0 <= c < |t.nodes[n].children| && !t.nodes[n].isLeaf
      ensures KidOk(t', Settled, n, c, t.nodes[n].children[c])
    {
      assert KidOk(t, p, n, c, t.nodes[n].children[c]);
    }
  }

  lemma NewRootTop(t: Tree, p: Pending, top: Node)
    requires Inv(t, p) && AtTop(t, p, top)
    ensures NodeOk(NewRoot(t, p, top), Settled, top)
    ensures RootOk(NewRoot(t, p, top), Settled)
  {
    var t' := NewRoot(t, p, top);
    assert NodeOk(t, p, p.left);
    assert KidOk(t', Settled, top, 0, p.left);
    assert KidOk(t', Settled, top, 1, p.right);
    assert t.nodes[p.left].height == t.nodes[t.root].height;
    assert forall n :: n in t.nodes ==> t'.nodes[n].height == t.nodes[n].height;
  }

  lemma NewRootInv(t: Tree, p: Pending, top: Node)
    requires Inv(t, p) && AtTop(t, p, top)
    ensures Inv(NewRoot(t, p, top), Settled)
  {
    var t' := NewRoot(t, p, top);
    NewRootTop(t, p, top);
    forall n | n in t'.nodes
      ensures NodeOk(t', Settled, n)
    {
      if n != top {
        NewRootNode(t, p, top, n);
      }
    }
    ChainKept(t, t');
  }

  // ---------------------------------------------------------------- the parent of a pending pair

  /** The left half of the pending split sits in slot `i` of `q`. */
  ghost predicate SplitAt(t: Tree, p: Pending, q: Node, i: nat) {
    && p.Split? && p.left in t.nodes && p.right in t.nodes && t.nodes[p.left].hi.Some?
    && t.nodes[p.left].parent == q
    && q in t.nodes && !t.nodes[q].isLeaf
    && |t.nodes[q].children| == |t.nodes[q].keys| + 1
    && i <= |t.nodes[q].keys| && t.nodes[q].children[i] == p.left
  }

  /** The parent with the separator and the right half added next to the left one. */
  ghost function Grown(v: View, i: nat, key: int, right: Node): View
    requires i <= |v.keys| && |v.children| == |v.keys| + 1
  {
    v.(keys := InsertAt(v.keys, i, key), children := InsertAt(v.children, i + 1, right))
  }

  ghost function GrownAt(t: Tree, p: Pending, q: Node, i: nat): View
    requires SplitAt(t, p, q, i)
  {
    Grown(t.nodes[q], i, t.nodes[p.left].hi.value, p.right)
  }

  /** The slot found by looking for the left pointer is the slot key order asks for. */
  lemma SeparatorSlot(t: Tree, p: Pending, q: Node, i: nat)
    requires Inv(t, p) && SplitAt(t, p, q, i)
    ensures SlotFor(t.nodes[q].keys, i, t.nodes[p.left].hi.value)
    ensures Above(t.nodes[p.left].hi.value, t.nodes[q].lo) && Below(t.nodes[p.left].hi.value, t.nodes[q].hi)
  {
    assert NodeOk(t, p, q);
    var v := t.nodes[q];
    var key := t.nodes[p.left].hi.value;
    assert KidOk(t, p, q, i, v.children[i]);
    assert i > 0 ==> v.keys[i - 1] < key;
    assert i < |v.keys| ==> key < v.keys[i];
  }

  /** Child `j` of the grown parent covers exactly its slot, with no pair pending any more. */
  lemma GrownKid(t: Tree, p: Pending, q: Node, i: nat, j: nat)
    requires Inv(t, p) && SplitAt(t, p, q, i) && j <= |t.nodes[q].keys| + 1
    ensures var c := GrownAt(t, p, q, i).children[j];
      && c != null && c in t.nodes
      && t.nodes[c].parent == q
      && t.nodes[c].height + 1 == t.nodes[q].height
      && t.nodes[c].lo == SlotLo(GrownAt(t, p, q, i), j)
      && t.nodes[c].hi == SlotHi(GrownAt(t, p, q, i), j)
  {
    assert NodeOk(t, p, q);
    var v := t.nodes[q];
    assert KidOk(t, p, q, i, v.children[i]);
    if j != i + 1 {
      var j' := if j <= i then j else j - 1;
      assert KidOk(t, p, q, j', v.children[j']);
      if j' != i {
        KidsDiffer(t, p, q, i, j');
      }
    }
  }

  /** One node never sits in two slots: the slots start at different keys. */
  lemma KidsDiffer(t: Tree, p: Pending, q: Node, i: nat, j: nat)
    requires Inv(t, p) && q in t.nodes && !t.nodes[q].isLeaf
    requires i < |t.nodes[q].children| && j < |t.nodes[q].children| && i != j
    ensures t.nodes[q].children[i] != t.nodes[q].children[j]
  {
    assert NodeOk(t, p, q);
    var v := t.nodes[q];
    assert KidOk(t, p, q, i, v.children[i]) && KidOk(t, p, q, j, v.children[j]);
    assert ViewOk(v);
    if i > 0 && j > 0 {
      assert v.keys[i - 1] != v.keys[j - 1];
    }
  }

  // ---------------------------------------------------------------- step 4: insert into a parent with room

  ghost function InternalInserted(t: Tree, p: Pending, q: Node, i: nat): Tree
    requires SplitAt(t, p, q, i)
  {
    t.(nodes := t.nodes[q := GrownAt(t, p, q, i)])
  }

  lemma GrownView(t: Tree, p: Pending, q: Node, i: nat)
    requires Inv(t, p) && SplitAt(t, p, q, i)
    ensures var g := GrownAt(t, p, q, i);
      && Sorted(g.keys)
      && (forall j :: 0 <= j < |g.keys| ==> Above(g.keys[j], g.lo) && Below(g.keys[j], g.hi))
  {
    assert NodeOk(t, p, q);
    SeparatorSlot(t, p, q, i);
    SortedInsertAt(t.nodes[q].keys, i, t.nodes[p.left].hi.value);
  }

  lemma InternalInsertedNode(t: Tree, p: Pending, q: Node, i: nat, n: Node)
    requires Inv(t, p) && SplitAt(t, p, q, i) && |t.nodes[q].keys| < BPTREE_MAX_KEYS
    requires n in t.nodes && n != q
    ensures NodeOk(InternalInserted(t, p, q, i), Settled, n)
  {
    var t' := InternalInserted(t, p, q, i);
    assert NodeOk(t, p, n);
    forall c | 0 <= c < |t.nodes[n].children| && !t.nodes[n].isLeaf
      ensures KidOk(t', Settled, n, c, t.nodes[n].children[c])
    {
      assert KidOk(t, p, n, c, t.nodes[n].children[c]);
    }
    InsertAtMembers(t.nodes[q].children, i + 1, p.right);
  }

  lemma InternalInsertedParent(t: Tree, p: Pending, q: Node, i: nat)
    requires Inv(t, p) && SplitAt(t, p, q, i) && |t.nodes[q].keys| < BPTREE_MAX_KEYS
    ensures NodeOk(InternalInserted(t, p, q, i), Settled, q)
  {
    var t' := InternalInserted(t, p, q, i);
    assert NodeOk(t, p, q) && NodeOk(t, p, p.left);
    GrownView(t, p, q, i);
    forall c | 0 <= c < |t'.nodes[q].children|
      ensures KidOk(t', Settled, q, c, t'.nodes[q].children[c])
    {
      GrownKid(t, p, q, i, c);
    }
  }

  lemma InternalInsertedInv(t: Tree, p: Pending, q: Node, i: nat)
    requires Inv(t, p) && SplitAt(t, p, q, i) && |t.nodes[q].keys| < BPTREE_MAX_KEYS
    ensures Inv(InternalInserted(t, p, q, i), Settled)
  {
    var t' := InternalInserted(t, p, q, i);
    forall n | n in t'.nodes
      ensures NodeOk(t', Settled, n)
    {
      if n == q {
        InternalInsertedParent(t, p, q, i);
      } else {
        InternalInsertedNode(t, p, q, i, n);
      }
    }
    ChainKept(t, t');
  }

  // ---------------------------------------------------------------- step 5: split a full parent

  const PROMOTE_INDEX := BPTREE_ORDER / 2

  ghost predicate CanSplitInternal(t: Tree, p: Pending, q: Node, i: nat, sib: Node) {
    SplitAt(t, p, q, i) && |t.nodes[q].keys| == BPTREE_MAX_KEYS && sib !in t.nodes
  }

  ghost function InternalLeft(g: View): View
    requires |g.keys| == BPTREE_ORDER && |g.children| == BPTREE_ORDER + 1
  {
    g.(keys := g.keys[..PROMOTE_INDEX], children := g.children[..PROMOTE_INDEX + 1], hi := Some(g.keys[PROMOTE_INDEX]))
  }

  ghost function InternalRight(g: View): View
    requires |g.keys| == BPTREE_ORDER && |g.children| == BPTREE_ORDER + 1
  {
    g.(keys := g.keys[PROMOTE_INDEX + 1..], children := g.children[PROMOTE_INDEX + 1..], lo := Some(g.keys[PROMOTE_INDEX]))
  }

  /** Nor does an internal split, with the promoted key between the halves. */
  lemma InternalSplitConserves(v: View, i: nat, key: int, right: Node)
    requires i <= |v.keys| == BPTREE_MAX_KEYS && |v.children| == BPTREE_ORDER
    ensures var g := Grown(v, i, key, right);
            var l, r := InternalLeft(g), InternalRight(g);
      && l.keys + [g.keys[PROMOTE_INDEX]] + r.keys == v.keys[..i] + [key] + v.keys[i..]
      && l.children + r.children == v.children[..i + 1] + [right] + v.children[i + 1..]
      && |l.keys| == 2 && |r.keys| == 1
  {
  }

  /** The children beyond the promoted key move to the new sibling. */
  ghost function Moved(t: Tree, p: Pending, q: Node, i: nat): seq<Node?>
    requires SplitAt(t, p, q, i) && |t.nodes[q].keys| == BPTREE_MAX_KEYS
  {
    GrownAt(t, p, q, i).children[PROMOTE_INDEX + 1..]
  }

  ghost function InternalSplit(t: Tree, p: Pending, q: Node, i: nat, sib: Node): Tree
    requires CanSplitInternal(t, p, q, i, sib)
  {
    var g := GrownAt(t, p, q, i);
    var moved := Moved(t, p, q, i);
    t.(nodes := (map n: Node | n in t.nodes ::
                   if n == q then InternalLeft(g)
                   else if n in moved then t.nodes[n].(parent := sib)
                   else t.nodes[n])[sib := InternalRight(g)])
  }

  ghost function InternalPending(t: Tree, q: Node, sib: Node): Pending
    requires q in t.nodes
  {
    Split(q, sib, t.nodes[q].hi)
  }

  /** The children that stay and the children that move are different nodes. */
  lemma StayOrMove(t: Tree, p: Pending, q: Node, i: nat, j: nat)
    requires Inv(t, p) && SplitAt(t, p, q, i) && |t.nodes[q].keys| == BPTREE_MAX_KEYS
    requires j <= BPTREE_ORDER
    ensures GrownAt(t, p, q, i).children[j] in Moved(t, p, q, i) <==> j > PROMOTE_INDEX
  {
    var g := GrownAt(t, p, q, i);
    var moved := Moved(t, p, q, i);
    if j > PROMOTE_INDEX {
      assert moved[j - (PROMOTE_INDEX + 1)] == g.children[j];
    } else {
      GrownView(t, p, q, i);
      GrownKid(t, p, q, i, j);
      forall a | 0 <= a < |moved|
        ensures moved[a] != g.children[j]
      {
        GrownKid(t, p, q, i, a + PROMOTE_INDEX + 1);
        assert moved[a] == g.children[a + PROMOTE_INDEX + 1];
        assert j > 0 ==> g.keys[j - 1] < g.keys[a + PROMOTE_INDEX];
      }
    }
  }

  lemma MovedAreKids(t: Tree, p: Pending, q: Node, i: nat)
    requires Inv(t, p) && SplitAt(t, p, q, i) && |t.nodes[q].keys| == BPTREE_MAX_KEYS
    ensures forall c :: c in Moved(t, p, q, i) ==> c != null && c in t.nodes && t.nodes[c].parent == q && c != q
  {
    var moved := Moved(t, p, q, i);
    forall a | 0 <= a < |moved|
      ensures moved[a] != null && moved[a] in t.nodes && t.nodes[moved[a]].parent == q && moved[a] != q
    {
      GrownKid(t, p, q, i, a + PROMOTE_INDEX + 1);
    }
  }

  lemma InternalHalvesViews(g: View)
    requires !g.isLeaf && g.height > 0 && |g.keys| == BPTREE_ORDER && |g.children| == BPTREE_ORDER + 1
    requires g.values == [] && g.next == null
    requires Sorted(g.keys)
    requires forall j :: 0 <= j < |g.keys| ==> Above(g.keys[j], g.lo) && Below(g.keys[j], g.hi)
    ensures ViewOk(InternalLeft(g)) && ViewOk(InternalRight(g))
    ensures Above(g.keys[PROMOTE_INDEX], g.lo) && Below(g.keys[PROMOTE_INDEX], g.hi)
  {
    assert g.keys[0] < g.keys[1] < g.keys[2] < g.keys[3];
  }

  lemma InternalSlots(g: View, c: nat)
    requires |g.keys| == BPTREE_ORDER && |g.children| == BPTREE_ORDER + 1
    ensures c <= PROMOTE_INDEX ==>
              && InternalLeft(g).children[c] == g.children[c]
              && SlotLo(InternalLeft(g), c) == SlotLo(g, c) && SlotHi(InternalLeft(g), c) == SlotHi(g, c)
    ensures PROMOTE_INDEX < c <= BPTREE_ORDER ==>
              var d := c - (PROMOTE_INDEX + 1);
              && InternalRight(g).children[d] == g.children[c]
              && SlotLo(InternalRight(g), d) == SlotLo(g, c) && SlotHi(InternalRight(g), d) == SlotHi(g, c)
  {
  }

  lemma InternalSplitKidLeft(t: Tree, p: Pending, q: Node, i: nat, sib: Node, c: nat)
    requires Inv(t, p) && CanSplitInternal(t, p, q, i, sib) && c <= PROMOTE_INDEX
    ensures KidOk(InternalSplit(t, p, q, i, sib), InternalPending(t, q, sib), q, c,
                  InternalLeft(GrownAt(t, p, q, i)).children[c])
  {
    GrownKid(t, p, q, i, c);
    StayOrMove(t, p, q, i, c);
    InternalSlots(GrownAt(t, p, q, i), c);
    assert InternalSplit(t, p, q, i, sib).nodes[q] == InternalLeft(GrownAt(t, p, q, i));
  }

  lemma InternalSplitKidRight(t: Tree, p: Pending, q: Node, i: nat, sib: Node, d: nat)
    requires Inv(t, p) && CanSplitInternal(t, p, q, i, sib) && PROMOTE_INDEX < d <= BPTREE_ORDER
    ensures KidOk(InternalSplit(t, p, q, i, sib), InternalPending(t, q, sib), sib, d - (PROMOTE_INDEX + 1),
                  GrownAt(t, p, q, i).children[d])
  {
    GrownKid(t, p, q, i, d);
    StayOrMove(t, p, q, i, d);
    InternalSlots(GrownAt(t, p, q, i), d);
    MovedKid(t, p, q, i, sib, GrownAt(t, p, q, i).children[d]);
  }

  lemma MovedKid(t: Tree, p: Pending, q: Node, i: nat, sib: Node, c: Node)
    requires Inv(t, p) && CanSplitInternal(t, p, q, i, sib) && c in t.nodes && c in Moved(t, p, q, i)
    requires t.nodes[c].height + 1 == t.nodes[q].height
    ensures var t' := InternalSplit(t, p, q, i, sib);
      t'.nodes[c] == t.nodes[c].(parent := sib) && t'.nodes[sib] == InternalRight(GrownAt(t, p, q, i))
  {
    assert c != q;
  }

  lemma InternalSplitKids(t: Tree, p: Pending, q: Node, i: nat, sib: Node)
    requires Inv(t, p) && CanSplitInternal(t, p, q, i, sib)
    ensures KidsOk(InternalSplit(t, p, q, i, sib), InternalPending(t, q, sib), q)
    ensures KidsOk(InternalSplit(t, p, q, i, sib), InternalPending(t, q, sib), sib)
  {
    var t' := InternalSplit(t, p, q, i, sib);
    var p' := InternalPending(t, q, sib);
    forall c | 0 <= c < |t'.nodes[q].children|
      ensures KidOk(t', p', q, c, t'.nodes[q].children[c])
    {
      InternalSplitKidLeft(t, p, q, i, sib, c);
    }
    forall c | 0 <= c < |t'.nodes[sib].children|
      ensures KidOk(t', p', sib, c, t'.nodes[sib].children[c])
    {
      InternalSplitKidRight(t, p, q, i, sib, c + PROMOTE_INDEX + 1);
    }
  }

  lemma InternalSplitHalves(t: Tree, p: Pending, q: Node, i: nat, sib: Node)
    requires Inv(t, p) && CanSplitInternal(t, p, q, i, sib)
    ensures NodeOk(InternalSplit(t, p, q, i, sib), InternalPending(t, q, sib), q)
    ensures NodeOk(InternalSplit(t, p, q, i, sib), InternalPending(t, q, sib), sib)
  {
    InternalSplitKids(t, p, q, i, sib);
    assert NodeOk(t, p, q);
    GrownView(t, p, q, i);
    InternalHalvesViews(GrownAt(t, p, q, i));
    InternalSplitUp(t, p, q, i, sib);
  }

  /** The split parent still hangs where it did; its sibling waits for a slot. */
  lemma InternalSplitUp(t: Tree, p: Pending, q: Node, i: nat, sib: Node)
    requires Inv(t, p) && CanSplitInternal(t, p, q, i, sib)
    ensures ParentOk(InternalSplit(t, p, q, i, sib), InternalPending(t, q, sib), q)
    ensures ParentOk(InternalSplit(t, p, q, i, sib), InternalPending(t, q, sib), sib)
  {
    assert NodeOk(t, p, q);
    MovedAreKids(t, p, q, i);
    assert KidOk(t, p, q, i, t.nodes[q].children[i]);
    if q != t.root {
      assert t.nodes[q].parent != q by {
        var r := t.nodes[q].parent;
        assert NodeOk(t, p, r);
        var j :| 0 <= j < |t.nodes[r].children| && t.nodes[r].children[j] == q;
        assert KidOk(t, p, r, j, t.nodes[r].children[j]);
      }
    }
  }

  lemma InternalSplitOther(t: Tree, p: Pending, q: Node, i: nat, sib: Node, n: Node)
    requires Inv(t, p) && CanSplitInternal(t, p, q, i, sib) && n in t.nodes && n != q
    ensures NodeOk(InternalSplit(t, p, q, i, sib), InternalPending(t, q, sib), n)
  {
    var t' := InternalSplit(t, p, q, i, sib);
    var p' := InternalPending(t, q, sib);
    assert NodeOk(t, p, n);
    MovedAreKids(t, p, q, i);
    forall c | 0 <= c < |t.nodes[n].children| && !t.nodes[n].isLeaf
      ensures KidOk(t', p', n, c, t.nodes[n].children[c])
    {
      assert KidOk(t, p, n, c, t.nodes[n].children[c]);
    }
    if t.nodes[n].parent == q {
      InternalSplitHome(t, p, q, i, sib, n);
    }
  }

  /** Every child of the split parent, the new one included, finds itself under its new parent. */
  lemma InternalSplitHome(t: Tree, p: Pending, q: Node, i: nat, sib: Node, n: Node)
    requires Inv(t, p) && CanSplitInternal(t, p, q, i, sib) && n in t.nodes && t.nodes[n].parent == q
    requires n != q
    ensures ParentOk(InternalSplit(t, p, q, i, sib), InternalPending(t, q, sib), n)
  {
    var g := GrownAt(t, p, q, i);
    assert NodeOk(t, p, n);
    InsertAtMembers(t.nodes[q].children, i + 1, p.right);
    assert n in g.children;
    var j :| 0 <= j < |g.children| && g.children[j] == n;
    StayOrMove(t, p, q, i, j);
    if j > PROMOTE_INDEX {
      assert InternalRight(g).children[j - (PROMOTE_INDEX + 1)] == n;
    } else {
      assert InternalLeft(g).children[j] == n;
    }
  }

  lemma InternalSplitRoot(t: Tree, p: Pending, q: Node, i: nat, sib: Node)
    requires Inv(t, p) && CanSplitInternal(t, p, q, i, sib)
    ensures RootOk(InternalSplit(t, p, q, i, sib), InternalPending(t, q, sib))
    ensures PendingOk(InternalSplit(t, p, q, i, sib), InternalPending(t, q, sib))
  {
    var t' := InternalSplit(t, p, q, i, sib);
    assert NodeOk(t, p, q) && NodeOk(t, p, p.left);
    GrownView(t, p, q, i);
    assert p.left != t.root;
    assert forall n :: n in t.nodes ==> t'.nodes[n].height == t.nodes[n].height;
  }

  lemma InternalSplitInv(t: Tree, p: Pending, q: Node, i: nat, sib: Node)
    requires Inv(t, p) && CanSplitInternal(t, p, q, i, sib)
    ensures Inv(InternalSplit(t, p, q, i, sib), InternalPending(t, q, sib))
  {
    var t' := InternalSplit(t, p, q, i, sib);
    var p' := InternalPending(t, q, sib);
    InternalSplitRoot(t, p, q, i, sib);
    InternalSplitHalves(t, p, q, i, sib);
    forall n | n in t'.nodes
      ensures NodeOk(t', p', n)
    {
      if n != q && n != sib {
        InternalSplitOther(t, p, q, i, sib, n);
      }
    }
    MovedAreKids(t, p, q, i);
    ChainKept(t, t');
  }
}
