/**
 * sql_processor/bptree.c: the tree. The ghost field `state` is the snapshot of all nodes; `Linked`
 * says the heap looks like it, and `Valid` adds the invariant of a tree at rest.
 */
module BPTrees {
  import opened Wrappers
  import opened Records
  import opened BPTreeModel
  import opened BPTreeSteps
  import opened BPTreeNodes
  import opened BPTreeTheory

  class BPTree {
    var root: Node?
    ghost var state: Tree

    /** The nodes in use. */
    ghost function Nodes(): set<Node>
      reads this
    {
      state.nodes.Keys
    }

    /** The finite map the tree stands for. */
    ghost function Contents(): map<int, Pointer>
      reads this
    {
      state.contents
    }

    ghost predicate Linked()
      reads this, Nodes()
    {
      && root == state.root
      && forall n {:trigger state.nodes[n]} :: n in state.nodes ==> n.GetView() == state.nodes[n]
    }

    ghost predicate Valid()
      reads this, Nodes()
    {
      Linked() && Inv(state, Settled)
    }

    /** Creates an empty tree. */
    constructor ()
      ensures Valid() && Nodes() == {} && Contents() == map[]
    {
      root := null;
      state := Tree(map[], null, [], map[]);
    }

    // -------------------------------------------------------------- search

    /**
     * Walks from the root to the leaf responsible for a key. The number of steps down is at most
     * the logarithm of the number of keys.
     */
    method FindLeaf(key: int) returns (leaf: Node?, ghost descents: nat)
      requires Valid()
      ensures leaf == null <==> root == null
      ensures leaf != null ==> TargetOf(leaf, key)
      ensures leaf != null ==> root in state.nodes && descents == state.nodes[root].height
      ensures leaf != null ==> Pow2(descents) <= |Contents()|
    {
      descents := 0;
      if root == null {
        return null, 0;
      }
      leaf := root;
      assert NodeOk(state, Settled, root);
      while !leaf.isLeaf
        invariant leaf in state.nodes && InRange(state.nodes[leaf], key)
        invariant descents + state.nodes[leaf].height == state.nodes[root].height
        decreases state.nodes[leaf].height
      {
        leaf := Descend(leaf, key);
        descents := descents + 1;
      }
      assert NodeOk(state, Settled, leaf);
      HeightIsLogarithmic(state);
    }

    /** One step of the walk: the child whose range contains the key. */
    method Descend(current: Node, key: int) returns (child: Node)
      requires Valid() && current in state.nodes && !current.isLeaf && InRange(state.nodes[current], key)
      ensures child in state.nodes && InRange(state.nodes[child], key)
      ensures state.nodes[child].height + 1 == state.nodes[current].height
    {
      assert NodeOk(state, Settled, current);
      ghost var v := state.nodes[current];
      var index := 0;
      while index < current.numKeys && key >= current.keys[index]
        invariant index <= current.numKeys
        invariant index > 0 ==> key >= current.keys[index - 1]
      {
        index := index + 1;
      }
      assert KidOk(state, Settled, current, index, v.children[index]);
      assert index > 0 ==> v.keys[index - 1] == current.keys[index - 1];
      child := current.children[index];
    }

    /** The leaf responsible for `key`. */
    ghost predicate TargetOf(leaf: Node, key: int)
      reads this
    {
      leaf in state.nodes && state.nodes[leaf].isLeaf && InRange(state.nodes[leaf], key)
    }

    /** Position of a key among the live keys of a leaf, or the live count. */
    method FindInLeaf(leaf: Node, key: int) returns (index: nat)
      ensures index <= leaf.numKeys
      ensures index < leaf.numKeys ==> leaf.keys[index] == key
      ensures index == leaf.numKeys ==> key !in leaf.keys[..leaf.numKeys]
    {
      index := 0;
      while index < leaf.numKeys && leaf.keys[index] != key
        invariant index <= leaf.numKeys
        invariant key !in leaf.keys[..index]
      {
        index := index + 1;
      }
    }

    /** Searches for a key: exactly the lookup in the map the tree stands for. */
    method Search(key: int) returns (value: Pointer)
      requires Valid()
      ensures value == if key in Contents() then Contents()[key] else None
    {
      ghost var descents;
      var leaf;
      leaf, descents := FindLeaf(key);
      if leaf == null {
        return None;
      }
      assert NodeOk(state, Settled, leaf);
      ghost var v := state.nodes[leaf];
      assert EntriesOk(v, Contents());
      var index := FindInLeaf(leaf, key);
      if index < leaf.numKeys {
        assert v.keys[index] == key && v.values[index] == leaf.values[index];
        return leaf.values[index];
      }
      return None;
    }

    // -------------------------------------------------------------- the steps of an insertion

    /** Records what the heap has become. */
    ghost method SetState(next: Tree)
      requires root == next.root && forall n :: n in next.nodes.Keys ==> n.GetView() == next.nodes[n]
      modifies this`state
      ensures Linked() && state == next
    {
      state := next;
    }

    method LeafStep(leaf: Node, key: int, value: Pointer) returns (ghost slot: nat)
      requires Linked() && TargetOf(leaf, key) && ViewOk(state.nodes[leaf])
      requires leaf.numKeys < BPTREE_MAX_KEYS && key !in leaf.keys[..leaf.numKeys]
      modifies this`state, leaf
      ensures Linked() && LeafSlot(old(state).nodes[leaf], slot, key)
      ensures state == LeafInserted(old(state), leaf, slot, key, value)
    {
      slot := InsertIntoLeaf(leaf, key, value);
      SetState(LeafInserted(state, leaf, slot, key, value));
    }

    method LeafSplitStep(leaf: Node, key: int, value: Pointer, ghost j: nat) returns (right: Node, ghost slot: nat)
      requires Linked() && TargetOf(leaf, key) && ViewOk(state.nodes[leaf])
      requires leaf.numKeys == BPTREE_MAX_KEYS && key !in leaf.keys[..leaf.numKeys]
      requires j < |state.leaves| && state.leaves[j] == leaf
      modifies this`state, leaf
      ensures Linked() && fresh(right) && CanSplitLeaf(old(state), leaf, slot, key, right, j)
      ensures state == LeafSplit(old(state), leaf, slot, key, value, right, j)
      ensures right.keys[0] == LeafSeparator(old(state).nodes[leaf], slot, key)
    {
      right, slot := SplitLeaf(leaf, key, value);
      assert right.GetView() == LeafRight(state.nodes[leaf], slot, key, value);
      SetState(LeafSplit(state, leaf, slot, key, value, right, j));
    }

    /** Builds a new root after the old root split. */
    method RootStep(ghost p: Pending, left: Node, key: int, right: Node) returns (ghost top: Node)
      requires Linked() && p.Split? && left == p.left && right == p.right && left != right
      requires left in state.nodes && right in state.nodes && state.nodes[left].hi == Some(key)
      modifies this, left`parent, right`parent
      ensures Linked() && fresh(top) && state == NewRoot(old(state), p, top)
    {
      var newRoot := NewInternal(left, key, right);
      root := newRoot;
      top := newRoot;
      SetState(NewRoot(state, p, top));
    }

    method InternalStep(ghost p: Pending, parent: Node, insertIndex: nat, key: int, right: Node)
      requires Linked() && SplitAt(state, p, parent, insertIndex) && ViewOk(state.nodes[parent])
      requires parent.numKeys < BPTREE_MAX_KEYS
      requires p.right == right && right != parent && state.nodes[right].parent == parent
      requires state.nodes[p.left].hi == Some(key)
      modifies this`state, parent, right`parent
      ensures Linked() && state == InternalInserted(old(state), p, parent, insertIndex)
    {
      InsertIntoInternal(parent, insertIndex, key, right);
      SetState(InternalInserted(state, p, parent, insertIndex));
    }

    method SplitHeap(ghost p: Pending, parent: Node, insertIndex: nat, key: int, right: Node)
      returns (promoteKey: int, sib: Node)
      requires Linked() && SplitAt(state, p, parent, insertIndex) && ViewOk(state.nodes[parent])
      requires parent.numKeys == BPTREE_MAX_KEYS && p.right == right
      requires state.nodes[right].parent == parent && state.nodes[parent].parent != parent
      requires state.nodes[p.left].hi == Some(key)
      requires OwnKids(state, parent)
      modifies Nodes()
      ensures fresh(sib)
      ensures var g := GrownAt(state, p, parent, insertIndex);
        && promoteKey == g.keys[PROMOTE_INDEX]
        && parent.GetView() == InternalLeft(g)
        && sib.GetView() == InternalRight(g)
        && forall n :: n in state.nodes && n != parent ==>
             n.GetView() == Adopted(state.nodes[n], n, parent, sib, Moved(state, p, parent, insertIndex))
    {
      assert forall j :: 0 <= j <= parent.numKeys ==> state.nodes[parent].children[j] == parent.children[j];
      ghost var kids := set n | n in state.nodes && state.nodes[n].parent == parent;
      promoteKey, sib := SplitFamily(parent, insertIndex, key, right, kids);
      ghost var moved := Moved(state, p, parent, insertIndex);
      forall n | n in state.nodes && n != parent
        ensures n.GetView() == Adopted(state.nodes[n], n, parent, sib, moved)
      {
        if n in kids {
          assert n.GetView() == state.nodes[n].(parent := if n in moved then sib else parent);
        } else {
          assert n.GetView() == state.nodes[n];
        }
      }
    }

    method InternalSplitStep(ghost p: Pending, parent: Node, insertIndex: nat, key: int, right: Node)
      returns (promoteKey: int, sib: Node)
      requires Linked() && SplitAt(state, p, parent, insertIndex) && ViewOk(state.nodes[parent])
      requires parent.numKeys == BPTREE_MAX_KEYS && p.right == right
      requires state.nodes[right].parent == parent && state.nodes[parent].parent != parent
      requires state.nodes[p.left].hi == Some(key)
      requires OwnKids(state, parent)
      modifies this`state, Nodes()
      ensures Linked() && fresh(sib) && CanSplitInternal(old(state), p, parent, insertIndex, sib)
      ensures state == InternalSplit(old(state), p, parent, insertIndex, sib)
      ensures promoteKey == GrownAt(old(state), p, parent, insertIndex).keys[PROMOTE_INDEX]
    {
      promoteKey, sib := SplitHeap(p, parent, insertIndex, key, right);
      RecordSplit(p, parent, insertIndex, sib);
    }

    ghost method RecordSplit(p: Pending, parent: Node, insertIndex: nat, sib: Node)
      requires root == state.root && CanSplitInternal(state, p, parent, insertIndex, sib)
      requires OwnKids(state, parent) && state.nodes[p.right].parent == parent && state.nodes[parent].parent != parent
      requires parent.GetView() == InternalLeft(GrownAt(state, p, parent, insertIndex))
      requires sib.GetView() == InternalRight(GrownAt(state, p, parent, insertIndex))
      requires forall n :: n in state.nodes && n != parent ==>
                 n.GetView() == Adopted(state.nodes[n], n, parent, sib, Moved(state, p, parent, insertIndex))
      modifies this`state
      ensures Linked() && state == InternalSplit(old(state), p, parent, insertIndex, sib)
    {
      InternalSplitViews(state, p, parent, insertIndex, sib);
      SetState(InternalSplit(state, p, parent, insertIndex, sib));
    }

    // -------------------------------------------------------------- insertion

    /**
     * Inserts a key/value pair and returns true, or returns false and leaves the whole tree
     * untouched when the key is present already.
     */
    method Insert(key: int, value: Pointer) returns (ok: bool)
      requires Valid()
      modifies this, Nodes()
      ensures Valid() && forall n :: n in Nodes() ==> n in old(Nodes()) || fresh(n)
      ensures ok <==> key !in old(Contents())
      ensures ok ==> Contents() == old(Contents())[key := value]
      ensures !ok ==> state == old(state)
    {
      if root == null {
        InsertFirst(key, value);
        return true;
      }
      ghost var descents;
      var leaf;
      leaf, descents := FindLeaf(key);
      assert NodeOk(state, Settled, leaf);
      ghost var v := state.nodes[leaf];
      var index := FindInLeaf(leaf, key);
      if index < leaf.numKeys {
        assert v.keys[index] == key;
        return false;
      }
      assert key !in v.keys && EntriesOk(v, Contents());
      if leaf.numKeys < BPTREE_MAX_KEYS {
        InsertRoomy(leaf, key, value);
      } else {
        SplitLeafAndInsert(leaf, key, value);
      }
      return true;
    }

    /** The first entry makes a root that is a leaf. */
    method InsertFirst(key: int, value: Pointer)
      requires Valid() && root == null
      modifies this
      ensures Valid() && fresh(Nodes()) && old(Nodes()) == {} && old(Contents()) == map[]
      ensures Contents() == map[key := value]
    {
      var leaf := new Node(true);
      leaf.keys := leaf.keys[0 := key];
      leaf.values := leaf.values[0 := value];
      leaf.numKeys := 1;
      root := leaf;
      ghost var v := View(true, [key], [value], [], null, null, None, None, 0);
      state := Tree(map[leaf := v], leaf, [leaf], map[key := value]);
      assert leaf.keys[..1] == [key] && leaf.values[..1] == [value];
      SingleLeafInv(state, leaf, key, value);
    }

    method InsertRoomy(leaf: Node, key: int, value: Pointer)
      requires Valid() && TargetOf(leaf, key) && key !in leaf.keys[..leaf.numKeys] && leaf.numKeys < BPTREE_MAX_KEYS
      modifies this`state, leaf
      ensures Valid() && Nodes() == old(Nodes()) && Contents() == old(Contents())[key := value]
    {
      assert NodeOk(state, Settled, leaf);
      ghost var slot := LeafStep(leaf, key, value);
      LeafInsertedInv(old(state), leaf, slot, key, value);
    }

    /** Splits a full leaf, links the new one behind it and pushes the separator upward. */
    method SplitLeafAndInsert(leaf: Node, key: int, value: Pointer)
      requires Valid() && TargetOf(leaf, key) && key !in leaf.keys[..leaf.numKeys] && leaf.numKeys == BPTREE_MAX_KEYS
      modifies this, Nodes()
      ensures Valid() && forall n :: n in Nodes() ==> n in old(Nodes()) || fresh(n)
      ensures Contents() == old(Contents())[key := value]
    {
      ghost var p;
      var right;
      right, p := DivideLeaf(leaf, key, value);
      InsertIntoParent(p, leaf, right.keys[0], right);
    }

    method DivideLeaf(leaf: Node, key: int, value: Pointer) returns (right: Node, ghost p: Pending)
      requires Valid() && TargetOf(leaf, key) && key !in leaf.keys[..leaf.numKeys] && leaf.numKeys == BPTREE_MAX_KEYS
      modifies this`state, leaf
      ensures fresh(right) && Nodes() == old(Nodes()) + {right}
      ensures Waiting(p, leaf, right.keys[0], right) && Contents() == old(Contents())[key := value]
    {
      ghost var j := LeafFacts(state, leaf);
      ghost var slot;
      right, slot := LeafSplitStep(leaf, key, value, j);
      LeafSplitInv(old(state), leaf, slot, key, value, right, j);
      p := Split(leaf, right, old(state).nodes[leaf].hi);
    }

    /** `left` and `right` are the halves of a split whose separator `key` is not in the parent yet. */
    ghost predicate Waiting(p: Pending, left: Node, key: int, right: Node)
      reads this, Nodes()
    {
      && Linked() && Inv(state, p)
      && p.Split? && p.left == left && p.right == right
      && left in state.nodes && state.nodes[left].hi == Some(key)
    }

    /** Pushes a separator upward after a split; every level it climbs is one level closer to the root. */
    method InsertIntoParent(ghost p: Pending, left: Node, key: int, right: Node)
      requires Waiting(p, left, key, right)
      modifies this, Nodes()
      ensures Valid() && forall n :: n in Nodes() ==> n in old(Nodes()) || fresh(n)
      ensures Contents() == old(Contents()) && state.leaves == old(state).leaves
      decreases Distance(state, left)
    {
      assert NodeOk(state, p, left);
      var parent := left.parent;
      if parent == null {
        ghost var top := RootStep(p, left, key, right);
        NewRootInv(old(state), p, top);
        return;
      }
      var insertIndex := FindChild(parent, left);
      assert state.nodes[parent].children[insertIndex] == left;
      ParentFacts(state, p, parent, insertIndex);
      if parent.numKeys < BPTREE_MAX_KEYS {
        InternalStep(p, parent, insertIndex, key, right);
        InternalInsertedInv(old(state), p, parent, insertIndex);
        return;
      }
      SplitInternalAndInsert(p, parent, insertIndex, left, key, right);
    }

    /** Splits a full internal node and pushes the promoted separator further up. */
    method SplitInternalAndInsert(ghost p: Pending, parent: Node, insertIndex: nat, ghost left: Node, key: int, right: Node)
      requires Waiting(p, left, key, right) && SplitAt(state, p, parent, insertIndex) && parent.numKeys == BPTREE_MAX_KEYS
      modifies this, Nodes()
      ensures Valid() && forall n :: n in Nodes() ==> n in old(Nodes()) || fresh(n)
      ensures Contents() == old(Contents()) && state.leaves == old(state).leaves
      decreases Distance(state, left), 0
    {
      ghost var p';
      var promoteKey, sib;
      promoteKey, sib, p' := DivideInternal(p, parent, insertIndex, left, key, right);
      InsertIntoParent(p', parent, promoteKey, sib);
    }

    method DivideInternal(ghost p: Pending, parent: Node, insertIndex: nat, ghost left: Node, key: int, right: Node)
      returns (promoteKey: int, sib: Node, ghost p': Pending)
      requires Waiting(p, left, key, right) && SplitAt(state, p, parent, insertIndex) && parent.numKeys == BPTREE_MAX_KEYS
      modifies this`state, Nodes()
      ensures fresh(sib) && Nodes() == old(Nodes()) + {sib}
      ensures Waiting(p', parent, promoteKey, sib)
      ensures Contents() == old(Contents()) && state.leaves == old(state).leaves
      ensures 0 <= Distance(state, parent) < Distance(old(state), left)
    {
      ParentFacts(state, p, parent, insertIndex);
      promoteKey, sib := InternalSplitStep(p, parent, insertIndex, key, right);
      InternalSplitInv(old(state), p, parent, insertIndex, sib);
      DistanceShrinks(old(state), p, parent, insertIndex, sib);
      p' := InternalPending(old(state), parent, sib);
    }

    /** Looks for the slot holding a child pointer; found whenever the child is there. */
    method FindChild(parent: Node, child: Node) returns (index: nat)
      requires child in parent.children[..parent.numKeys + 1]
      ensures index <= parent.numKeys && parent.children[index] == child
    {
      index := 0;
      while index <= parent.numKeys && parent.children[index] != child
        invariant index <= parent.numKeys + 1
        invariant forall j :: 0 <= j < index ==> parent.children[j] != child
      {
        index := index + 1;
      }
    }
  }

  /** Levels between a node and the root. */
  ghost function Distance(t: Tree, n: Node): int {
    if t.root == null || t.root !in t.nodes || n !in t.nodes then 0 else t.nodes[t.root].height - t.nodes[n].height
  }

  lemma LeafFacts(t: Tree, leaf: Node) returns (j: nat)
    requires Inv(t, Settled) && leaf in t.nodes && t.nodes[leaf].isLeaf
    ensures ViewOk(t.nodes[leaf]) && j < |t.leaves| && t.leaves[j] == leaf
  {
    assert NodeOk(t, Settled, leaf);
    assert leaf in t.leaves;
    j :| 0 <= j < |t.leaves| && t.leaves[j] == leaf;
  }

  lemma DistanceShrinks(t: Tree, p: Pending, q: Node, i: nat, sib: Node)
    requires Inv(t, p) && CanSplitInternal(t, p, q, i, sib)
    ensures 0 <= Distance(InternalSplit(t, p, q, i, sib), q) < Distance(t, p.left)
  {
    ParentFacts(t, p, q, i);
    InternalSplitRoot(t, p, q, i, sib);
    assert InternalSplit(t, p, q, i, sib).nodes[t.root].height == t.nodes[t.root].height;
  }

  lemma SingleLeafInv(t: Tree, leaf: Node, key: int, value: Pointer)
    requires t.nodes == map[leaf := View(true, [key], [value], [], null, null, None, None, 0)]
    requires t.root == leaf && t.leaves == [leaf] && t.contents == map[key := value]
    ensures Inv(t, Settled)
  {
    assert t.nodes[leaf].keys[0] == key;
    assert LinkOk(t, 0);
  }

  /** What the parent of a pending pair looks like before the separator arrives. */
  lemma ParentFacts(t: Tree, p: Pending, q: Node, i: nat)
    requires Inv(t, p) && SplitAt(t, p, q, i)
    ensures ViewOk(t.nodes[q]) && t.nodes[p.right].parent == q && p.right != q && OwnKids(t, q)
    ensures t.root != null && t.root in t.nodes && t.nodes[q].height == t.nodes[p.left].height + 1
    ensures t.nodes[q].height <= t.nodes[t.root].height && t.nodes[q].parent != q
  {
    assert NodeOk(t, p, q);
    forall j | 0 <= j < |t.nodes[q].children|
      ensures var c := t.nodes[q].children[j]; c != null && c in t.nodes && t.nodes[c].parent == q && c != q
    {
      assert KidOk(t, p, q, j, t.nodes[q].children[j]);
    }
    assert KidOk(t, p, q, i, t.nodes[q].children[i]);
    assert q !in t.nodes[q].children;
  }

  /** What every old node but the split one looks like after an internal split. */
  ghost function Adopted(v: View, n: Node, parent: Node, sib: Node, moved: seq<Node?>): View {
    if v.parent == parent then v.(parent := if n in moved then sib else parent) else v
  }

  ghost predicate OwnKids(t: Tree, q: Node)
    requires q in t.nodes
  {
    forall j :: 0 <= j < |t.nodes[q].children| ==>
      var c := t.nodes[q].children[j]; c != null && c in t.nodes && t.nodes[c].parent == q
  }

  /** The snapshot after an internal split, node by node. */
  lemma InternalSplitViews(t: Tree, p: Pending, q: Node, i: nat, sib: Node)
    requires CanSplitInternal(t, p, q, i, sib) && t.nodes[q].parent != q && OwnKids(t, q)
    requires t.nodes[p.right].parent == q
    ensures var t' := InternalSplit(t, p, q, i, sib);
      && t'.nodes.Keys == t.nodes.Keys + {sib}
      && t'.nodes[q] == InternalLeft(GrownAt(t, p, q, i)) && t'.nodes[sib] == InternalRight(GrownAt(t, p, q, i))
      && forall n {:trigger t'.nodes[n]} :: n in t.nodes && n != q ==>
           t'.nodes[n] == Adopted(t.nodes[n], n, q, sib, Moved(t, p, q, i))
  {
  }
}
