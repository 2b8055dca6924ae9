/**
 * sql_processor/bptree.c: what the insertion routines do to the arrays of single nodes, before
 * the tree as a whole comes in. Every routine is specified by the view it leaves behind.
 */
module BPTreeNodes {
  import opened Wrappers
  import opened Records
  import opened BPTreeModel
  import opened BPTreeSteps

  /** The position where a key should be inserted. */
  method FindInsertIndex(keys: seq<int>, numKeys: nat, key: int) returns (index: nat)
    requires numKeys <= |keys|
    ensures index <= numKeys
    ensures forall j :: 0 <= j < index ==> keys[j] < key
    ensures index < numKeys ==> key <= keys[index]
  {
    index := 0;
    while index < numKeys && keys[index] < key
      invariant index <= numKeys
      invariant forall j :: 0 <= j < index ==> keys[j] < key
    {
      index := index + 1;
    }
  }

  /** Inserts an entry into a leaf with room by shifting the larger entries up. */
  method InsertIntoLeaf(leaf: Node, key: int, value: Pointer) returns (ghost slot: nat)
    requires ViewOk(leaf.GetView()) && leaf.isLeaf && leaf.numKeys < BPTREE_MAX_KEYS
    requires InRange(leaf.GetView(), key) && key !in leaf.keys[..leaf.numKeys]
    modifies leaf
    ensures LeafSlot(old(leaf.GetView()), slot, key)
    ensures leaf.GetView() == Filled(old(leaf.GetView()), slot, key, value)
  {
    var position := FindInsertIndex(leaf.keys, leaf.numKeys, key);
    slot := position;
    SlotFound(leaf.GetView(), position, key);
    ghost var keys, values, n := leaf.keys, leaf.values, leaf.numKeys;
    MakeRoom(leaf, position);
    leaf.keys := leaf.keys[position := key];
    leaf.values := leaf.values[position := value];
    leaf.numKeys := leaf.numKeys + 1;
    RoomFilled(keys, leaf.keys, n, position, key);
    RoomFilled(values, leaf.values, n, position, value);
  }

  /** Shifting the live entries up from a position and filling it inserts there. */
  lemma RoomFilled<T>(before: seq<T>, after: seq<T>, n: nat, position: nat, x: T)
    requires position <= n < |before| == |after| && after[position] == x
    requires forall j :: 0 <= j < position ==> after[j] == before[j]
    requires forall j :: position < j <= n ==> after[j] == before[j - 1]
    ensures after[..n + 1] == InsertAt(before[..n], position, x)
  {
  }

  /** The shifting loop: slot `position` becomes free, everything above it moves up by one. */
  method MakeRoom(leaf: Node, position: nat)
    requires position <= leaf.numKeys < BPTREE_MAX_KEYS
    modifies leaf`keys, leaf`values
    ensures forall j :: 0 <= j < position ==> leaf.keys[j] == old(leaf.keys)[j] && leaf.values[j] == old(leaf.values)[j]
    ensures forall j :: position < j <= leaf.numKeys ==>
              leaf.keys[j] == old(leaf.keys)[j - 1] && leaf.values[j] == old(leaf.values)[j - 1]
  {
    var index: int := leaf.numKeys;
    while index > position
      invariant position <= index <= leaf.numKeys
      invariant forall j :: 0 <= j <= index && j < leaf.numKeys ==>
                  leaf.keys[j] == old(leaf.keys)[j] && leaf.values[j] == old(leaf.values)[j]
      invariant forall j :: index < j <= leaf.numKeys ==>
                  leaf.keys[j] == old(leaf.keys)[j - 1] && leaf.values[j] == old(leaf.values)[j - 1]
    {
      leaf.keys := leaf.keys[index := leaf.keys[index - 1]];
      leaf.values := leaf.values[index := leaf.values[index - 1]];
      index := index - 1;
    }
  }

  lemma SlotFound(v: View, position: nat, key: int)
    requires Sorted(v.keys) && key !in v.keys && position <= |v.keys|
    requires forall j :: 0 <= j < position ==> v.keys[j] < key
    requires position < |v.keys| ==> key <= v.keys[position]
    ensures SlotFor(v.keys, position, key)
  {
    forall j | position <= j < |v.keys|
      ensures key < v.keys[j]
    {
      assert v.keys[j] in v.keys;
      assert position < j ==> v.keys[position] < v.keys[j];
    }
  }

  /** Splits a full leaf through temporary arrays: the left half stays, the right half moves to a new leaf. */
  method SplitLeaf(leaf: Node, key: int, value: Pointer) returns (right: Node, ghost slot: nat)
    requires ViewOk(leaf.GetView()) && leaf.isLeaf && leaf.numKeys == BPTREE_MAX_KEYS
    requires InRange(leaf.GetView(), key) && key !in leaf.keys[..leaf.numKeys]
    modifies leaf
    ensures LeafFull(old(leaf.GetView()), slot, key)
    ensures fresh(right)
    ensures leaf.GetView() == LeafLeft(old(leaf.GetView()), slot, key, value, right)
    ensures right.GetView() == LeafRight(old(leaf.GetView()), slot, key, value)
    ensures right.keys[0] == LeafSeparator(old(leaf.GetView()), slot, key)
  {
    var insertIndex := FindInsertIndex(leaf.keys, leaf.numKeys, key);
    slot := insertIndex;
    SlotFound(leaf.GetView(), insertIndex, key);
    ghost var w := Filled(leaf.GetView(), insertIndex, key, value);
    var tempKeys, tempValues := MergeEntries(leaf, insertIndex, key, value);
    assert tempKeys[..] == w.keys && tempValues[..] == w.values;
    right := Halve(leaf, tempKeys, tempValues);
    assert tempKeys[..LEFT_COUNT] == w.keys[..LEFT_COUNT] && tempKeys[LEFT_COUNT..] == w.keys[LEFT_COUNT..];
    assert tempValues[..LEFT_COUNT] == w.values[..LEFT_COUNT] && tempValues[LEFT_COUNT..] == w.values[LEFT_COUNT..];
  }

  /** The lower half goes back into `leaf`, the upper half into a new leaf linked right behind it. */
  method Halve(leaf: Node, tempKeys: array<int>, tempValues: array<Pointer>) returns (right: Node)
    requires leaf.isLeaf && leaf.height == 0
    requires tempKeys.Length == BPTREE_ORDER && tempValues.Length == BPTREE_ORDER
    modifies leaf
    ensures fresh(right) && right.keys[0] == tempKeys[LEFT_COUNT]
    ensures leaf.GetView() == old(leaf.GetView()).(
              keys := tempKeys[..LEFT_COUNT], values := tempValues[..LEFT_COUNT],
              next := right, hi := Some(tempKeys[LEFT_COUNT]))
    ensures right.GetView() == old(leaf.GetView()).(
              keys := tempKeys[LEFT_COUNT..], values := tempValues[LEFT_COUNT..], lo := Some(tempKeys[LEFT_COUNT]))
  {
    right := new Node(true);
    KeepLeft(leaf, tempKeys, tempValues);
    right.parent := leaf.parent;
    TakeRight(right, tempKeys, tempValues);
    assert right.keys[0] == right.keys[..right.numKeys][0];
    right.next := leaf.next;
    leaf.next := right;
    right.lo, right.hi := Some(tempKeys[LEFT_COUNT]), leaf.hi;
    leaf.hi := Some(tempKeys[LEFT_COUNT]);
  }

  method MergeEntries(leaf: Node, insertIndex: nat, key: int, value: Pointer)
    returns (tempKeys: array<int>, tempValues: array<Pointer>)
    requires leaf.numKeys == BPTREE_MAX_KEYS && insertIndex <= leaf.numKeys
    ensures fresh(tempKeys) && fresh(tempValues)
    ensures tempKeys.Length == BPTREE_ORDER && tempValues.Length == BPTREE_ORDER
    ensures tempKeys[..] == InsertAt(leaf.keys[..leaf.numKeys], insertIndex, key)
    ensures tempValues[..] == InsertAt(leaf.values[..leaf.numKeys], insertIndex, value)
  {
    tempKeys, tempValues := new int[BPTREE_ORDER], new Pointer[BPTREE_ORDER];
    ghost var keys := InsertAt(leaf.keys[..leaf.numKeys], insertIndex, key);
    ghost var values := InsertAt(leaf.values[..leaf.numKeys], insertIndex, value);
    var tempIndex := 0;
    for index := 0 to leaf.numKeys
      invariant tempIndex == if index <= insertIndex then index else index + 1
      invariant forall j :: 0 <= j < tempIndex ==> tempKeys[j] == keys[j] && tempValues[j] == values[j]
    {
      if tempIndex == insertIndex {
        tempKeys[tempIndex] := key;
        tempValues[tempIndex] := value;
        tempIndex := tempIndex + 1;
      }
      tempKeys[tempIndex] := leaf.keys[index];
      tempValues[tempIndex] := leaf.values[index];
      tempIndex := tempIndex + 1;
    }
    if tempIndex == insertIndex {
      tempKeys[tempIndex] := key;
      tempValues[tempIndex] := value;
    }
    assert tempKeys[..] == keys && tempValues[..] == values;
  }

  method KeepLeft(leaf: Node, tempKeys: array<int>, tempValues: array<Pointer>)
    requires tempKeys.Length == BPTREE_ORDER && tempValues.Length == BPTREE_ORDER
    modifies leaf`numKeys, leaf`keys, leaf`values
    ensures leaf.numKeys == LEFT_COUNT
    ensures leaf.keys[..LEFT_COUNT] == tempKeys[..LEFT_COUNT]
    ensures leaf.values[..LEFT_COUNT] == tempValues[..LEFT_COUNT]
  {
    leaf.numKeys := 0;
    for index := 0 to LEFT_COUNT
      invariant leaf.numKeys == index
      invariant leaf.keys[..index] == tempKeys[..index]
      invariant leaf.values[..index] == tempValues[..index]
    {
      leaf.keys := leaf.keys[index := tempKeys[index]];
      leaf.values := leaf.values[index := tempValues[index]];
      leaf.numKeys := leaf.numKeys + 1;
    }
  }

  method TakeRight(right: Node, tempKeys: array<int>, tempValues: array<Pointer>)
    requires tempKeys.Length == BPTREE_ORDER && tempValues.Length == BPTREE_ORDER
    requires right.numKeys == 0
    modifies right`numKeys, right`keys, right`values
    ensures right.numKeys == BPTREE_ORDER - LEFT_COUNT
    ensures right.keys[..right.numKeys] == tempKeys[LEFT_COUNT..]
    ensures right.values[..right.numKeys] == tempValues[LEFT_COUNT..]
  {
    for index := LEFT_COUNT to BPTREE_ORDER
      invariant right.numKeys == index - LEFT_COUNT
      invariant right.keys[..right.numKeys] == tempKeys[LEFT_COUNT..index]
      invariant right.values[..right.numKeys] == tempValues[LEFT_COUNT..index]
    {
      right.keys := right.keys[right.numKeys := tempKeys[index]];
      right.values := right.values[right.numKeys := tempValues[index]];
      right.numKeys := right.numKeys + 1;
    }
  }

  // ---------------------------------------------------------------- internal nodes

  /** The shifting loop for an array slot range: slot `position` becomes free. */
  method ShiftUp<T>(s: seq<T>, count: nat, position: nat) returns (r: seq<T>)
    requires position <= count < |s|
    ensures |r| == |s|
    ensures forall j :: 0 <= j < position ==> r[j] == s[j]
    ensures forall j :: position < j <= count ==> r[j] == s[j - 1]
  {
    r := s;
    var index := count;
    while index > position
      invariant position <= index <= count
      invariant |r| == |s|
      invariant forall j :: 0 <= j <= index ==> r[j] == s[j]
      invariant forall j :: index < j <= count ==> r[j] == s[j - 1]
    {
      r := r[index := r[index - 1]];
      index := index - 1;
    }
  }

  /** Inserts a promoted key and the child to its right into an internal node with room. */
  method InsertIntoInternal(parent: Node, insertIndex: nat, key: int, right: Node)
    requires ViewOk(parent.GetView()) && !parent.isLeaf && parent.numKeys < BPTREE_MAX_KEYS
    requires insertIndex <= parent.numKeys && right != parent
    modifies parent`keys, parent`children, parent`numKeys, right`parent
    ensures parent.GetView() == Grown(old(parent.GetView()), insertIndex, key, right)
    ensures right.parent == parent
  {
    ghost var keys, children := parent.keys[..parent.numKeys], parent.children[..parent.numKeys + 1];
    var shiftedKeys := ShiftUp(parent.keys, parent.numKeys, insertIndex);
    parent.keys := shiftedKeys;
    var shiftedChildren := ShiftUp(parent.children, parent.numKeys + 1, insertIndex + 1);
    parent.children := shiftedChildren;
    parent.keys := parent.keys[insertIndex := key];
    parent.children := parent.children[insertIndex + 1 := right];
    right.parent := parent;
    parent.numKeys := parent.numKeys + 1;
    assert parent.keys[..parent.numKeys] == InsertAt(keys, insertIndex, key);
    assert parent.children[..parent.numKeys + 1] == InsertAt(children, insertIndex + 1, right);
  }

  method ShiftArray<T>(a: array<T>, count: nat, position: nat)
    requires position <= count < a.Length
    modifies a
    ensures forall j :: 0 <= j < position ==> a[j] == old(a[j])
    ensures forall j :: position < j <= count ==> a[j] == old(a[j - 1])
  {
    var index := count;
    while index > position
      invariant position <= index <= count
      invariant forall j :: 0 <= j <= index ==> a[j] == old(a[j])
      invariant forall j :: index < j <= count ==> a[j] == old(a[j - 1])
    {
      a[index] := a[index - 1];
      index := index - 1;
    }
  }

  /** Copies the first `count` slots of `s` to a temporary and opens slot `position` for `x`. */
  method CopyWithExtra<T(0)>(s: seq<T>, count: nat, position: nat, x: T) returns (a: array<T>)
    requires position <= count <= |s|
    ensures fresh(a) && a[..] == InsertAt(s[..count], position, x)
  {
    a := new T[count + 1];
    for index := 0 to count
      invariant forall j :: 0 <= j < index ==> a[j] == s[j]
    {
      a[index] := s[index];
    }
    ShiftArray(a, count, position);
    a[position] := x;
    assert a[..] == InsertAt(s[..count], position, x);
  }

  /** The lower children stay in `parent`, which becomes (again) their parent. */
  method KeepLower(parent: Node, tempKeys: array<int>, tempChildren: array<Node?>, ghost kids: set<Node>)
    requires tempKeys.Length == BPTREE_ORDER && tempChildren.Length == BPTREE_ORDER + 1
    requires forall j :: 0 <= j < tempChildren.Length ==> tempChildren[j] != null ==> tempChildren[j] in kids
    requires parent !in kids
    modifies parent`numKeys, parent`keys, parent`children, kids`parent
    ensures parent.numKeys == PROMOTE_INDEX
    ensures parent.keys[..PROMOTE_INDEX] == tempKeys[..PROMOTE_INDEX]
    ensures parent.children[..PROMOTE_INDEX + 1] == tempChildren[..PROMOTE_INDEX + 1]
    ensures forall c :: c in kids ==>
              c.parent == if c in tempChildren[..PROMOTE_INDEX + 1] then parent else old(c.parent)
  {
    parent.numKeys := 0;
    for index := 0 to PROMOTE_INDEX
      invariant parent.numKeys == index
      invariant parent.keys[..index] == tempKeys[..index]
      invariant parent.children[..index] == tempChildren[..index]
      invariant forall c :: c in kids ==> c.parent == if c in tempChildren[..index] then parent else old(c.parent)
    {
      parent.keys := parent.keys[index := tempKeys[index]];
      parent.children := parent.children[index := tempChildren[index]];
      if parent.children[index] != null {
        parent.children[index].parent := parent;
      }
      parent.numKeys := parent.numKeys + 1;
      assert tempChildren[..index + 1] == tempChildren[..index] + [tempChildren[index]];
    }
    parent.children := parent.children[PROMOTE_INDEX := tempChildren[PROMOTE_INDEX]];
    if parent.children[PROMOTE_INDEX] != null {
      parent.children[PROMOTE_INDEX].parent := parent;
    }
    assert tempChildren[..PROMOTE_INDEX + 1] == tempChildren[..PROMOTE_INDEX] + [tempChildren[PROMOTE_INDEX]];
  }

  /** The children beyond the promoted key go to the new sibling, which becomes their parent. */
  method TakeUpper(sib: Node, tempKeys: array<int>, tempChildren: array<Node?>, ghost kids: set<Node>)
    requires tempKeys.Length == BPTREE_ORDER && tempChildren.Length == BPTREE_ORDER + 1
    requires forall j :: 0 <= j < tempChildren.Length ==> tempChildren[j] != null ==> tempChildren[j] in kids
    requires sib !in kids && sib.numKeys == 0
    modifies sib`numKeys, sib`keys, sib`children, kids`parent
    ensures sib.numKeys == BPTREE_ORDER - (PROMOTE_INDEX + 1)
    ensures sib.keys[..sib.numKeys] == tempKeys[PROMOTE_INDEX + 1..]
    ensures sib.children[..sib.numKeys + 1] == tempChildren[PROMOTE_INDEX + 1..]
    ensures forall c :: c in kids ==>
              c.parent == if c in tempChildren[PROMOTE_INDEX + 1..] then sib else old(c.parent)
  {
    for index := PROMOTE_INDEX + 1 to BPTREE_ORDER
      invariant sib.numKeys == index - (PROMOTE_INDEX + 1)
      invariant sib.keys[..sib.numKeys] == tempKeys[PROMOTE_INDEX + 1..index]
      invariant sib.children[..sib.numKeys] == tempChildren[PROMOTE_INDEX + 1..index]
      invariant forall c :: c in kids ==>
                  c.parent == if c in tempChildren[PROMOTE_INDEX + 1..index] then sib else old(c.parent)
    {
      sib.keys := sib.keys[sib.numKeys := tempKeys[index]];
      sib.children := sib.children[sib.numKeys := tempChildren[index]];
      if sib.children[sib.numKeys] != null {
        sib.children[sib.numKeys].parent := sib;
      }
      sib.numKeys := sib.numKeys + 1;
      assert tempChildren[PROMOTE_INDEX + 1..index + 1] == tempChildren[PROMOTE_INDEX + 1..index] + [tempChildren[index]];
    }
    sib.children := sib.children[sib.numKeys := tempChildren[BPTREE_ORDER]];
    if sib.children[sib.numKeys] != null {
      sib.children[sib.numKeys].parent := sib;
    }
    assert tempChildren[PROMOTE_INDEX + 1..] == tempChildren[PROMOTE_INDEX + 1..BPTREE_ORDER] + [tempChildren[BPTREE_ORDER]];
  }

  /**
   * Splits a full internal node around the middle of its keys with one more key and child added.
   * `kids` are the nodes whose parent pointers may be written: the children involved.
   */
  method SplitInternal(parent: Node, insertIndex: nat, key: int, rightChild: Node, ghost kids: set<Node>)
    returns (promoteKey: int, sib: Node)
    requires ViewOk(parent.GetView()) && !parent.isLeaf && parent.numKeys == BPTREE_MAX_KEYS
    requires insertIndex <= parent.numKeys
    requires forall j :: 0 <= j <= parent.numKeys ==> parent.children[j] != null && parent.children[j] in kids
    requires rightChild in kids && parent !in kids
    modifies parent`numKeys, parent`keys, parent`children, parent`hi, kids`parent
    ensures fresh(sib)
    ensures var g := Grown(old(parent.GetView()), insertIndex, key, rightChild);
      && promoteKey == g.keys[PROMOTE_INDEX]
      && parent.GetView() == InternalLeft(g)
      && sib.GetView() == InternalRight(g)
      && forall c :: c in kids ==>
           c.parent == if c in g.children[PROMOTE_INDEX + 1..] then sib
                       else if c in g.children[..PROMOTE_INDEX + 1] then parent
                       else old(c.parent)
  {
    var tempKeys, tempChildren := BuildTemps(parent, insertIndex, key, rightChild, kids);
    promoteKey, sib := HalveInternal(parent, tempKeys, tempChildren, kids);
    ghost var g := Grown(old(parent.GetView()), insertIndex, key, rightChild);
    SlicesOf(tempKeys, g.keys, PROMOTE_INDEX);
    SlicesOf(tempKeys, g.keys, PROMOTE_INDEX + 1);
    SlicesOf(tempChildren, g.children, PROMOTE_INDEX + 1);
  }

  /** Temporary arrays that include the new key and child. */
  method BuildTemps(parent: Node, insertIndex: nat, key: int, rightChild: Node, ghost kids: set<Node>)
    returns (tempKeys: array<int>, tempChildren: array<Node?>)
    requires !parent.isLeaf && parent.numKeys == BPTREE_MAX_KEYS && insertIndex <= parent.numKeys
    requires forall j :: 0 <= j <= parent.numKeys ==> parent.children[j] != null && parent.children[j] in kids
    requires rightChild in kids
    ensures fresh(tempKeys) && fresh(tempChildren)
    ensures tempKeys.Length == BPTREE_ORDER && tempChildren.Length == BPTREE_ORDER + 1
    ensures tempKeys[..] == Grown(parent.GetView(), insertIndex, key, rightChild).keys
    ensures tempChildren[..] == Grown(parent.GetView(), insertIndex, key, rightChild).children
    ensures forall j :: 0 <= j < tempChildren.Length ==> tempChildren[j] != null && tempChildren[j] in kids
  {
    tempKeys := CopyWithExtra(parent.keys, parent.numKeys, insertIndex, key);
    tempChildren := CopyWithExtra(parent.children, parent.numKeys + 1, insertIndex + 1, rightChild);
    ghost var children := InsertAt(parent.children[..parent.numKeys + 1], insertIndex + 1, rightChild);
    assert tempChildren[..] == children;
    forall j | 0 <= j < tempChildren.Length
      ensures tempChildren[j] != null && tempChildren[j] in kids
    {
      assert tempChildren[j] == children[j];
    }
  }

  lemma SlicesOf<T>(a: array<T>, s: seq<T>, i: nat)
    requires a[..] == s && i <= |s|
    ensures a[..i] == s[..i] && a[i..] == s[i..]
  {
  }

  /** Deals the temporaries to the node and a new sibling; children take the node they end up under. */
  method DealHalves(parent: Node, tempKeys: array<int>, tempChildren: array<Node?>, ghost kids: set<Node>)
    returns (promoteKey: int, sib: Node)
    requires parent !in kids
    requires tempKeys.Length == BPTREE_ORDER && tempChildren.Length == BPTREE_ORDER + 1
    requires forall j :: 0 <= j < tempChildren.Length ==> tempChildren[j] != null ==> tempChildren[j] in kids
    modifies parent`numKeys, parent`keys, parent`children, kids`parent
    ensures fresh(sib) && promoteKey == tempKeys[PROMOTE_INDEX]
    ensures parent.numKeys == PROMOTE_INDEX && sib.numKeys == BPTREE_ORDER - (PROMOTE_INDEX + 1)
    ensures parent.keys[..parent.numKeys] == tempKeys[..PROMOTE_INDEX]
    ensures parent.children[..parent.numKeys + 1] == tempChildren[..PROMOTE_INDEX + 1]
    ensures sib.keys[..sib.numKeys] == tempKeys[PROMOTE_INDEX + 1..]
    ensures sib.children[..sib.numKeys + 1] == tempChildren[PROMOTE_INDEX + 1..]
    ensures !sib.isLeaf && sib.parent == parent.parent && sib.next == null
    ensures forall c :: c in kids ==>
              c.parent == if c in tempChildren[PROMOTE_INDEX + 1..] then sib
                          else if c in tempChildren[..PROMOTE_INDEX + 1] then parent
                          else old(c.parent)
  {
    sib := new Node(false);
    KeepLower(parent, tempKeys, tempChildren, kids);
    promoteKey := tempKeys[PROMOTE_INDEX];
    sib.parent := parent.parent;
    TakeUpper(sib, tempKeys, tempChildren, kids);
  }

  method HalveInternal(parent: Node, tempKeys: array<int>, tempChildren: array<Node?>, ghost kids: set<Node>)
    returns (promoteKey: int, sib: Node)
    requires !parent.isLeaf && parent !in kids
    requires tempKeys.Length == BPTREE_ORDER && tempChildren.Length == BPTREE_ORDER + 1
    requires forall j :: 0 <= j < tempChildren.Length ==> tempChildren[j] != null ==> tempChildren[j] in kids
    modifies parent`numKeys, parent`keys, parent`children, parent`hi, kids`parent
    ensures fresh(sib) && promoteKey == tempKeys[PROMOTE_INDEX]
    ensures parent.GetView() == old(parent.GetView()).(
              keys := tempKeys[..PROMOTE_INDEX], children := tempChildren[..PROMOTE_INDEX + 1], hi := Some(promoteKey))
    ensures sib.GetView() == old(parent.GetView()).(
              keys := tempKeys[PROMOTE_INDEX + 1..], children := tempChildren[PROMOTE_INDEX + 1..],
              lo := Some(promoteKey), next := null)
    ensures forall c :: c in kids ==>
              c.parent == if c in tempChildren[PROMOTE_INDEX + 1..] then sib
                          else if c in tempChildren[..PROMOTE_INDEX + 1] then parent
                          else old(c.parent)
  {
    promoteKey, sib := DealHalves(parent, tempKeys, tempChildren, kids);
    sib.lo, sib.hi, sib.height := Some(promoteKey), parent.hi, parent.height;
    parent.hi := Some(promoteKey);
  }

  /** The split as the children see it: they follow the half they went to. */
  method SplitFamily(parent: Node, insertIndex: nat, key: int, rightChild: Node, ghost kids: set<Node>)
    returns (promoteKey: int, sib: Node)
    requires ViewOk(parent.GetView()) && !parent.isLeaf && parent.numKeys == BPTREE_MAX_KEYS
    requires insertIndex <= parent.numKeys
    requires forall j :: 0 <= j <= parent.numKeys ==> parent.children[j] != null && parent.children[j] in kids
    requires rightChild in kids && parent !in kids && forall c :: c in kids ==> c.parent == parent
    modifies parent`numKeys, parent`keys, parent`children, parent`hi, kids`parent
    ensures fresh(sib)
    ensures var g := Grown(old(parent.GetView()), insertIndex, key, rightChild);
      && promoteKey == g.keys[PROMOTE_INDEX]
      && parent.GetView() == InternalLeft(g)
      && sib.GetView() == InternalRight(g)
      && forall c {:trigger c.GetView()} :: c in kids ==>
           c.GetView() == old(c.GetView()).(parent := if c in g.children[PROMOTE_INDEX + 1..] then sib else parent)
  {
    ghost var g := Grown(parent.GetView(), insertIndex, key, rightChild);
    promoteKey, sib := SplitInternal(parent, insertIndex, key, rightChild, kids);
    ghost var upper := g.children[PROMOTE_INDEX + 1..];
    assert forall c :: c in kids ==> c.parent == if c in upper then sib else parent;
    forall c | c in kids
      ensures c.GetView() == old(c.GetView()).(parent := if c in upper then sib else parent)
    {
    }
  }

  /** An internal node over two children, as a new root starts out. */
  method NewInternal(left: Node, key: int, right: Node) returns (top: Node)
    requires left != right
    modifies left`parent, right`parent
    ensures fresh(top)
    ensures top.GetView() == View(false, [key], [], [left, right], null, null, None, None, left.height + 1)
    ensures left.GetView() == old(left.GetView()).(parent := top)
    ensures right.GetView() == old(right.GetView()).(parent := top)
  {
    top := new Node(false);
    top.keys := top.keys[0 := key];
    top.children := top.children[0 := left][1 := right];
    top.numKeys := 1;
    left.parent := top;
    right.parent := top;
    top.height := left.height + 1;
    assert top.keys[..1] == [key] && top.children[..2] == [left, right];
  }
}
