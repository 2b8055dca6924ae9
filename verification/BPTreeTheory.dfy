/**
 * What the local invariant means for the tree as a whole: search order, one sorted chain of
 * leaves, and a height that is logarithmic in the number of keys.
 */
module BPTreeTheory {
  import opened Wrappers
  import opened BPTreeModel
  import opened BPTreeSteps

  /** Child `i` of an internal node, with what the invariant says about it. */
  ghost function Kid(t: Tree, n: Node, i: nat): (c: Node)
    requires Inv(t, Settled) && n in t.nodes && !t.nodes[n].isLeaf && i < |t.nodes[n].children|
    ensures c in t.nodes && t.nodes[c].height < t.nodes[n].height
    ensures i <= |t.nodes[n].keys| && KidOk(t, Settled, n, i, c)
  {
    assert NodeOk(t, Settled, n);
    assert KidOk(t, Settled, n, i, t.nodes[n].children[i]);
    t.nodes[n].children[i]
  }

  // ---------------------------------------------------------------- keys in order

  /** All keys below `n`, leaf by leaf from left to right. */
  ghost function KeysUnder(t: Tree, n: Node): seq<int>
    requires Inv(t, Settled) && n in t.nodes
    decreases t.nodes[n].height, |t.nodes[n].children| + 1
  {
    if t.nodes[n].isLeaf then t.nodes[n].keys else KeysFrom(t, n, 0)
  }

  /** The keys below children `i`, `i + 1`, ... of `n`. */
  ghost function KeysFrom(t: Tree, n: Node, i: nat): seq<int>
    requires Inv(t, Settled) && n in t.nodes && !t.nodes[n].isLeaf && i <= |t.nodes[n].children|
    decreases t.nodes[n].height, |t.nodes[n].children| - i
  {
    if i == |t.nodes[n].children| then []
    else KeysUnder(t, Kid(t, n, i)) + KeysFrom(t, n, i + 1)
  }

  ghost predicate Within(s: seq<int>, lo: Option<int>, hi: Option<int>) {
    forall j :: 0 <= j < |s| ==> AtLeast(s[j], lo) && Below(s[j], hi)
  }

  /** `s` lists exactly the keys of the map in the range from `lo` to `hi`, in order. */
  ghost predicate Spells(t: Tree, s: seq<int>, lo: Option<int>, hi: Option<int>) {
    && Sorted(s)
    && Within(s, lo, hi)
    && (forall j :: 0 <= j < |s| ==> s[j] in t.contents)
    && (forall k :: k in t.contents && AtLeast(k, lo) && Below(k, hi) ==> k in s)
  }

  lemma SpellsJoin(t: Tree, a: seq<int>, b: seq<int>, lo: Option<int>, mid: int, hi: Option<int>)
    requires Spells(t, a, lo, Some(mid)) && Spells(t, b, Some(mid), hi)
    requires AtLeast(mid, lo) && (hi.Some? ==> mid <= hi.value)
    ensures Spells(t, a + b, lo, hi)
  {
    var s := a + b;
    forall k | k in t.contents && AtLeast(k, lo) && Below(k, hi)
      ensures k in s
    {
      assert k < mid ==> k in a;
      assert k >= mid ==> k in b;
    }
    assert forall j :: 0 <= j < |s| ==> s[j] == if j < |a| then a[j] else b[j - |a|];
  }

  /** A node spells the part of the map its range covers. */
  lemma {:induction false} NodeSpells(t: Tree, n: Node)
    requires Inv(t, Settled) && n in t.nodes
    ensures Spells(t, KeysUnder(t, n), t.nodes[n].lo, t.nodes[n].hi)
    decreases t.nodes[n].height, |t.nodes[n].children| + 1
  {
    assert NodeOk(t, Settled, n);
    if !t.nodes[n].isLeaf {
      KidsSpell(t, n, 0);
    }
  }

  lemma {:induction false} KidsSpell(t: Tree, n: Node, i: nat)
    requires Inv(t, Settled) && n in t.nodes && !t.nodes[n].isLeaf && i <= |t.nodes[n].keys|
    ensures |t.nodes[n].children| == |t.nodes[n].keys| + 1
    ensures Spells(t, KeysFrom(t, n, i), SlotLo(t.nodes[n], i), t.nodes[n].hi)
    decreases t.nodes[n].height, |t.nodes[n].children| - i
  {
    assert NodeOk(t, Settled, n);
    var v := t.nodes[n];
    var c := Kid(t, n, i);
    NodeSpells(t, c);
    if i == |v.keys| {
      assert KeysFrom(t, n, i + 1) == [];
      assert KeysFrom(t, n, i) == KeysUnder(t, c);
    } else {
      KidsSpell(t, n, i + 1);
      assert Above(v.keys[i], v.lo) && Below(v.keys[i], v.hi);
      assert i > 0 ==> v.keys[i - 1] < v.keys[i];
      SpellsJoin(t, KeysUnder(t, c), KeysFrom(t, n, i + 1), SlotLo(v, i), v.keys[i], v.hi);
    }
  }

  /** Search order: all keys under child `i` lie between its two separators. */
  lemma SubtreeOrder(t: Tree, n: Node, i: nat, k: int)
    requires Inv(t, Settled) && n in t.nodes && !t.nodes[n].isLeaf && i < |t.nodes[n].children|
    requires k in KeysUnder(t, Kid(t, n, i))
    ensures |t.nodes[n].children| == |t.nodes[n].keys| + 1
    ensures i > 0 ==> t.nodes[n].keys[i - 1] <= k
    ensures i < |t.nodes[n].keys| ==> k < t.nodes[n].keys[i]
  {
    assert NodeOk(t, Settled, n);
    NodeSpells(t, Kid(t, n, i));
  }

  lemma {:induction false} SortedCount(s: seq<int>, keys: set<int>)
    requires Sorted(s) && forall k :: k in s <==> k in keys
    ensures |s| == |keys|
  {
    if s == [] {
      assert forall k :: k in keys ==> k in s;
      assert keys == {};
    } else {
      var last := s[|s| - 1];
      var rest := s[..|s| - 1];
      assert last in s;
      forall k
        ensures k in rest <==> k in keys - {last}
      {
        if k in keys && k != last {
          var j :| 0 <= j < |s| && s[j] == k;
          assert rest[j] == k;
        }
      }
      SortedCount(rest, keys - {last});
    }
  }

  /** Read from left to right, the tree is the sorted key set of its map. */
  lemma TreeSpellsMap(t: Tree)
    requires Inv(t, Settled) && t.root != null
    ensures t.root in t.nodes
    ensures Sorted(KeysUnder(t, t.root))
    ensures forall k :: k in KeysUnder(t, t.root) <==> k in t.contents
    ensures |KeysUnder(t, t.root)| == |t.contents|
  {
    NodeSpells(t, t.root);
    SortedCount(KeysUnder(t, t.root), t.contents.Keys);
  }

  // ---------------------------------------------------------------- the leaf chain

  /** The leaves below `n` from left to right. */
  ghost function LeavesUnder(t: Tree, n: Node): (s: seq<Node>)
    requires Inv(t, Settled) && n in t.nodes
    decreases t.nodes[n].height, |t.nodes[n].children| + 1
  {
    if t.nodes[n].isLeaf then [n] else LeavesFrom(t, n, 0)
  }

  ghost function LeavesFrom(t: Tree, n: Node, i: nat): (s: seq<Node>)
    requires Inv(t, Settled) && n in t.nodes && !t.nodes[n].isLeaf && i <= |t.nodes[n].children|
    decreases t.nodes[n].height, |t.nodes[n].children| - i
  {
    if i == |t.nodes[n].children| then []
    else LeavesUnder(t, Kid(t, n, i)) + LeavesFrom(t, n, i + 1)
  }

  /** `s` is the stretch of the chain that covers the range from `lo` to `hi`. */
  ghost predicate Stretch(t: Tree, s: seq<Node>, a: nat, lo: Option<int>, hi: Option<int>) {
    && s != [] && a + |s| <= |t.leaves|
    && s == t.leaves[a..a + |s|]
    && t.leaves[a] in t.nodes && t.nodes[t.leaves[a]].lo == lo
    && t.leaves[a + |s| - 1] in t.nodes && t.nodes[t.leaves[a + |s| - 1]].hi == hi
  }

  lemma StartsGrow(t: Tree, a: nat, b: nat)
    requires Inv(t, Settled) && a < b < |t.leaves|
    ensures t.leaves[a] in t.nodes && t.leaves[b] in t.nodes
    ensures t.nodes[t.leaves[b]].lo.Some? && Above(t.nodes[t.leaves[b]].lo.value, t.nodes[t.leaves[a]].lo)
  {
    InvViews(t, Settled);
    ChainOrdered(t, a, b);
    var v := t.nodes[t.leaves[a]];
    assert ViewOk(v) && AtLeast(v.keys[0], v.lo) && Below(v.keys[0], v.hi);
  }

  /** Only one leaf of the chain starts at a given key. */
  lemma StartUnique(t: Tree, a: nat, b: nat)
    requires Inv(t, Settled) && a < |t.leaves| && b < |t.leaves|
    requires t.leaves[a] in t.nodes && t.leaves[b] in t.nodes
    requires t.nodes[t.leaves[a]].lo == t.nodes[t.leaves[b]].lo
    ensures a == b
  {
    if a < b {
      StartsGrow(t, a, b);
    } else if b < a {
      StartsGrow(t, b, a);
    }
  }

  lemma StretchJoin(t: Tree, p: seq<Node>, a: nat, q: seq<Node>, b: nat, lo: Option<int>, mid: int, hi: Option<int>)
    requires Inv(t, Settled) && Stretch(t, p, a, lo, Some(mid)) && Stretch(t, q, b, Some(mid), hi)
    ensures Stretch(t, p + q, a, lo, hi)
  {
    var e := a + |p| - 1;
    assert LinkOk(t, e);
    StartUnique(t, e + 1, b);
    assert t.leaves[a..b + |q|] == t.leaves[a..b] + t.leaves[b..b + |q|];
  }

  lemma {:induction false} NodeStretch(t: Tree, n: Node) returns (a: nat)
    requires Inv(t, Settled) && n in t.nodes
    ensures Stretch(t, LeavesUnder(t, n), a, t.nodes[n].lo, t.nodes[n].hi)
    decreases t.nodes[n].height, |t.nodes[n].children| + 1
  {
    assert NodeOk(t, Settled, n);
    if t.nodes[n].isLeaf {
      assert n in t.leaves;
      a :| 0 <= a < |t.leaves| && t.leaves[a] == n;
      assert t.leaves[a..a + 1] == [n];
    } else {
      a := KidsStretch(t, n, 0);
    }
  }

  lemma {:induction false} KidsStretch(t: Tree, n: Node, i: nat) returns (a: nat)
    requires Inv(t, Settled) && n in t.nodes && !t.nodes[n].isLeaf && i <= |t.nodes[n].keys|
    ensures |t.nodes[n].children| == |t.nodes[n].keys| + 1
    ensures Stretch(t, LeavesFrom(t, n, i), a, SlotLo(t.nodes[n], i), t.nodes[n].hi)
    decreases t.nodes[n].height, |t.nodes[n].children| - i
  {
    assert NodeOk(t, Settled, n);
    var v := t.nodes[n];
    var c := Kid(t, n, i);
    a := NodeStretch(t, c);
    if i == |v.keys| {
      assert LeavesFrom(t, n, i + 1) == [];
      assert LeavesFrom(t, n, i) == LeavesUnder(t, c);
    } else {
      var b := KidsStretch(t, n, i + 1);
      StretchJoin(t, LeavesUnder(t, c), a, LeavesFrom(t, n, i + 1), b, SlotLo(v, i), v.keys[i], v.hi);
    }
  }

  /** The chain is exactly the tree's leaves, in tree order. */
  lemma ChainIsTraversal(t: Tree)
    requires Inv(t, Settled) && t.root != null
    ensures t.root in t.nodes && LeavesUnder(t, t.root) == t.leaves
  {
    var a := NodeStretch(t, t.root);
    var s := LeavesUnder(t, t.root);
    var e := a + |s| - 1;
    assert LinkOk(t, 0) && LinkOk(t, e);
    StartUnique(t, a, 0);
    assert t.leaves[..] == t.leaves;
  }

  /** The nodes met by following `next` from `n`, at most `fuel` of them. */
  ghost function Walk(t: Tree, n: Node?, fuel: nat): seq<Node> {
    if n == null || n !in t.nodes || fuel == 0 then []
    else [n] + Walk(t, t.nodes[n].next, fuel - 1)
  }

  lemma {:induction false} WalkFrom(t: Tree, i: nat, fuel: nat)
    requires ChainOk(t) && i < |t.leaves| && fuel >= |t.leaves| - i
    ensures Walk(t, t.leaves[i], fuel) == t.leaves[i..]
    decreases |t.leaves| - i
  {
    assert LinkOk(t, i);
    if i + 1 < |t.leaves| {
      WalkFrom(t, i + 1, fuel - 1);
    } else {
      assert Walk(t, null, fuel - 1) == [];
    }
  }

  /**
   * Following `next` from the leftmost leaf visits every leaf once, in tree order, and stops
   * there: giving it more steps than there are leaves adds nothing.
   */
  lemma NextVisitsAllLeaves(t: Tree, fuel: nat)
    requires Inv(t, Settled) && t.root != null && fuel >= |t.leaves|
    ensures t.root in t.nodes && |LeavesUnder(t, t.root)| > 0
    ensures Walk(t, LeavesUnder(t, t.root)[0], fuel) == LeavesUnder(t, t.root)
    ensures forall i, j :: 0 <= i < j < |LeavesUnder(t, t.root)| ==>
              LeavesUnder(t, t.root)[i] != LeavesUnder(t, t.root)[j]
  {
    ChainIsTraversal(t);
    var a := NodeStretch(t, t.root);
    WalkFrom(t, 0, fuel);
    InvViews(t, Settled);
    forall i, j | 0 <= i < j < |t.leaves|
      ensures t.leaves[i] != t.leaves[j]
    {
      LeavesDistinct(t, i, j);
    }
  }

  /** The keys along a stretch of leaves. */
  ghost function ChainKeys(t: Tree, s: seq<Node>): seq<int>
    requires forall n :: n in s ==> n in t.nodes
  {
    if s == [] then [] else t.nodes[s[0]].keys + ChainKeys(t, s[1..])
  }

  lemma {:induction false} ChainKeysJoin(t: Tree, p: seq<Node>, q: seq<Node>)
    requires forall n :: n in p ==> n in t.nodes
    requires forall n :: n in q ==> n in t.nodes
    ensures forall n :: n in p + q ==> n in t.nodes
    ensures ChainKeys(t, p + q) == ChainKeys(t, p) + ChainKeys(t, q)
  {
    if p == [] {
      assert p + q == q;
    } else {
      ChainKeysJoin(t, p[1..], q);
      assert (p + q)[1..] == p[1..] + q;
    }
  }

  lemma {:induction false} LeavesSpell(t: Tree, n: Node)
    requires Inv(t, Settled) && n in t.nodes
    ensures forall m :: m in LeavesUnder(t, n) ==> m in t.nodes
    ensures ChainKeys(t, LeavesUnder(t, n)) == KeysUnder(t, n)
    decreases t.nodes[n].height, |t.nodes[n].children| + 1
  {
    if !t.nodes[n].isLeaf {
      LeavesSpellFrom(t, n, 0);
    }
  }

  lemma {:induction false} LeavesSpellFrom(t: Tree, n: Node, i: nat)
    requires Inv(t, Settled) && n in t.nodes && !t.nodes[n].isLeaf && i <= |t.nodes[n].children|
    ensures forall m :: m in LeavesFrom(t, n, i) ==> m in t.nodes
    ensures ChainKeys(t, LeavesFrom(t, n, i)) == KeysFrom(t, n, i)
    decreases t.nodes[n].height, |t.nodes[n].children| - i
  {
    if i < |t.nodes[n].children| {
      var c := Kid(t, n, i);
      LeavesSpell(t, c);
      LeavesSpellFrom(t, n, i + 1);
      ChainKeysJoin(t, LeavesUnder(t, c), LeavesFrom(t, n, i + 1));
    }
  }

  /** The chain spells the sorted key set of the map. */
  lemma ChainSpellsMap(t: Tree)
    requires Inv(t, Settled) && t.root != null
    ensures forall n :: n in t.leaves ==> n in t.nodes
    ensures Sorted(ChainKeys(t, t.leaves))
    ensures forall k :: k in ChainKeys(t, t.leaves) <==> k in t.contents
  {
    ChainIsTraversal(t);
    LeavesSpell(t, t.root);
    TreeSpellsMap(t);
  }

  // ---------------------------------------------------------------- height

  ghost function Pow2(e: nat): nat {
    if e == 0 then 1 else 2 * Pow2(e - 1)
  }

  /** A node that is not a lone leaf holds at least two keys per leaf, and leaves double per level. */
  lemma {:induction false} NodeIsBushy(t: Tree, n: Node)
    requires Inv(t, Settled) && n in t.nodes
    ensures |t.nodes[n].keys| >= 2 || !t.nodes[n].isLeaf ==> |KeysUnder(t, n)| >= Pow2(t.nodes[n].height + 1)
    decreases t.nodes[n].height
  {
    assert NodeOk(t, Settled, n);
    var v := t.nodes[n];
    if v.isLeaf {
      assert Pow2(1) == 2;
    } else {
      var a, b := Kid(t, n, 0), Kid(t, n, 1);
      assert NodeOk(t, Settled, a) && NodeOk(t, Settled, b);
      NodeIsBushy(t, a);
      NodeIsBushy(t, b);
      assert KeysFrom(t, n, 1) == KeysUnder(t, b) + KeysFrom(t, n, 2);
      assert KeysUnder(t, n) == KeysUnder(t, a) + KeysFrom(t, n, 1);
    }
  }

  /** A tree with `h >= 1` internal levels holds at least 2^(h+1) keys, so a search descends at most log2(n) - 1 times. */
  lemma HeightIsLogarithmic(t: Tree)
    requires Inv(t, Settled) && t.root != null
    ensures t.root in t.nodes
    ensures t.nodes[t.root].height >= 1 ==> Pow2(t.nodes[t.root].height + 1) <= |t.contents|
    ensures Pow2(t.nodes[t.root].height) <= |t.contents|
  {
    TreeSpellsMap(t);
    NodeIsBushy(t, t.root);
    assert NodeOk(t, Settled, t.root);
  }
}
