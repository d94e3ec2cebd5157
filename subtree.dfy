/** What the two recursive in-place edits of src/file_tree/node/node.rs do to a
    whole subtree: `clear_ext` (node.rs:261-302) and `sort_ext` (node.rs:583-590),
    each as a function from the arena before to the arena after. */
module Subtrees {

  import opened Base
  import opened FieldMask
  import opened NodeDatas
  import opened Forest
  import opened Sorting

  /** Two arenas with the same links: equal parents and equal children lists. */
  predicate SameLinks(ns: seq<NodeData>, ms: seq<NodeData>)
  {
    |ns| == |ms| && forall x :: 0 <= x < |ns| ==> ns[x].parent == ms[x].parent && ns[x].children == ms[x].children
  }

  lemma SameLinksSameShape(ns: seq<NodeData>, ms: seq<NodeData>)
    requires SameLinks(ns, ms)
    ensures SameShape(ns, ms)
  {
    forall x | 0 <= x < |ns| ensures Kids(ns, x) == Kids(ms, x) {
    }
  }

  /** Node `x` is `i` or lies below one of the children `done` of `i`: the part
      of the subtree a walk over `i`'s children has finished. */
  predicate Reached(ns: seq<NodeData>, i: NodeId, done: seq<NodeId>, x: NodeId)
    requires WellLinked(ns) && i < |ns| && x < |ns|
  {
    x == i || (Under(ns, x, i) && x != i && Toward(ns, x, i) in done)
  }

  /** Walking one more child `c` of `i` reaches `c`'s subtree as well. */
  lemma ReachedStep(ns: seq<NodeData>, i: NodeId, done: seq<NodeId>, c: NodeId, x: NodeId)
    requires WellLinked(ns) && i < |ns| && x < |ns| && c in Kids(ns, i)
    ensures Reached(ns, i, done + [c], x) <==> Reached(ns, i, done, x) || Under(ns, x, c)
  {
    UnderKid(ns, x, i, c);
  }

  /** Once every child is walked, the whole subtree is reached. */
  lemma ReachedAll(ns: seq<NodeData>, i: NodeId, x: NodeId)
    requires WellLinked(ns) && i < |ns| && x < |ns|
    ensures Reached(ns, i, Kids(ns, i), x) <==> Under(ns, x, i)
  {
  }

  // ---------------------------------------------------------------------------
  // clear_ext

  /** The nodes `clear_ext(bitflag, recursive)` on `i` clears: `i` itself and,
      when recursive and the children lists survive the clearing, every node
      below it. With NODE_CHILDREN the list is dropped before the recursion
      looks at it, so only `i` is cleared. */
  predicate ClearReaches(ns: seq<NodeData>, i: NodeId, bitflag: Mask, recursive: bool, x: NodeId)
    requires WellLinked(ns) && x < |ns|
  {
    x == i || (recursive && Children !in bitflag && Under(ns, x, i))
  }

  /** The arena after `clear_ext(bitflag, recursive)` on node `i`. */
  function Cleared(ns: seq<NodeData>, i: NodeId, bitflag: Mask, recursive: bool): (r: seq<NodeData>)
    requires WellLinked(ns) && i < |ns|
    ensures |r| == |ns| && WellLinked(r)
    ensures Children !in bitflag ==> SameLinks(ns, r)
  {
    var r := seq(|ns|, x requires 0 <= x < |ns| =>
      if ClearReaches(ns, i, bitflag, recursive, x) then ClearData(ns[x], bitflag) else ns[x]);
    ClearedWellLinked(ns, i, bitflag, recursive, r);
    r
  }

  /** Clearing keeps the links consistent; without NODE_CHILDREN it keeps them
      all. */
  lemma ClearedWellLinked(ns: seq<NodeData>, i: NodeId, bitflag: Mask, recursive: bool, r: seq<NodeData>)
    requires WellLinked(ns) && i < |ns| && |r| == |ns|
    requires forall x :: 0 <= x < |ns| ==>
      r[x] == if ClearReaches(ns, i, bitflag, recursive, x) then ClearData(ns[x], bitflag) else ns[x]
    ensures WellLinked(r)
    ensures Children !in bitflag ==> SameLinks(ns, r)
  {
    if Children in bitflag {
      assert r == ns[i := ClearData(ns[i], bitflag)];
      forall q | 0 <= q < |r| ensures KidsLinked(r, q) && ParentBefore(r, q) {
        if q != i {
          assert Kids(r, q) == Kids(ns, q);
          assert KidsLinked(ns, q);
        }
        ParentEarlier(ns, q);
      }
    } else {
      assert SameLinks(ns, r);
      SameLinksSameShape(ns, r);
      WellLinkedSameShape(ns, r);
    }
  }

  /** Per node and attribute: a reached node has every selected clearable
      attribute unset and keeps the others; name, comment and hidden are never
      touched; a node that is not reached is unchanged. */
  lemma ClearedFields(ns: seq<NodeData>, i: NodeId, bitflag: Mask, recursive: bool, x: NodeId, f: Flag)
    requires WellLinked(ns) && i < |ns| && x < |ns|
    ensures var r := Cleared(ns, i, bitflag, recursive);
            && (ClearReaches(ns, i, bitflag, recursive, x) && f in CLEARABLE && f in bitflag ==> IsUnset(r[x], f))
            && (!(ClearReaches(ns, i, bitflag, recursive, x) && f in CLEARABLE && f in bitflag) ==> !Differs(r[x], ns[x], f))
            && r[x].file == ns[x].file && r[x].comment == ns[x].comment && r[x].hidden == ns[x].hidden
            && r[x].parent == ns[x].parent
            && (!ClearReaches(ns, i, bitflag, recursive, x) ==> r[x] == ns[x])
  {
    var d := ClearData(ns[x], bitflag);
    assert f in CLEARABLE && f in bitflag ==> IsUnset(d, f);
    assert !(f in CLEARABLE && f in bitflag) ==> !Differs(d, ns[x], f);
  }

  /** A recursive clear reaches exactly the subtree of `i` when children are kept. */
  lemma ClearReachesSubtree(ns: seq<NodeData>, i: NodeId, bitflag: Mask, x: NodeId)
    requires WellLinked(ns) && i < |ns| && x < |ns| && Children !in bitflag
    ensures ClearReaches(ns, i, bitflag, true, x) <==> Under(ns, x, i)
  {
  }

  /** Clearing the same fields of the same subtree twice is clearing it once. */
  lemma ClearedIdempotent(ns: seq<NodeData>, i: NodeId, bitflag: Mask, recursive: bool)
    requires WellLinked(ns) && i < |ns|
    ensures Cleared(Cleared(ns, i, bitflag, recursive), i, bitflag, recursive) == Cleared(ns, i, bitflag, recursive)
  {
    var r := Cleared(ns, i, bitflag, recursive);
    forall x | 0 <= x < |ns| ensures Cleared(r, i, bitflag, recursive)[x] == r[x] {
      ClearDataCompose(ns[x], bitflag, bitflag);
      if Children !in bitflag {
        SameLinksSameShape(ns, r);
        UnderSameShape(ns, r, x, i);
      }
    }
  }

  /** Part way through the recursion of `clear_ext` on `i`: `i` and the subtrees
      of the children `done` are cleared, every other node is as it was. */
  predicate ClearedUpTo(ns: seq<NodeData>, cur: seq<NodeData>, i: NodeId, done: seq<NodeId>, bitflag: Mask)
    requires WellLinked(ns) && i < |ns|
  {
    |cur| == |ns| && forall x :: 0 <= x < |ns| ==>
      cur[x] == if Reached(ns, i, done, x) then ClearData(ns[x], bitflag) else ns[x]
  }

  /** Clearing `i`'s own record starts the walk over its children. */
  lemma ClearStart(ns: seq<NodeData>, i: NodeId, bitflag: Mask)
    requires WellLinked(ns) && i < |ns| && Children !in bitflag
    ensures var cur := ns[i := ClearData(ns[i], bitflag)];
            ClearedUpTo(ns, cur, i, [], bitflag) && SameLinks(ns, cur) && WellLinked(cur)
  {
    var cur := ns[i := ClearData(ns[i], bitflag)];
    assert SameLinks(ns, cur);
    SameLinksSameShape(ns, cur);
    WellLinkedSameShape(ns, cur);
  }

  /** Clearing the subtree of one more child `c` extends the cleared part by
      that subtree and keeps every link. */
  lemma ClearStep(ns: seq<NodeData>, cur: seq<NodeData>, i: NodeId, done: seq<NodeId>, c: NodeId, bitflag: Mask)
    requires WellLinked(ns) && i < |ns| && c in Kids(ns, i) && Children !in bitflag
    requires ClearedUpTo(ns, cur, i, done, bitflag) && SameLinks(ns, cur) && WellLinked(cur)
    ensures c < |cur|
    ensures var nw := Cleared(cur, c, bitflag, true);
            ClearedUpTo(ns, nw, i, done + [c], bitflag) && SameLinks(ns, nw)
  {
    KidParent(ns, i, c);
    var nw := Cleared(cur, c, bitflag, true);
    SameLinksSameShape(ns, cur);
    forall x | 0 <= x < |ns|
      ensures nw[x] == if Reached(ns, i, done + [c], x) then ClearData(ns[x], bitflag) else ns[x]
    {
      UnderSameShape(ns, cur, x, c);
      ReachedStep(ns, i, done, c, x);
      ClearDataCompose(ns[x], bitflag, bitflag);
    }
  }

  /** Once every child of `i` is walked, the arena is `Cleared`. */
  lemma ClearWalked(ns: seq<NodeData>, cur: seq<NodeData>, i: NodeId, bitflag: Mask)
    requires WellLinked(ns) && i < |ns| && Children !in bitflag
    requires ClearedUpTo(ns, cur, i, Kids(ns, i), bitflag)
    ensures cur == Cleared(ns, i, bitflag, true)
  {
    var r := Cleared(ns, i, bitflag, true);
    forall x | 0 <= x < |ns| ensures cur[x] == r[x] {
      ReachedAll(ns, i, x);
    }
  }

  /** Without a recursion into children, only `i`'s own record is cleared. */
  lemma ClearLeaf(ns: seq<NodeData>, i: NodeId, bitflag: Mask, recursive: bool)
    requires WellLinked(ns) && i < |ns|
    requires !(recursive && ClearData(ns[i], bitflag).children.Some?)
    ensures ns[i := ClearData(ns[i], bitflag)] == Cleared(ns, i, bitflag, recursive)
  {
    var r := Cleared(ns, i, bitflag, recursive);
    forall x | 0 <= x < |ns| ensures ns[i := ClearData(ns[i], bitflag)][x] == r[x] {
      if recursive && Children !in bitflag {
        UnderNoKids(ns, x, i);
      }
    }
  }

  // ---------------------------------------------------------------------------
  // sort_ext

  lemma KidsInArena(ns: seq<NodeData>, x: NodeId)
    requires WellLinked(ns) && x < |ns|
    ensures InArena(ns, Kids(ns, x))
  {
    assert KidsLinked(ns, x);
  }

  /** One node after `sort_ext`: a children list is put in `cmp_ext` order. */
  function SortedSlot(ns: seq<NodeData>, x: NodeId, bitflag: Mask): (r: NodeData)
    requires WellLinked(ns) && x < |ns|
    ensures SameAttrs(ns[x], r) && r.parent == ns[x].parent && r.children.None? == ns[x].children.None?
  {
    KidsInArena(ns, x);
    if ns[x].children.None? then ns[x] else ns[x].(children := Some(SortIds(ns, Kids(ns, x), bitflag)))
  }

  /** The arena after `sort_ext(bitflag)` on node `i`: every node of its subtree
      has its children sorted. */
  function SortedTree(ns: seq<NodeData>, i: NodeId, bitflag: Mask): (r: seq<NodeData>)
    requires WellLinked(ns) && i < |ns|
    ensures |r| == |ns| && SameShape(ns, r) && WellLinked(r)
  {
    var r := seq(|ns|, x requires 0 <= x < |ns| => if Under(ns, x, i) then SortedSlot(ns, x, bitflag) else ns[x]);
    SortedTreeShape(ns, i, bitflag, r);
    r
  }

  /** Sorting only reorders children lists, so the links stay consistent. */
  lemma SortedTreeShape(ns: seq<NodeData>, i: NodeId, bitflag: Mask, r: seq<NodeData>)
    requires WellLinked(ns) && i < |ns| && |r| == |ns|
    requires forall x :: 0 <= x < |ns| ==> r[x] == if Under(ns, x, i) then SortedSlot(ns, x, bitflag) else ns[x]
    ensures SameShape(ns, r) && WellLinked(r)
  {
    forall x | 0 <= x < |ns| ensures multiset(Kids(ns, x)) == multiset(Kids(r, x)) {
      if Under(ns, x, i) && ns[x].children.Some? {
        KidsInArena(ns, x);
      }
    }
    WellLinkedSameShape(ns, r);
  }

  /** What `sort_ext` promises: below `i` every children list is a permutation
      of the old one in `cmp_ext` order, in which children that tie keep their
      old relative order; no record changes except for the order of its
      children, and nodes outside the subtree are unchanged. */
  lemma SortedTreeSorts(ns: seq<NodeData>, i: NodeId, bitflag: Mask, x: NodeId)
    requires WellLinked(ns) && i < |ns| && x < |ns| && SortField(bitflag).Some?
    ensures var r := SortedTree(ns, i, bitflag);
            && SameAttrs(ns[x], r[x])
            && multiset(Kids(r, x)) == multiset(Kids(ns, x))
            && (Under(ns, x, i) ==> Sorted(r, Kids(r, x), bitflag))
            && (Under(ns, x, i) ==> forall d :: Ties(r, Kids(r, x), bitflag, d) == Ties(ns, Kids(ns, x), bitflag, d))
            && (!Under(ns, x, i) ==> r[x] == ns[x])
  {
    var r := SortedTree(ns, i, bitflag);
    SortedAttrs(ns, i, bitflag);
    if Under(ns, x, i) && ns[x].children.Some? {
      var ks := Kids(ns, x);
      KidsInArena(ns, x);
      SortIdsSorted(ns, ks, bitflag);
      SortedOn(ns, r, SortIds(ns, ks, bitflag), bitflag);
      forall d ensures Ties(r, Kids(r, x), bitflag, d) == Ties(ns, ks, bitflag, d) {
        TiesFrame(ns, r, SortIds(ns, ks, bitflag), bitflag, d);
        SortIdsStable(ns, ks, bitflag, d);
      }
    }
  }

  /** Sorting leaves every record as it was up to links. */
  lemma SortedAttrs(ns: seq<NodeData>, i: NodeId, bitflag: Mask)
    requires WellLinked(ns) && i < |ns|
    ensures forall x :: 0 <= x < |ns| ==> SameAttrs(ns[x], SortedTree(ns, i, bitflag)[x])
  {
  }

  /** Sortedness depends only on the records of the listed nodes. */
  lemma SortedOn(ns: seq<NodeData>, ms: seq<NodeData>, s: seq<NodeId>, bitflag: Mask)
    requires InArena(ns, s) && |ns| == |ms| && Sorted(ns, s, bitflag)
    requires forall x :: 0 <= x < |ns| ==> SameAttrs(ns[x], ms[x])
    ensures Sorted(ms, s, bitflag)
  {
    forall k | 0 <= k < |s| - 1 ensures CmpExt(ms[s[k]], ms[s[k + 1]], bitflag) != Greater {
      CmpExtIgnoresLinks(ns[s[k]], ns[s[k + 1]], ms[s[k]], ms[s[k + 1]], bitflag);
    }
  }

  /** Re-sorting a node that is already sorted, in an arena whose records agree
      up to links, changes nothing (stability and idempotence of the sort). */
  lemma SortedSlotAgain(ns: seq<NodeData>, ms: seq<NodeData>, x: NodeId, bitflag: Mask)
    requires WellLinked(ns) && WellLinked(ms) && x < |ns| && |ms| == |ns| && SortField(bitflag).Some?
    requires forall y :: 0 <= y < |ns| ==> SameAttrs(ns[y], ms[y])
    requires ms[x] == SortedSlot(ns, x, bitflag)
    ensures SortedSlot(ms, x, bitflag) == ms[x]
  {
    if ns[x].children.Some? {
      var ks := Kids(ns, x);
      KidsInArena(ns, x);
      KidsInArena(ms, x);
      assert Kids(ms, x) == SortIds(ns, ks, bitflag);
      SortIdsFrame(ns, ms, SortIds(ns, ks, bitflag), bitflag);
      SortIdsIdempotent(ns, ks, bitflag);
    }
  }

  /** The sorted children of a node depend only on the records, not on the links. */
  lemma SortedSlotFrame(ns: seq<NodeData>, ms: seq<NodeData>, x: NodeId, bitflag: Mask)
    requires WellLinked(ns) && WellLinked(ms) && x < |ns| && |ms| == |ns| && ms[x] == ns[x]
    requires forall y :: 0 <= y < |ns| ==> SameAttrs(ns[y], ms[y])
    ensures SortedSlot(ms, x, bitflag) == SortedSlot(ns, x, bitflag)
  {
    if ns[x].children.Some? {
      KidsInArena(ns, x);
      KidsInArena(ms, x);
      SortIdsFrame(ns, ms, Kids(ns, x), bitflag);
    }
  }

  /** Part way through the recursion of `sort_ext` on `i`: `i` and the subtrees
      of the children `done` are sorted, every other node is as it was. */
  predicate SortedUpTo(ns: seq<NodeData>, cur: seq<NodeData>, i: NodeId, done: seq<NodeId>, bitflag: Mask)
    requires WellLinked(ns) && i < |ns|
  {
    && |cur| == |ns| && SameShape(ns, cur) && WellLinked(cur)
    && (forall x :: 0 <= x < |ns| ==> SameAttrs(ns[x], cur[x]))
    && forall x :: 0 <= x < |ns| ==>
         cur[x] == if Reached(ns, i, done, x) then SortedSlot(ns, x, bitflag) else ns[x]
  }

  /** Sorting `i`'s own children list starts the walk over its children. */
  lemma SortStart(ns: seq<NodeData>, i: NodeId, bitflag: Mask)
    requires WellLinked(ns) && i < |ns|
    ensures SortedUpTo(ns, ns[i := SortedSlot(ns, i, bitflag)], i, [], bitflag)
  {
    var cur := ns[i := SortedSlot(ns, i, bitflag)];
    if ns[i].children.Some? {
      KidsInArena(ns, i);
    }
    forall x | 0 <= x < |ns|
      ensures cur[x].parent == ns[x].parent && cur[x].children.None? == ns[x].children.None?
      ensures multiset(Kids(ns, x)) == multiset(Kids(cur, x))
      ensures SameAttrs(ns[x], cur[x])
      ensures cur[x] == if Reached(ns, i, [], x) then SortedSlot(ns, x, bitflag) else ns[x]
    {
    }
    assert SameShape(ns, cur);
    WellLinkedSameShape(ns, cur);
    assert SortedUpTo(ns, cur, i, [], bitflag);
  }

  /** Sorting the subtree of one more child `c` extends the sorted part by that
      subtree. A node sorted before is left as it is; the order of a node not
      yet sorted does not depend on the links changed so far. */
  lemma SortStep(ns: seq<NodeData>, cur: seq<NodeData>, i: NodeId, done: seq<NodeId>, c: NodeId, bitflag: Mask)
    requires WellLinked(ns) && i < |ns| && c in Kids(ns, i) && SortField(bitflag).Some?
    requires SortedUpTo(ns, cur, i, done, bitflag)
    ensures i < c < |cur|
    ensures SortedUpTo(ns, SortedTree(cur, c, bitflag), i, done + [c], bitflag)
  {
    KidParent(ns, i, c);
    var nw := SortedTree(cur, c, bitflag);
    SortedAttrs(cur, c, bitflag);
    forall x | 0 <= x < |ns|
      ensures nw[x] == if Reached(ns, i, done + [c], x) then SortedSlot(ns, x, bitflag) else ns[x]
    {
      UnderSameShape(ns, cur, x, c);
      ReachedStep(ns, i, done, c, x);
      if Under(ns, x, c) {
        if Reached(ns, i, done, x) {
          SortedSlotAgain(ns, cur, x, bitflag);
        } else {
          SortedSlotFrame(ns, cur, x, bitflag);
        }
      }
    }
    SameShapeTrans(ns, cur, nw);
  }

  /** `SortStep` for the `k`-th child of the list being walked. */
  lemma SortStepAt(ns: seq<NodeData>, cur: seq<NodeData>, i: NodeId, ks: seq<NodeId>, k: nat, bitflag: Mask)
    requires WellLinked(ns) && i < |ns| && k < |ks| && ks[k] in Kids(ns, i) && SortField(bitflag).Some?
    requires SortedUpTo(ns, cur, i, ks[..k], bitflag)
    ensures i < ks[k] < |cur|
    ensures SortedUpTo(ns, SortedTree(cur, ks[k], bitflag), i, ks[..k + 1], bitflag)
  {
    TakeOneMore(ks, k);
    SortStep(ns, cur, i, ks[..k], ks[k], bitflag);
  }

  /** Once every child of `i` is walked, in any order, the arena is `SortedTree`. */
  lemma SortWalked(ns: seq<NodeData>, cur: seq<NodeData>, i: NodeId, ks: seq<NodeId>, bitflag: Mask)
    requires WellLinked(ns) && i < |ns| && multiset(ks) == multiset(Kids(ns, i))
    requires SortedUpTo(ns, cur, i, ks, bitflag)
    ensures cur == SortedTree(ns, i, bitflag)
  {
    var r := SortedTree(ns, i, bitflag);
    forall x | 0 <= x < |ns| ensures cur[x] == r[x] {
      ReachedAll(ns, i, x);
      if x != i && Under(ns, x, i) {
        assert Toward(ns, x, i) in multiset(Kids(ns, i));
      }
      if Reached(ns, i, ks, x) && x != i {
        assert Toward(ns, x, i) in multiset(ks);
      }
    }
  }

  /** A node without a children list is left as it is. */
  lemma SortLeaf(ns: seq<NodeData>, i: NodeId, bitflag: Mask)
    requires WellLinked(ns) && i < |ns| && ns[i].children.None?
    ensures SortedTree(ns, i, bitflag) == ns
  {
    var r := SortedTree(ns, i, bitflag);
    forall x | 0 <= x < |ns| ensures r[x] == ns[x] {
      UnderNoKids(ns, x, i);
    }
  }

  /** Sorting twice is sorting once. */
  lemma SortedTreeIdempotent(ns: seq<NodeData>, i: NodeId, bitflag: Mask)
    requires WellLinked(ns) && i < |ns| && SortField(bitflag).Some?
    ensures SortedTree(SortedTree(ns, i, bitflag), i, bitflag) == SortedTree(ns, i, bitflag)
  {
    SortedAttrs(ns, i, bitflag);
    var r := SortedTree(ns, i, bitflag);
    forall x | 0 <= x < |ns| ensures SortedTree(r, i, bitflag)[x] == r[x] {
      UnderSameShape(ns, r, x, i);
      if Under(ns, x, i) {
        SortedSlotAgain(ns, r, x, bitflag);
      }
    }
  }
}
