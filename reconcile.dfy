/** How `add_path_ext` (src/file_tree/node/node.rs:116-150) and
    `fill_compare_status` (node.rs:171-225) change the arena: the loop
    invariants of the model's methods and the steps that keep them. */
module Reconcile {

  import opened Base
  import opened FieldMask
  import opened NodeDatas
  import opened Forest
  import opened TreeEntries
  import opened Views
  import opened Scan
  import opened Subtrees

  /** `ns` is `n0` with new nodes `ids` appended, in order, to the children of
      `i`, and with more slots after the old ones; every other old slot, and
      every attribute of `i` but its children list, is unchanged. A node with no
      children list keeps none when nothing is added. */
  predicate Added(n0: seq<NodeData>, ns: seq<NodeData>, i: NodeId, ids: seq<NodeId>)
  {
    && i < |n0| <= |ns| && WellLinked(ns)
    && (forall x :: 0 <= x < |n0| && x != i ==> ns[x] == n0[x])
    && ns[i].(children := n0[i].children) == n0[i]
    && (ns[i].children.None? <==> n0[i].children.None? && ids == [])
    && Kids(ns, i) == Kids(n0, i) + ids
    && (forall j :: 0 <= j < |ids| ==> |n0| <= ids[j] < |ns|)
  }

  /** ... and the nodes added have, one by one, the entries `es`. */
  predicate AddedAs(n0: seq<NodeData>, ns: seq<NodeData>, i: NodeId, ids: seq<NodeId>, es: seq<TreeEntry>)
  {
    && Added(n0, ns, i, ids) && |ids| == |es|
    && forall j :: 0 <= j < |ids| ==> ToTreeEntry(ns, ids[j]) == es[j]
  }

  lemma AddStart(ns: seq<NodeData>, i: NodeId)
    requires WellLinked(ns) && i < |ns|
    ensures AddedAs(ns, ns, i, [], [])
  {
    assert Kids(ns, i) + [] == Kids(ns, i);
  }

  /** Growing the arena past its end keeps what was added and its entries. */
  lemma AddedExtended(n0: seq<NodeData>, before: seq<NodeData>, ms: seq<NodeData>, i: NodeId,
                      ids: seq<NodeId>, es: seq<TreeEntry>)
    requires AddedAs(n0, before, i, ids, es)
    requires WellLinked(ms) && |before| <= |ms| && ms[..|before|] == before
    ensures AddedAs(n0, ms, i, ids, es)
  {
    forall x | 0 <= x < |before| ensures ms[x] == before[x] {
      assert ms[x] == ms[..|before|][x];
    }
    assert Kids(ms, i) == Kids(before, i);
    forall j | 0 <= j < |ids| ensures ToTreeEntry(ms, ids[j]) == es[j] {
      assert AgreeFrom(before, ms, ids[j]);
      ToTreeEntryFrame(before, ms, ids[j]);
    }
  }

  /** Slots below `c`'s own appended nodes are those of `before`: what the walk
      into `c` adds lies past the end of `before`. */
  lemma AddedBelow(before: seq<NodeData>, mid: seq<NodeData>, c: NodeId, cids: seq<NodeId>, d: NodeData)
    requires c == |before| && Added(before + [d], mid, c, cids)
    ensures |before| < |mid| && mid[..|before|] == before
  {
    var m0 := before + [d];
    assert forall x :: 0 <= x < |before| ==> mid[x] == m0[x] == before[x];
  }

  /** Two rounds of adding to `i` are one. */
  lemma AddedCompose(n0: seq<NodeData>, n1: seq<NodeData>, n2: seq<NodeData>, i: NodeId,
                     ids1: seq<NodeId>, es1: seq<TreeEntry>, ids2: seq<NodeId>, es2: seq<TreeEntry>)
    requires AddedAs(n0, n1, i, ids1, es1) && AddedAs(n1, n2, i, ids2, es2)
    ensures AddedAs(n0, n2, i, ids1 + ids2, es1 + es2)
  {
    var ids := ids1 + ids2;
    var es := es1 + es2;
    forall j | 0 <= j < |ids| ensures |n0| <= ids[j] < |n2| && ToTreeEntry(n2, ids[j]) == es[j] {
      if j < |ids1| {
        assert ids[j] == ids1[j] && es[j] == es1[j];
        assert AgreeFrom(n1, n2, ids1[j]);
        ToTreeEntryFrame(n1, n2, ids1[j]);
      } else {
        assert ids[j] == ids2[j - |ids1|] && es[j] == es2[j - |ids1|];
      }
    }
    assert Kids(n2, i) == Kids(n0, i) + ids;
  }

  /** A round that adds nothing keeps what was added. */
  lemma AddedNothing(n0: seq<NodeData>, n1: seq<NodeData>, n2: seq<NodeData>, i: NodeId,
                     ids: seq<NodeId>, es: seq<TreeEntry>)
    requires AddedAs(n0, n1, i, ids, es) && AddedAs(n1, n2, i, [], [])
    ensures Added(n0, n2, i, ids)
  {
    AddedCompose(n0, n1, n2, i, ids, es, [], []);
    assert ids + [] == ids;
  }

  /** A node to which nodes were added is still in no children list. */
  lemma AddedDetached(n0: seq<NodeData>, ns: seq<NodeData>, c: NodeId, ids: seq<NodeId>)
    requires Added(n0, ns, c, ids) && WellLinked(n0) && Detached(n0, c)
    ensures Detached(ns, c)
  {
    forall q | 0 <= q < |ns| ensures c !in Kids(ns, q) {
      if q < |n0| && q != c {
        assert Kids(ns, q) == Kids(n0, q);
      } else if c in Kids(ns, q) {
        KidParent(ns, q, c);
      }
    }
  }

  /** The node built for entry `e` (appended as `c`, then filled by the walk
      into it when it is a directory) has the entry `ScanEntry(e)`. */
  lemma ScannedNode(before: seq<NodeData>, mid: seq<NodeData>, c: NodeId, e: DirEntry,
                    ignore: Option<seq<string>>, bitflag: Mask, cids: seq<NodeId>)
    requires c == |before| && WellLinked(mid)
    requires e.isDir ==> Readable(e.contents, ignore)
    requires var m0 := before + [FromDirEntryExt(e, bitflag)];
             if e.isDir then AddedAs(m0, mid, c, cids, ScanList(e.contents, ignore, bitflag))
             else mid == m0
    ensures c < |mid| && ToTreeEntry(mid, c) == ScanEntry(e, ignore, bitflag)
  {
    var d := FromDirEntryExt(e, bitflag);
    var m0 := before + [d];
    assert m0[c] == d;
    var kids := if e.isDir then ScanList(e.contents, ignore, bitflag) else [];
    if e.isDir {
      assert mid[c].(children := None) == d;
      if kids != [] {
        ChildEntriesAre(mid, c, kids);
      }
    }
    assert BodyOf(mid[c], if kids == [] then None else Some(EntryList(kids)))
        == BodyOf(d, if kids == [] then None else Some(EntryList(kids)));
  }

  /** Attaching the new node `c` to `i`, to which nothing was added yet, adds
      it with its entry. */
  lemma AddStep(n0: seq<NodeData>, mid: seq<NodeData>, i: NodeId, c: NodeId, ec: TreeEntry)
    requires AddedAs(n0, mid, i, [], []) && |n0| <= c < |mid| && i < c && Detached(mid, c)
    requires ToTreeEntry(mid, c) == ec
    ensures AddedAs(n0, Attach(mid, i, c), i, [c], [ec])
  {
    AttachWellLinked(mid, i, c);
    AttachEntry(mid, i, c);
    var after := Attach(mid, i, c);
    assert Kids(after, i) == Kids(n0, i) + [c];
  }

  /** Attaching `c` changes only its parent link, which its entry ignores. */
  lemma AttachEntry(mid: seq<NodeData>, i: NodeId, c: NodeId)
    requires i < c < |mid| && WellLinked(mid) && WellLinked(Attach(mid, i, c))
    ensures ToTreeEntry(Attach(mid, i, c), c) == ToTreeEntry(mid, c)
  {
    var after := Attach(mid, i, c);
    assert AgreeFrom(mid, after, c);
    ToTreeEntryFrame(mid, after, c);
  }

  /** The node `c` built for `e` (filled by the walk into it when `e` is a
      directory), attached to `i`, is what adding `e` to `i` adds. */
  lemma EntryAdded(before: seq<NodeData>, mid: seq<NodeData>, i: NodeId, c: NodeId, e: DirEntry,
                   ignore: Option<seq<string>>, bitflag: Mask, cids: seq<NodeId>)
    requires var m0 := before + [FromDirEntryExt(e, bitflag)];
             && i < c == |before| && WellLinked(before) && WellLinked(m0) && Detached(m0, c)
             && (e.isDir ==> Readable(e.contents, ignore) && AddedAs(m0, mid, c, cids, ScanList(e.contents, ignore, bitflag)))
             && (!e.isDir ==> mid == m0)
    ensures i < c < |mid| && Detached(mid, c)
    ensures AddedAs(before, Attach(mid, i, c), i, [c], [ScanEntry(e, ignore, bitflag)])
  {
    var d := FromDirEntryExt(e, bitflag);
    AddStart(before, i);
    if e.isDir {
      AddedBelow(before, mid, c, cids, d);
      AddedDetached(before + [d], mid, c, cids);
    }
    AddedExtended(before, before, mid, i, [], []);
    ScannedNode(before, mid, c, e, ignore, bitflag, cids);
    AddStep(before, mid, i, c, ScanEntry(e, ignore, bitflag));
  }

  /** When the walk into the node `c` built for `e` fails, nothing was added
      to `i`. */
  lemma EntryFailed(before: seq<NodeData>, mid: seq<NodeData>, i: NodeId, c: NodeId, d: NodeData, cids: seq<NodeId>)
    requires i < c == |before| && WellLinked(before) && Added(before + [d], mid, c, cids)
    ensures AddedAs(before, mid, i, [], [])
  {
    AddedBelow(before, mid, c, cids, d);
    AddStart(before, i);
    AddedExtended(before, before, mid, i, [], []);
  }

  /** Item `k` of the listing, read without error, adds its entry (none when
      ignored) after those of the items before it. */
  lemma ItemStep(n0: seq<NodeData>, n1: seq<NodeData>, n2: seq<NodeData>, i: NodeId, ids: seq<NodeId>,
                 l: Listing, k: nat, ignore: Option<seq<string>>, bitflag: Mask, cs: seq<NodeId>)
    requires ReadableUpTo(l, k, ignore) && k < |l.items| && l.items[k].Item?
    requires AddedAs(n0, n1, i, ids, ScanItems(l, k, ignore, bitflag))
    requires var e := l.items[k].entry;
             && (IsIgnore(e.name, ignore) ==> n2 == n1 && cs == [])
             && (!IsIgnore(e.name, ignore) ==>
                   (!e.isDir || Readable(e.contents, ignore))
                   && AddedAs(n1, n2, i, cs, [ScanEntry(e, ignore, bitflag)]))
    ensures ReadableUpTo(l, k + 1, ignore)
    ensures AddedAs(n0, n2, i, ids + cs, ScanItems(l, k + 1, ignore, bitflag))
  {
    var e := l.items[k].entry;
    assert ItemReadable(l.items[k], ignore);
    if IsIgnore(e.name, ignore) {
      assert ids + cs == ids;
    } else {
      AddedCompose(n0, n1, n2, i, ids, ScanItems(l, k, ignore, bitflag), cs, [ScanEntry(e, ignore, bitflag)]);
    }
  }

  // ---------------------------------------------------------------------------
  // fill_compare_status (src/file_tree/node/node.rs:171-225)

  /** A status `fill_compare_status` writes: NODE_UNTRACKED on a node it adds,
      or the differences of a listed entry from the node of that name, which
      are selected key fields other than the name. */
  predicate StatusMark(s: Option<Mask>, bitflag: Mask)
  {
    s == Some(NODE_UNTRACKED) || (s.Some? && Name !in s.value && s.value <= bitflag * KEY_FIELDS)
  }

  /** Old node `x` keeps every attribute but its status, which is unchanged or
      written, and its children list, to which only new nodes are appended. */
  predicate Kept(n0: seq<NodeData>, ns: seq<NodeData>, x: NodeId, bitflag: Mask)
    requires x < |n0| <= |ns|
  {
    && ns[x].(status := n0[x].status, children := n0[x].children) == n0[x]
    && (ns[x].status == n0[x].status || StatusMark(ns[x].status, bitflag))
    && (n0[x].children.Some? ==> ns[x].children.Some?)
    && |Kids(n0, x)| <= |Kids(ns, x)| && Kids(ns, x)[..|Kids(n0, x)|] == Kids(n0, x)
    && forall j :: |Kids(n0, x)| <= j < |Kids(ns, x)| ==> |n0| <= Kids(ns, x)[j]
  }

  /** `ns` is `n0` after statuses were written and nodes were added. */
  predicate Compared(n0: seq<NodeData>, ns: seq<NodeData>, bitflag: Mask)
  {
    |n0| <= |ns| && WellLinked(ns) && forall x :: 0 <= x < |n0| ==> Kept(n0, ns, x, bitflag)
  }

  /** The nodes before `i` are unchanged, and so is the status of `i`: the walk
      at `i` changes only what lies after it. */
  predicate Untouched(n0: seq<NodeData>, ns: seq<NodeData>, i: NodeId)
  {
    && i < |n0| <= |ns|
    && (forall x :: 0 <= x < i ==> ns[x] == n0[x])
    && ns[i].status == n0[i].status
  }

  /** Each of the first `n` entries of the listing that is not ignored names a
      child of `i` with a written status. */
  predicate Covered(ns: seq<NodeData>, i: NodeId, l: Listing, n: nat, ignore: Option<seq<string>>, bitflag: Mask)
    requires WellLinked(ns) && i < |ns| && l.Listing? && n <= |l.items|
  {
    forall k :: 0 <= k < n && l.items[k].Item? && !IsIgnore(l.items[k].entry.name, ignore) ==>
      && ChildNamed(ns, i, l.items[k].entry.name).Some?
      && StatusMark(ns[ChildNamed(ns, i, l.items[k].entry.name).value].status, bitflag)
  }

  lemma CompareStart(ns: seq<NodeData>, bitflag: Mask)
    requires WellLinked(ns)
    ensures Compared(ns, ns, bitflag)
  {
    forall x | 0 <= x < |ns| ensures Kept(ns, ns, x, bitflag) {
      assert Kids(ns, x)[..|Kids(ns, x)|] == Kids(ns, x);
    }
  }

  /** Two rounds of comparing are one. */
  lemma CompareCompose(n0: seq<NodeData>, n1: seq<NodeData>, n2: seq<NodeData>, bitflag: Mask)
    requires Compared(n0, n1, bitflag) && Compared(n1, n2, bitflag)
    ensures Compared(n0, n2, bitflag)
  {
    forall x | 0 <= x < |n0| ensures Kept(n0, n2, x, bitflag) {
      assert Kept(n0, n1, x, bitflag) && Kept(n1, n2, x, bitflag);
      var k0, k1, k2 := Kids(n0, x), Kids(n1, x), Kids(n2, x);
      assert k2[..|k0|] == k1[..|k1|][..|k0|];
      forall j | |k0| <= j < |k2| ensures |n0| <= k2[j] {
        if j < |k1| {
          assert k2[j] == k2[..|k1|][j];
        }
      }
    }
  }

  /** Writing a status mark is a round of comparing. */
  lemma StatusWritten(ns: seq<NodeData>, c: NodeId, s: Option<Mask>, bitflag: Mask)
    requires WellLinked(ns) && c < |ns| && StatusMark(s, bitflag)
    ensures Compared(ns, ns[c := ns[c].(status := s)], bitflag)
  {
    StatusKeepsLinks(ns, c, s);
    CompareStart(ns, bitflag);
  }

  /** Attaching a new detached node to an old one is a round of comparing. */
  lemma AttachCompared(n0: seq<NodeData>, ns: seq<NodeData>, p: NodeId, c: NodeId, bitflag: Mask)
    requires Compared(n0, ns, bitflag) && p < |n0| <= c < |ns| && Detached(ns, c)
    ensures Compared(n0, Attach(ns, p, c), bitflag)
  {
    AttachWellLinked(ns, p, c);
    var r := Attach(ns, p, c);
    forall x | 0 <= x < |n0| ensures Kept(n0, r, x, bitflag) {
      assert Kept(n0, ns, x, bitflag);
      if x == p {
        assert Kids(r, p)[..|Kids(ns, p)|] == Kids(ns, p);
      } else {
        assert r[x] == ns[x];
      }
    }
  }

  /** A node appended before the round counts as new: dropping it from the
      old arena keeps the round one of comparing. */
  lemma DroppedLast(n0: seq<NodeData>, d: NodeData, ns: seq<NodeData>, bitflag: Mask)
    requires Compared(n0 + [d], ns, bitflag)
    ensures Compared(n0, ns, bitflag)
  {
    var m0 := n0 + [d];
    forall x | 0 <= x < |n0| ensures Kept(n0, ns, x, bitflag) {
      assert Kept(m0, ns, x, bitflag);
      assert m0[x] == n0[x] && Kids(m0, x) == Kids(n0, x);
    }
  }

  /** A detached old node stays detached: children lists only gain new nodes. */
  lemma ComparedDetached(n0: seq<NodeData>, ns: seq<NodeData>, c: NodeId, bitflag: Mask)
    requires Compared(n0, ns, bitflag) && c < |n0| && Detached(n0, c)
    ensures Detached(ns, c)
  {
    forall q | 0 <= q < |ns| ensures c !in Kids(ns, q) {
      forall j | 0 <= j < |Kids(ns, q)| ensures Kids(ns, q)[j] != c {
        if q < |n0| {
          assert Kept(n0, ns, q, bitflag);
          if j < |Kids(n0, q)| {
            assert Kids(ns, q)[j] == Kids(ns, q)[..|Kids(n0, q)|][j];
          }
        } else {
          KidAt(ns, q, j);
        }
      }
    }
  }

  /** The first child of an old node with a given name stays its first child
      of that name. */
  lemma ChildNamedKept(n0: seq<NodeData>, ns: seq<NodeData>, i: NodeId, name: string, bitflag: Mask)
    requires Compared(n0, ns, bitflag) && WellLinked(n0) && i < |n0| && ChildNamed(n0, i, name).Some?
    ensures ChildNamed(ns, i, name) == ChildNamed(n0, i, name)
  {
    assert Kept(n0, ns, i, bitflag);
    KidsInArena(n0, i);
    KidsInArena(ns, i);
    var k0, ks := Kids(n0, i), Kids(ns, i);
    var v := Position(n0, k0, name).value;
    forall k | 0 <= k <= v ensures ks[k] == k0[k] && ns[ks[k]].file == n0[k0[k]].file {
      assert ks[k] == ks[..|k0|][k];
      assert Kept(n0, ns, k0[k], bitflag);
    }
    var w := Position(ns, ks, name);
    assert w == Some(v);
  }

  /** Comparing keeps every covered entry covered. */
  lemma CoveredKept(n1: seq<NodeData>, n2: seq<NodeData>, i: NodeId, l: Listing, n: nat,
                    ignore: Option<seq<string>>, bitflag: Mask)
    requires Compared(n1, n2, bitflag) && WellLinked(n1) && i < |n1| && l.Listing? && n <= |l.items|
    requires Covered(n1, i, l, n, ignore, bitflag)
    ensures Covered(n2, i, l, n, ignore, bitflag)
  {
    forall k | 0 <= k < n && l.items[k].Item? && !IsIgnore(l.items[k].entry.name, ignore)
      ensures ChildNamed(n2, i, l.items[k].entry.name).Some?
           && StatusMark(n2[ChildNamed(n2, i, l.items[k].entry.name).value].status, bitflag)
    {
      var name := l.items[k].entry.name;
      ChildNamedKept(n1, n2, i, name, bitflag);
      assert Kept(n1, n2, ChildNamed(n1, i, name).value, bitflag);
    }
  }

  /** Item `k`, read without error and, unless ignored, given a child with a
      written status, extends what is covered. */
  lemma CoveredStep(ns: seq<NodeData>, i: NodeId, l: Listing, k: nat, ignore: Option<seq<string>>, bitflag: Mask)
    requires WellLinked(ns) && i < |ns| && ReadableUpTo(l, k, ignore) && k < |l.items| && l.items[k].Item?
    requires Covered(ns, i, l, k, ignore, bitflag)
    requires var e := l.items[k].entry;
             !IsIgnore(e.name, ignore) ==>
               && (!e.isDir || Readable(e.contents, ignore))
               && ChildNamed(ns, i, e.name).Some? && StatusMark(ns[ChildNamed(ns, i, e.name).value].status, bitflag)
    ensures ReadableUpTo(l, k + 1, ignore) && Covered(ns, i, l, k + 1, ignore, bitflag)
  {
    assert ItemReadable(l.items[k], ignore);
  }

  /** A node appended as the last child of `i`, when no old child had its
      name, is the child of that name. */
  lemma NewChildNamed(n0: seq<NodeData>, ns: seq<NodeData>, i: NodeId, c: NodeId, name: string, bitflag: Mask)
    requires Compared(n0, ns, bitflag) && WellLinked(n0) && i < |n0| <= c < |ns|
    requires ChildNamed(n0, i, name).None? && ns[c].file == name
    requires Kids(ns, i) == Kids(n0, i) + [c]
    ensures ChildNamed(ns, i, name) == Some(c)
  {
    assert Kept(n0, ns, i, bitflag);
    KidsInArena(n0, i);
    KidsInArena(ns, i);
    var k0, ks := Kids(n0, i), Kids(ns, i);
    forall k | 0 <= k < |k0| ensures ks[k] == k0[k] && ns[ks[k]].file != name {
      assert Kept(n0, ns, k0[k], bitflag);
    }
    assert ks[|k0|] == c && ns[i].children.Some?;
    var w := Position(ns, ks, name);
    assert w == Some(|k0|);
  }

  /** The matched child `c` of `i`, after the walk into it, takes as status
      its differences from the entry's record `d`. */
  lemma MatchedMarked(before: seq<NodeData>, mid: seq<NodeData>, i: NodeId, c: NodeId, name: string,
                      d: NodeData, bitflag: Mask)
    requires WellLinked(before) && i < |before| && ChildNamed(before, i, name) == Some(c) && d.file == name
    requires Compared(before, mid, bitflag) && Untouched(before, mid, c)
    ensures var marked := mid[c := mid[c].(status := Some(CompareExt(d, mid[c], bitflag)))];
            && Compared(before, marked, bitflag) && Untouched(before, marked, i)
            && ChildNamed(marked, i, name) == Some(c)
            && marked[c].status == Some(CompareExt(d, before[c], bitflag))
            && StatusMark(Some(CompareExt(d, mid[c], bitflag)), bitflag)
  {
    var s := Some(CompareExt(d, mid[c], bitflag));
    var marked := mid[c := mid[c].(status := s)];
    ChildNamedKept(before, mid, i, name, bitflag);
    assert Kept(before, mid, c, bitflag);
    CompareExtIgnoresChildren(d, before[c], mid[c], bitflag);
    StatusWritten(mid, c, s, bitflag);
    CompareCompose(before, mid, marked, bitflag);
    ChildNamedKept(before, marked, i, name, bitflag);
  }

  /** The new node `c` built from `d`, after the walk into it, marked
      NODE_UNTRACKED and attached to `i`, is the child of its name. */
  lemma NewMarked(before: seq<NodeData>, d: NodeData, mid: seq<NodeData>, i: NodeId, c: NodeId, name: string,
                  bitflag: Mask)
    requires WellLinked(before) && i < |before| == c && ChildNamed(before, i, name).None?
    requires d.file == name && d.children.None? && d.parent.None? && d.status.None?
    requires WellLinked(before + [d]) && Detached(before + [d], c)
    requires Compared(before + [d], mid, bitflag) && Untouched(before + [d], mid, c)
    ensures var marked := mid[c := mid[c].(status := Some(NODE_UNTRACKED))];
            && WellLinked(marked) && Detached(marked, c) && i < c < |marked|
            && var r := Attach(marked, i, c);
               && Compared(before, r, bitflag) && Untouched(before, r, i)
               && ChildNamed(r, i, name) == Some(c)
               && r[c].status == Some(NODE_UNTRACKED)
               && r[c].(status := None, children := None, parent := None) == d
  {
    var m0 := before + [d];
    var marked := mid[c := mid[c].(status := Some(NODE_UNTRACKED))];
    ComparedDetached(m0, mid, c, bitflag);
    assert Kept(m0, mid, c, bitflag);
    StatusWritten(mid, c, Some(NODE_UNTRACKED), bitflag);
    StatusKeepsLinks(mid, c, Some(NODE_UNTRACKED));
    CompareCompose(m0, mid, marked, bitflag);
    DroppedLast(before, d, marked, bitflag);
    AttachCompared(before, marked, i, c, bitflag);
    var r := Attach(marked, i, c);
    assert m0[i] == before[i] && mid[i] == m0[i] && marked[i] == mid[i];
    assert Kids(r, i) == Kids(marked, i) + [c];
    NewChildNamed(before, r, i, c, name, bitflag);
  }

  // ---------------------------------------------------------------------------
  // Where fill_compare_status writes

  /** Node `x` lies strictly below `i`, through a child of `i` whose name is
      in `names`. */
  predicate Below(ns: seq<NodeData>, x: NodeId, i: NodeId, names: set<string>)
    requires WellLinked(ns) && x < |ns| && i < |ns|
  {
    Under(ns, x, i) && x != i && ns[Toward(ns, x, i)].file in names
  }

  /** Every old node but `i` and the subtrees of its children named in `names`
      is unchanged. */
  predicate Framed(n0: seq<NodeData>, ns: seq<NodeData>, i: NodeId, names: set<string>)
    requires WellLinked(n0) && i < |n0| <= |ns|
  {
    forall x :: 0 <= x < |n0| && x != i && !Below(n0, x, i, names) ==> ns[x] == n0[x]
  }

  /** Every node from `lo` on lies below a child of `i` named in `names`. */
  predicate Placed(ns: seq<NodeData>, lo: nat, i: NodeId, names: set<string>)
    requires WellLinked(ns) && i < |ns|
  {
    forall x :: lo <= x < |ns| ==> Below(ns, x, i, names)
  }

  /** Every node from `lo` on is marked NODE_UNTRACKED. */
  predicate Untracked(ns: seq<NodeData>, lo: nat)
  {
    forall x :: lo <= x < |ns| ==> ns[x].status == Some(NODE_UNTRACKED)
  }

  /** Entry `e` names a child of `i`: the old child of its name, if there was
      one, whose status becomes its differences from the entry's record;
      otherwise a new node built from the entry and marked NODE_UNTRACKED. */
  predicate EntryCovered(n0: seq<NodeData>, ns: seq<NodeData>, i: NodeId, e: DirEntry, bitflag: Mask)
    requires WellLinked(n0) && WellLinked(ns) && i < |n0| <= |ns|
  {
    && ChildNamed(ns, i, e.name).Some?
    && match ChildNamed(n0, i, e.name)
       case Some(c) =>
         && ChildNamed(ns, i, e.name) == Some(c)
         && ns[c].status == Some(CompareExt(FromDirEntryExt(e, bitflag), n0[c], bitflag))
       case None =>
         var c := ChildNamed(ns, i, e.name).value;
         && |n0| <= c
         && ns[c].status == Some(NODE_UNTRACKED)
         && ns[c].(status := None, children := None, parent := None) == FromDirEntryExt(e, bitflag)
  }

  /** Each of the first `n` entries that is not ignored is covered. */
  predicate CoveredExact(n0: seq<NodeData>, ns: seq<NodeData>, i: NodeId, l: Listing, n: nat,
                         ignore: Option<seq<string>>, bitflag: Mask)
    requires WellLinked(n0) && WellLinked(ns) && i < |n0| <= |ns| && l.Listing? && n <= |l.items|
  {
    forall k :: 0 <= k < n && l.items[k].Item? && !IsIgnore(l.items[k].entry.name, ignore) ==>
      EntryCovered(n0, ns, i, l.items[k].entry, bitflag)
  }

  /** What the loop of `fill_compare_status` at `i` has done after the first
      `n` entries of `l`. */
  predicate FillDone(n0: seq<NodeData>, ns: seq<NodeData>, i: NodeId, l: Listing, n: nat,
                     ignore: Option<seq<string>>, bitflag: Mask)
    requires WellLinked(n0) && i < |n0| && l.Listing? && n <= |l.items|
  {
    && Compared(n0, ns, bitflag) && Untouched(n0, ns, i)
    && Framed(n0, ns, i, NamesUpTo(l, n, ignore))
    && Placed(ns, |n0|, i, NamesUpTo(l, n, ignore))
    && (DistinctNames(l) ==> Untracked(ns, |n0|) && CoveredExact(n0, ns, i, l, n, ignore, bitflag))
  }

  /** Comparing keeps the subtrees of the old nodes, and the child of `i`
      through which an old node lies below `i`. */
  lemma {:induction false} UnderKept(n0: seq<NodeData>, ns: seq<NodeData>, x: NodeId, i: NodeId, bitflag: Mask)
    requires Compared(n0, ns, bitflag) && WellLinked(n0) && x < |n0| && i < |n0|
    ensures Under(ns, x, i) == Under(n0, x, i)
    ensures Under(n0, x, i) && x != i ==> Toward(ns, x, i) == Toward(n0, x, i)
    decreases x
  {
    ParentEarlier(n0, x);
    ParentEarlier(ns, x);
    assert Kept(n0, ns, x, bitflag);
    if x != i && n0[x].parent.Some? {
      var p := n0[x].parent.value;
      assert Kept(n0, ns, p, bitflag);
      var k0, ks := Kids(n0, p), Kids(ns, p);
      assert x in ks <==> x in k0 by {
        if x in ks {
          var j :| 0 <= j < |ks| && ks[j] == x;
          if j < |k0| {
            assert ks[..|k0|][j] == x;
          }
        }
        if x in k0 {
          var j :| 0 <= j < |k0| && k0[j] == x;
          assert ks[..|k0|][j] == x;
        }
      }
      UnderKept(n0, ns, p, i, bitflag);
    }
  }

  lemma BelowKept(n0: seq<NodeData>, ns: seq<NodeData>, x: NodeId, i: NodeId, names: set<string>, bitflag: Mask)
    requires Compared(n0, ns, bitflag) && WellLinked(n0) && x < |n0| && i < |n0|
    ensures Below(ns, x, i, names) == Below(n0, x, i, names)
  {
    UnderKept(n0, ns, x, i, bitflag);
    if Under(n0, x, i) && x != i {
      assert Kept(n0, ns, Toward(n0, x, i), bitflag);
    }
  }

  /** A child of `i` lies below `i` through itself. */
  lemma KidBelow(ns: seq<NodeData>, i: NodeId, c: NodeId, names: set<string>)
    requires WellLinked(ns) && i < |ns| && c in Kids(ns, i)
    ensures c < |ns| && (Below(ns, c, i, names) <==> ns[c].file in names)
  {
    KidParent(ns, i, c);
    UnderKid(ns, c, i, c);
  }

  /** Two framed rounds of comparing are one, framed by any names covering
      both. */
  lemma FramedCompose(n0: seq<NodeData>, n1: seq<NodeData>, n2: seq<NodeData>, i: NodeId,
                      a: set<string>, b: set<string>, all: set<string>, bitflag: Mask)
    requires WellLinked(n0) && Compared(n0, n1, bitflag) && i < |n0| && |n1| <= |n2| && a <= all && b <= all
    requires Framed(n0, n1, i, a) && Framed(n1, n2, i, b)
    ensures Framed(n0, n2, i, all)
  {
    forall x | 0 <= x < |n0| && x != i && !Below(n0, x, i, all) ensures n2[x] == n0[x] {
      BelowKept(n0, n1, x, i, b, bitflag);
    }
  }

  /** Changes confined below the child `c` of `i` are confined below the
      children of `i` of its name. */
  lemma FramedWiden(n0: seq<NodeData>, ns: seq<NodeData>, i: NodeId, c: NodeId, name: string, names: set<string>)
    requires WellLinked(n0) && i < |n0| <= |ns| && c in Kids(n0, i) && c < |n0| && n0[c].file == name
    requires Framed(n0, ns, c, names)
    ensures Framed(n0, ns, i, {name})
  {
    KidBelow(n0, i, c, {name});
    forall x | 0 <= x < |n0| && x != i && !Below(n0, x, i, {name}) ensures ns[x] == n0[x] {
      UnderKid(n0, x, i, c);
    }
  }

  /** Nodes placed before a round of comparing stay placed. */
  lemma PlacedKept(n1: seq<NodeData>, n2: seq<NodeData>, lo: nat, i: NodeId,
                   a: set<string>, b: set<string>, all: set<string>, bitflag: Mask)
    requires WellLinked(n1) && Compared(n1, n2, bitflag) && i < |n1| && lo <= |n1| && a <= all && b <= all
    requires Placed(n1, lo, i, a) && Placed(n2, |n1|, i, b)
    ensures Placed(n2, lo, i, all)
  {
    forall x | lo <= x < |n2| ensures Below(n2, x, i, all) {
      if x < |n1| {
        assert Below(n1, x, i, a);
        BelowKept(n1, n2, x, i, all, bitflag);
      } else {
        assert Below(n2, x, i, b);
      }
    }
  }

  /** A name no old child of `i` has, and no node placed below `i` since, is
      still no child's name. */
  lemma ChildNamedAbsent(n0: seq<NodeData>, ns: seq<NodeData>, i: NodeId, name: string, names: set<string>, bitflag: Mask)
    requires WellLinked(n0) && Compared(n0, ns, bitflag) && i < |n0|
    requires Placed(ns, |n0|, i, names) && name !in names && ChildNamed(n0, i, name).None?
    ensures ChildNamed(ns, i, name).None?
  {
    assert Kept(n0, ns, i, bitflag);
    var k0, ks := Kids(n0, i), Kids(ns, i);
    forall j | 0 <= j < |ks| && ks[j] < |ns| ensures ns[ks[j]].file != name {
      if j < |k0| {
        assert ks[j] == ks[..|k0|][j];
        KidAt(n0, i, j);
        assert Kept(n0, ns, k0[j], bitflag);
      } else {
        KidBelow(ns, i, ks[j], names);
      }
    }
  }

  /** Attaching `c` below `p` keeps every node below `c` below it. */
  lemma {:induction false} UnderAttach(ns: seq<NodeData>, p: NodeId, c: NodeId, x: NodeId)
    requires WellLinked(ns) && p < c < |ns| && WellLinked(Attach(ns, p, c)) && x < |ns| && Under(ns, x, c)
    ensures Under(Attach(ns, p, c), x, c)
    decreases x
  {
    if x != c {
      var r := Attach(ns, p, c);
      ParentEarlier(ns, x);
      var q := ns[x].parent.value;
      UnderAfter(ns, q, c);
      assert r[x] == ns[x] && Kids(r, q) == Kids(ns, q);
      UnderAttach(ns, p, c, q);
    }
  }

  /** The walk into the matched child `c` of `i` and the status written on
      `c` change only what lies below the children of `i` of its name. */
  lemma MatchedPlaced(before: seq<NodeData>, mid: seq<NodeData>, i: NodeId, c: NodeId, name: string,
                      names: set<string>, s: Option<Mask>, bitflag: Mask)
    requires WellLinked(before) && i < |before| && ChildNamed(before, i, name) == Some(c) && StatusMark(s, bitflag)
    requires Compared(before, mid, bitflag) && Framed(before, mid, c, names) && Placed(mid, |before|, c, names)
    ensures var marked := mid[c := mid[c].(status := s)];
            && WellLinked(marked)
            && Framed(before, marked, i, {name})
            && Placed(marked, |before|, i, {name})
            && (Untracked(mid, |before|) ==> Untracked(marked, |before|))
  {
    var marked := mid[c := mid[c].(status := s)];
    FramedWiden(before, mid, i, c, name, names);
    KidBelow(before, i, c, {name});
    ChildNamedKept(before, mid, i, name, bitflag);
    assert Kept(before, mid, c, bitflag);
    StatusWritten(mid, c, s, bitflag);
    PlacedWiden(mid, |before|, i, c, name, names);
    PlacedKept(mid, marked, |before|, i, {name}, {}, {name}, bitflag);
  }

  /** Nodes placed below the child `c` of `i` are placed below the children
      of `i` of its name. */
  lemma PlacedWiden(ns: seq<NodeData>, lo: nat, i: NodeId, c: NodeId, name: string, names: set<string>)
    requires WellLinked(ns) && i < |ns| && c in Kids(ns, i) && c < |ns| && ns[c].file == name
    requires Placed(ns, lo, c, names)
    ensures Placed(ns, lo, i, {name})
  {
    forall x | lo <= x < |ns| ensures Below(ns, x, i, {name}) {
      assert Below(ns, x, c, names);
      UnderKid(ns, x, i, c);
    }
  }

  /** A node appended before the walk into it leaves the old nodes as they
      were, whatever the walk did below it. */
  lemma NewFramed(before: seq<NodeData>, d: NodeData, mid: seq<NodeData>, i: NodeId, c: NodeId,
                  name: string, names: set<string>)
    requires WellLinked(before) && i < |before| == c && WellLinked(before + [d]) && |before| < |mid|
    requires Framed(before + [d], mid, c, names)
    ensures mid[..c] == before && Framed(before, mid, i, {name})
  {
    var m0 := before + [d];
    forall x | 0 <= x < c ensures mid[x] == before[x] {
      if Under(m0, x, c) {
        UnderAfter(m0, x, c);
      }
      assert m0[x] == before[x];
    }
  }

  /** The new node `c` built for an entry named `name`, walked into, marked and
      attached to `i`, lies with everything below it under the children of
      `i` of that name; nothing old but `i` changed. */
  lemma NewPlaced(before: seq<NodeData>, d: NodeData, mid: seq<NodeData>, r: seq<NodeData>, i: NodeId,
                  c: NodeId, name: string, names: set<string>, bitflag: Mask)
    requires WellLinked(before) && i < |before| == c && d.file == name && WellLinked(before + [d])
    requires Compared(before + [d], mid, bitflag) && Framed(before + [d], mid, c, names) && Placed(mid, c + 1, c, names)
    requires var marked := mid[c := mid[c].(status := Some(NODE_UNTRACKED))];
             WellLinked(marked) && r == Attach(marked, i, c) && WellLinked(r)
    ensures Framed(before, r, i, {name}) && Placed(r, c, i, {name})
    ensures Untracked(mid, c + 1) ==> Untracked(r, c)
  {
    var m0 := before + [d];
    var marked := mid[c := mid[c].(status := Some(NODE_UNTRACKED))];
    NewFramed(before, d, mid, i, c, name, names);
    assert Kept(m0, mid, c, bitflag);
    StatusWritten(mid, c, Some(NODE_UNTRACKED), bitflag);
    assert c in Kids(r, i);
    KidBelow(r, i, c, {name});
    forall x | c < x < |r| ensures Below(r, x, i, {name}) {
      assert Below(mid, x, c, names);
      UnderKept(mid, marked, x, c, bitflag);
      UnderAttach(marked, i, c, x);
      UnderKid(r, x, i, c);
    }
    assert forall x :: 0 <= x < |r| ==> r[x].status == marked[x].status;
  }

  /** The loop starts with nothing done. */
  lemma FillStart(ns: seq<NodeData>, i: NodeId, l: Listing, ignore: Option<seq<string>>, bitflag: Mask)
    requires WellLinked(ns) && i < |ns| && l.Listing?
    ensures FillDone(ns, ns, i, l, 0, ignore, bitflag)
  {
    CompareStart(ns, bitflag);
    assert NamesUpTo(l, 0, ignore) == {};
  }

  lemma NamesMono(l: Listing, m: nat, n: nat, ignore: Option<seq<string>>)
    requires l.Listing? && m <= n <= |l.items|
    ensures NamesUpTo(l, m, ignore) <= NamesUpTo(l, n, ignore)
  {
    forall s | s in NamesUpTo(l, m, ignore) ensures s in NamesUpTo(l, n, ignore) {
      var j :| 0 <= j < m && l.items[j].Item? && !IsIgnore(l.items[j].entry.name, ignore) && l.items[j].entry.name == s;
    }
  }

  /** An ignored entry changes nothing. */
  lemma FillSkip(n0: seq<NodeData>, ns: seq<NodeData>, i: NodeId, l: Listing, k: nat,
                 ignore: Option<seq<string>>, bitflag: Mask)
    requires WellLinked(n0) && i < |n0| && l.Listing? && k < |l.items| && l.items[k].Item?
    requires IsIgnore(l.items[k].entry.name, ignore)
    requires FillDone(n0, ns, i, l, k, ignore, bitflag)
    ensures FillDone(n0, ns, i, l, k + 1, ignore, bitflag)
  {
    NamesStep(l, k, ignore);
    assert NamesUpTo(l, k + 1, ignore) == NamesUpTo(l, k, ignore);
  }

  /** The loop stopped early by an error has written only below the children
      of `i` named in the listing. */
  lemma FillStopped(n0: seq<NodeData>, n1: seq<NodeData>, n2: seq<NodeData>, i: NodeId, l: Listing, k: nat,
                    ignore: Option<seq<string>>, bitflag: Mask)
    requires WellLinked(n0) && i < |n0| && l.Listing? && k < |l.items| && l.items[k].Item?
    requires FillDone(n0, n1, i, l, k, ignore, bitflag) && !IsIgnore(l.items[k].entry.name, ignore)
    requires Compared(n1, n2, bitflag) && Untouched(n1, n2, i) && Framed(n1, n2, i, {l.items[k].entry.name})
    ensures Compared(n0, n2, bitflag) && Untouched(n0, n2, i) && Framed(n0, n2, i, NamesUpTo(l, |l.items|, ignore))
  {
    NamesStep(l, k, ignore);
    NamesMono(l, k + 1, |l.items|, ignore);
    CompareCompose(n0, n1, n2, bitflag);
    FramedCompose(n0, n1, n2, i, NamesUpTo(l, k, ignore), {l.items[k].entry.name}, NamesUpTo(l, |l.items|, ignore), bitflag);
  }

  /** The loop stopped by an unreadable item has written only below the
      children of `i` named in the listing. */
  lemma FillErred(n0: seq<NodeData>, ns: seq<NodeData>, i: NodeId, l: Listing, k: nat,
                  ignore: Option<seq<string>>, bitflag: Mask)
    requires WellLinked(n0) && i < |n0| && l.Listing? && k <= |l.items|
    requires FillDone(n0, ns, i, l, k, ignore, bitflag)
    ensures Framed(n0, ns, i, NamesUpTo(l, |l.items|, ignore))
  {
    NamesMono(l, k, |l.items|, ignore);
  }

  /** With distinct names, an earlier entry's child is not below the
      children named after a later entry, and keeps what was written. */
  lemma EntryCoveredKept(n0: seq<NodeData>, n1: seq<NodeData>, n2: seq<NodeData>, i: NodeId, e: DirEntry,
                         name: string, bitflag: Mask)
    requires WellLinked(n0) && Compared(n0, n1, bitflag) && i < |n0| && e.name != name
    requires Compared(n1, n2, bitflag) && Framed(n1, n2, i, {name})
    requires EntryCovered(n0, n1, i, e, bitflag)
    ensures EntryCovered(n0, n2, i, e, bitflag)
  {
    var c := ChildNamed(n1, i, e.name).value;
    ChildNamedKept(n1, n2, i, e.name, bitflag);
    KidBelow(n1, i, c, {name});
    assert n2[c] == n1[c];
  }

  /** Entry `k`, with distinct names, is covered by what its round wrote. */
  lemma EntryCoveredNew(n0: seq<NodeData>, n1: seq<NodeData>, n2: seq<NodeData>, i: NodeId, e: DirEntry,
                        names: set<string>, bitflag: Mask)
    requires WellLinked(n0) && Compared(n0, n1, bitflag) && i < |n0| && e.name !in names
    requires Framed(n0, n1, i, names) && Placed(n1, |n0|, i, names)
    requires Compared(n1, n2, bitflag)
    requires ChildNamed(n1, i, e.name).Some? ==>
               && ChildNamed(n2, i, e.name) == ChildNamed(n1, i, e.name)
               && n2[ChildNamed(n1, i, e.name).value].status
                  == Some(CompareExt(FromDirEntryExt(e, bitflag), n1[ChildNamed(n1, i, e.name).value], bitflag))
    requires ChildNamed(n1, i, e.name).None? ==>
               && ChildNamed(n2, i, e.name) == Some(|n1|)
               && n2[|n1|].status == Some(NODE_UNTRACKED)
               && n2[|n1|].(status := None, children := None, parent := None) == FromDirEntryExt(e, bitflag)
    ensures EntryCovered(n0, n2, i, e, bitflag)
  {
    if ChildNamed(n0, i, e.name).Some? {
      var c := ChildNamed(n0, i, e.name).value;
      ChildNamedKept(n0, n1, i, e.name, bitflag);
      KidBelow(n0, i, c, names);
      assert n1[c] == n0[c];
    } else {
      ChildNamedAbsent(n0, n1, i, e.name, names, bitflag);
    }
  }

  /** One entry that is not ignored, compared without error, extends what the
      loop has done. */
  lemma FillStep(n0: seq<NodeData>, n1: seq<NodeData>, n2: seq<NodeData>, i: NodeId, l: Listing, k: nat,
                 ignore: Option<seq<string>>, bitflag: Mask)
    requires WellLinked(n0) && i < |n0| && l.Listing? && k < |l.items| && l.items[k].Item?
    requires FillDone(n0, n1, i, l, k, ignore, bitflag) && !IsIgnore(l.items[k].entry.name, ignore)
    requires Compared(n1, n2, bitflag) && Untouched(n1, n2, i)
    requires var e := l.items[k].entry;
             && Framed(n1, n2, i, {e.name}) && Placed(n2, |n1|, i, {e.name})
             && (EntryDistinct(e) ==> Untracked(n2, |n1|))
             && (ChildNamed(n1, i, e.name).Some? ==>
                   && ChildNamed(n2, i, e.name) == ChildNamed(n1, i, e.name)
                   && n2[ChildNamed(n1, i, e.name).value].status
                      == Some(CompareExt(FromDirEntryExt(e, bitflag), n1[ChildNamed(n1, i, e.name).value], bitflag)))
             && (ChildNamed(n1, i, e.name).None? ==>
                   && ChildNamed(n2, i, e.name) == Some(|n1|)
                   && n2[|n1|].status == Some(NODE_UNTRACKED)
                   && n2[|n1|].(status := None, children := None, parent := None) == FromDirEntryExt(e, bitflag))
    ensures FillDone(n0, n2, i, l, k + 1, ignore, bitflag)
  {
    var e := l.items[k].entry;
    var a, b := NamesUpTo(l, k, ignore), NamesUpTo(l, k + 1, ignore);
    NamesStep(l, k, ignore);
    CompareCompose(n0, n1, n2, bitflag);
    FramedCompose(n0, n1, n2, i, a, {e.name}, b, bitflag);
    PlacedKept(n1, n2, |n0|, i, a, {e.name}, b, bitflag);
    if DistinctNames(l) {
      forall x | |n0| <= x < |n1| ensures n2[x] == n1[x] {
        assert Below(n1, x, i, a);
      }
      forall j | 0 <= j < k + 1 && l.items[j].Item? && !IsIgnore(l.items[j].entry.name, ignore)
        ensures EntryCovered(n0, n2, i, l.items[j].entry, bitflag)
      {
        if j < k {
          EntryCoveredKept(n0, n1, n2, i, l.items[j].entry, e.name, bitflag);
        } else {
          EntryCoveredNew(n0, n1, n2, i, e, a, bitflag);
        }
      }
    }
  }
}
