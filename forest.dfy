/** The node tree of src/file_tree/node/node.rs as an arena: a sequence of
    `NodeData` slots in which a node's children are slot ids and the parent
    back-link (the source's `Weak` pointer) is an id too. This module holds the
    specification functions over one arena value: link consistency, child
    lookup by name (`get_child`, `get_child_idx`), path resolution (`get`),
    path reconstruction (`get_path`, `get_full_path`) and subtree membership. */
module Forest {

  import opened Base
  import opened NodeDatas
  import opened Paths
  import FieldMask

  /** The ids of a node's children; no children list reads as none. */
  function Kids(ns: seq<NodeData>, p: NodeId): seq<NodeId>
    requires p < |ns|
  {
    if ns[p].children.Some? then ns[p].children.value else []
  }

  /** Link consistency: every child id lies after its parent inside the arena
      and points back to it, and every parent link points to an earlier slot.
      Slots that no children list names (removed nodes) may remain. */
  predicate WellLinked(ns: seq<NodeData>)
  {
    && (forall p :: 0 <= p < |ns| ==> KidsLinked(ns, p))
    && (forall k :: 0 <= k < |ns| ==> ParentBefore(ns, k))
  }

  predicate KidsLinked(ns: seq<NodeData>, p: NodeId)
    requires p < |ns|
  {
    forall j :: 0 <= j < |Kids(ns, p)| ==> p < Kids(ns, p)[j] < |ns| && ns[Kids(ns, p)[j]].parent == Some(p)
  }

  predicate ParentBefore(ns: seq<NodeData>, k: NodeId)
    requires k < |ns|
  {
    ns[k].parent.Some? ==> ns[k].parent.value < k
  }

  /** The `j`-th child of `p` lies after it and points back to it. */
  lemma KidAt(ns: seq<NodeData>, p: NodeId, j: nat)
    requires WellLinked(ns) && p < |ns| && j < |Kids(ns, p)|
    ensures p < Kids(ns, p)[j] < |ns| && ns[Kids(ns, p)[j]].parent == Some(p)
  {
    assert KidsLinked(ns, p);
  }

  /** A parent link points to an earlier slot. */
  lemma ParentEarlier(ns: seq<NodeData>, k: NodeId)
    requires WellLinked(ns) && k < |ns|
    ensures ns[k].parent.Some? ==> ns[k].parent.value < k
  {
    assert ParentBefore(ns, k);
  }

  /** A child belongs to exactly one parent's children list. */
  lemma KidHasOneParent(ns: seq<NodeData>, p: NodeId, q: NodeId, k: NodeId)
    requires WellLinked(ns) && p < |ns| && q < |ns|
    requires k in Kids(ns, p) && k in Kids(ns, q)
    ensures p == q
  {
    KidParent(ns, p, k);
    KidParent(ns, q, k);
  }

  // ---------------------------------------------------------------------------
  // get_child_idx, get_child

  /** `Iterator::position` over the names of the nodes `ids`: the index of the
      first one named `name`. */
  function Position(ns: seq<NodeData>, ids: seq<NodeId>, name: string): (r: Option<nat>)
    requires forall k :: 0 <= k < |ids| ==> ids[k] < |ns|
    ensures r.Some? ==> r.value < |ids| && ns[ids[r.value]].file == name
    ensures forall k :: 0 <= k < |ids| && (r.None? || k < r.value) ==> ns[ids[k]].file != name
  {
    if ids == [] then None
    else if ns[ids[0]].file == name then Some(0)
    else match Position(ns, ids[1..], name)
      case None => None
      case Some(k) => Some(k + 1)
  }

  /** `get_child_idx`: the index of the first child named `name`; None when
      there are no children or none has that name. */
  function ChildIdx(ns: seq<NodeData>, p: NodeId, name: string): (r: Option<nat>)
    requires WellLinked(ns) && p < |ns|
  {
    assert KidsLinked(ns, p);
    if ns[p].children.None? then None else Position(ns, Kids(ns, p), name)
  }

  /** `get_child`: the first child named `name`. */
  function ChildNamed(ns: seq<NodeData>, p: NodeId, name: string): (r: Option<NodeId>)
    requires WellLinked(ns) && p < |ns|
    ensures r.Some? ==> r.value in Kids(ns, p) && p < r.value < |ns| && ns[r.value].file == name
    ensures r.None? <==> forall k :: 0 <= k < |Kids(ns, p)| && Kids(ns, p)[k] < |ns| ==> ns[Kids(ns, p)[k]].file != name
  {
    assert KidsLinked(ns, p);
    match ChildIdx(ns, p, name)
    case None => None
    case Some(k) => KidAt(ns, p, k); Some(Kids(ns, p)[k])
  }

  // ---------------------------------------------------------------------------
  // get

  /** `get`: walk the components from node `i`, skipping `.`, descending into
      the first child of each normal name; any other component, or a missing
      child, gives None. */
  function Resolve(ns: seq<NodeData>, i: NodeId, path: Path): (r: Option<NodeId>)
    requires WellLinked(ns) && i < |ns|
    ensures r.Some? ==> r.value < |ns|
    decreases |path|
  {
    if path == [] then Some(i)
    else match path[0]
      case CurDir => Resolve(ns, i, path[1..])
      case Normal(name) =>
        (match ChildNamed(ns, i, name)
         case None => None
         case Some(k) => Resolve(ns, k, path[1..]))
      case _ => None
  }

  /** Resolving a concatenation resolves the second part from where the first ends. */
  lemma {:induction false} ResolveAppend(ns: seq<NodeData>, i: NodeId, p1: Path, p2: Path)
    requires WellLinked(ns) && i < |ns|
    ensures Resolve(ns, i, p1 + p2) == match Resolve(ns, i, p1)
      case None => None
      case Some(j) => Resolve(ns, j, p2)
    decreases |p1|
  {
    if p1 != [] {
      assert (p1 + p2)[0] == p1[0] && (p1 + p2)[1..] == p1[1..] + p2;
      match p1[0]
      case CurDir => ResolveAppend(ns, i, p1[1..], p2);
      case Normal(name) =>
        if ChildNamed(ns, i, name).Some? {
          ResolveAppend(ns, ChildNamed(ns, i, name).value, p1[1..], p2);
        }
      case _ =>
    } else {
      assert p1 + p2 == p2;
    }
  }

  /** An empty path, `.` and any run of `.` components resolve to the node itself,
      and a path holding `..` or the root never resolves. */
  lemma {:induction false} ResolveCurDirs(ns: seq<NodeData>, i: NodeId, path: Path)
    requires WellLinked(ns) && i < |ns|
    ensures (forall k :: 0 <= k < |path| ==> path[k] == CurDir) ==> Resolve(ns, i, path) == Some(i)
    ensures (exists k :: 0 <= k < |path| && (path[k] == ParentDir || path[k] == RootDir)) ==> Resolve(ns, i, path).None?
    decreases |path|
  {
    if path != [] {
      ResolveCurDirs(ns, i, path[1..]);
      if path[0].Normal? && ChildNamed(ns, i, path[0].name).Some? {
        ResolveCurDirs(ns, ChildNamed(ns, i, path[0].name).value, path[1..]);
      }
      if exists k :: 0 <= k < |path| && (path[k] == ParentDir || path[k] == RootDir) {
        var k :| 0 <= k < |path| && (path[k] == ParentDir || path[k] == RootDir);
        if k > 0 {
          assert path[1..][k - 1] == path[k];
        }
      }
    }
  }

  // ---------------------------------------------------------------------------
  // get_path, get_full_path

  /** `get_path`: the names of the ancestors, outermost first, each pushed onto
      the path. */
  function GetPath(ns: seq<NodeData>, i: NodeId): Path
    requires WellLinked(ns) && i < |ns|
    decreases i
  {
    ParentEarlier(ns, i);
    match ns[i].parent
    case None => []
    case Some(p) => Push(GetPath(ns, p), ns[p].file)
  }

  /** `get_full_path`: `get_path` followed by the node's own name. */
  function GetFullPath(ns: seq<NodeData>, i: NodeId): Path
    requires WellLinked(ns) && i < |ns|
  {
    Push(GetPath(ns, i), ns[i].file)
  }

  /** `get_path` of a node is the full path of its parent, and empty for a
      node without one. */
  lemma PathIsParentFullPath(ns: seq<NodeData>, i: NodeId)
    requires WellLinked(ns) && i < |ns|
    ensures ns[i].parent.None? ==> GetPath(ns, i) == []
    ensures ns[i].parent.Some? ==> ns[i].parent.value < i && GetPath(ns, i) == GetFullPath(ns, ns[i].parent.value)
  {
    ParentEarlier(ns, i);
  }

  /** For a plain name, `get_full_path` is `get_path` with the node's own name
      pushed: its file name is that name and its parent is `get_path`. */
  lemma FullPathEndsInName(ns: seq<NodeData>, i: NodeId)
    requires WellLinked(ns) && i < |ns| && IsPlainName(ns[i].file)
    ensures GetFullPath(ns, i) == GetPath(ns, i) + [Normal(ns[i].file)]
    ensures FileName(GetFullPath(ns, i)) == Some(ns[i].file)
    ensures Parent(GetFullPath(ns, i)) == Some(GetPath(ns, i))
  {
    PushPlain(GetPath(ns, i), ns[i].file);
  }

  /** The outermost ancestor, reached through the parent links. */
  function Top(ns: seq<NodeData>, i: NodeId): (r: NodeId)
    requires WellLinked(ns) && i < |ns|
    ensures r <= i && ns[r].parent.None?
    decreases i
  {
    ParentEarlier(ns, i);
    match ns[i].parent
    case None => i
    case Some(p) => Top(ns, p)
  }

  /** Every link from the node up to the top is live (the node is in its
      parent's children list), its name is a single normal component, and it is
      the first child of that name, so `get` can find it by name. */
  predicate Addressable(ns: seq<NodeData>, i: NodeId)
    requires WellLinked(ns) && i < |ns|
    decreases i
  {
    ParentEarlier(ns, i);
    match ns[i].parent
    case None => true
    case Some(p) => IsPlainName(ns[i].file) && ChildNamed(ns, p, ns[i].file) == Some(i) && Addressable(ns, p)
  }

  /** The top's own name adds no normal component (the empty name of a loaded
      tree, or `.`). */
  predicate TopNameSkipped(name: string)
  {
    name == "" || name == "."
  }

  /** `get` inverts `get_full_path`: resolving a node's full path from the top of
      its tree finds the node again. */
  lemma {:induction false} FullPathResolves(ns: seq<NodeData>, i: NodeId)
    requires WellLinked(ns) && i < |ns|
    requires Addressable(ns, i) && TopNameSkipped(ns[Top(ns, i)].file)
    ensures Resolve(ns, Top(ns, i), GetFullPath(ns, i)) == Some(i)
    decreases i
  {
    ParentEarlier(ns, i);
    if ns[i].parent.None? {
      TopPathResolves(ns, i);
    } else {
      var p := ns[i].parent.value;
      FullPathResolves(ns, p);
      ChildPathResolves(ns, i, p);
    }
  }

  /** The top's full path is its own skipped name, which resolves to itself. */
  lemma TopPathResolves(ns: seq<NodeData>, i: NodeId)
    requires WellLinked(ns) && i < |ns| && ns[i].parent.None? && TopNameSkipped(ns[i].file)
    ensures Resolve(ns, i, GetFullPath(ns, i)) == Some(i)
  {
    PushCurDir();
    assert GetFullPath(ns, i) == Push([], ns[i].file);
    ResolveCurDirs(ns, i, Push([], ns[i].file));
  }

  /** A child's full path is its parent's with its own plain name added, which
      `get` follows from the parent to the child. */
  lemma ChildPathResolves(ns: seq<NodeData>, i: NodeId, p: NodeId)
    requires WellLinked(ns) && p < i < |ns| && ns[i].parent == Some(p)
    requires IsPlainName(ns[i].file) && ChildNamed(ns, p, ns[i].file) == Some(i)
    requires Resolve(ns, Top(ns, p), GetFullPath(ns, p)) == Some(p)
    ensures Resolve(ns, Top(ns, i), GetFullPath(ns, i)) == Some(i)
  {
    assert Top(ns, i) == Top(ns, p);
    assert GetPath(ns, i) == GetFullPath(ns, p);
    PushPlain(GetFullPath(ns, p), ns[i].file);
    ResolveAppend(ns, Top(ns, p), GetFullPath(ns, p), [Normal(ns[i].file)]);
  }

  // ---------------------------------------------------------------------------
  // Subtrees

  /** Node `j` lies in the subtree of node `i`: walking up live links from `j`
      reaches `i`. */
  predicate Under(ns: seq<NodeData>, j: NodeId, i: NodeId)
    requires WellLinked(ns) && j < |ns|
    decreases j
  {
    ParentEarlier(ns, j);
    j == i || match ns[j].parent
      case None => false
      case Some(p) => j in Kids(ns, p) && Under(ns, p, i)
  }

  lemma {:induction false} UnderAfter(ns: seq<NodeData>, j: NodeId, i: NodeId)
    requires WellLinked(ns) && j < |ns| && Under(ns, j, i)
    ensures i <= j
    decreases j
  {
    if j != i {
      ParentEarlier(ns, j);
      UnderAfter(ns, ns[j].parent.value, i);
    }
  }

  /** The child of `i` through which `j` lies below `i`. */
  function Toward(ns: seq<NodeData>, j: NodeId, i: NodeId): (r: NodeId)
    requires WellLinked(ns) && i < |ns| && j < |ns| && Under(ns, j, i) && j != i
    ensures r in Kids(ns, i) && r <= j && Under(ns, j, r)
    decreases j
  {
    ParentEarlier(ns, j);
    var p := ns[j].parent.value;
    if p == i then j else Toward(ns, p, i)
  }

  /** The subtree of `i` is `i` and the subtrees of its children, and a node
      below `i` is below exactly one of them (the one `Toward` names). */
  lemma {:induction false} UnderKid(ns: seq<NodeData>, j: NodeId, i: NodeId, k: NodeId)
    requires WellLinked(ns) && j < |ns| && i < |ns| && k in Kids(ns, i)
    ensures Under(ns, j, k) <==> Under(ns, j, i) && j != i && Toward(ns, j, i) == k
    decreases j
  {
    KidParent(ns, i, k);
    if Under(ns, j, k) {
      UnderAfter(ns, j, k);
      if j == k {
        KidParent(ns, i, k);
      } else {
        ParentEarlier(ns, j);
        var p := ns[j].parent.value;
        UnderKid(ns, p, i, k);
      }
    }
  }

  lemma KidParent(ns: seq<NodeData>, p: NodeId, k: NodeId)
    requires WellLinked(ns) && p < |ns| && k in Kids(ns, p)
    ensures p < k < |ns| && ns[k].parent == Some(p)
  {
    var a :| 0 <= a < |Kids(ns, p)| && Kids(ns, p)[a] == k;
    assert KidsLinked(ns, p);
  }

  /** Two arenas of the same size whose nodes have the same parents and, per
      node, the same children up to order. */
  predicate SameShape(ns: seq<NodeData>, ms: seq<NodeData>)
  {
    && |ns| == |ms|
    && forall x :: 0 <= x < |ns| ==>
         && ns[x].parent == ms[x].parent
         && ns[x].children.None? == ms[x].children.None?
         && multiset(Kids(ns, x)) == multiset(Kids(ms, x))
  }

  /** Reordering children lists keeps the links consistent. */
  lemma WellLinkedSameShape(ns: seq<NodeData>, ms: seq<NodeData>)
    requires WellLinked(ns) && SameShape(ns, ms)
    ensures WellLinked(ms)
  {
    forall p | 0 <= p < |ms| ensures KidsLinked(ms, p) {
      forall j | 0 <= j < |Kids(ms, p)|
        ensures p < Kids(ms, p)[j] < |ms| && ms[Kids(ms, p)[j]].parent == Some(p)
      {
        var k := Kids(ms, p)[j];
        assert k in multiset(Kids(ms, p));
        KidParent(ns, p, k);
      }
    }
    forall k | 0 <= k < |ms| ensures ParentBefore(ms, k) {
      ParentEarlier(ns, k);
    }
  }

  /** Arenas of the same shape have the same subtrees. */
  lemma {:induction false} UnderSameShape(ns: seq<NodeData>, ms: seq<NodeData>, j: NodeId, i: NodeId)
    requires WellLinked(ns) && WellLinked(ms) && SameShape(ns, ms) && j < |ns|
    ensures Under(ns, j, i) == Under(ms, j, i)
    decreases j
  {
    ParentEarlier(ns, j);
    ParentEarlier(ms, j);
    if j != i && ns[j].parent.Some? {
      var p := ns[j].parent.value;
      assert j in Kids(ns, p) <==> j in multiset(Kids(ns, p));
      assert j in Kids(ms, p) <==> j in multiset(Kids(ms, p));
      UnderSameShape(ns, ms, p, i);
    }
  }

  /** A node without children is its whole subtree. */
  lemma UnderNoKids(ns: seq<NodeData>, j: NodeId, i: NodeId)
    requires WellLinked(ns) && j < |ns| && i < |ns| && Kids(ns, i) == []
    ensures Under(ns, j, i) <==> j == i
  {
    if Under(ns, j, i) && j != i {
      var t := Toward(ns, j, i);
    }
  }

  // ---------------------------------------------------------------------------
  // Link edits that keep the arena consistent

  /** A node that no children list names: a root, or a node built but not yet
      attached. */
  predicate Detached(ns: seq<NodeData>, c: NodeId)
    requires c < |ns|
  {
    forall q :: 0 <= q < |ns| ==> c !in Kids(ns, q)
  }

  /** Nodes appended after a detached node do not list it: their children lie
      after them. */
  lemma ExtendedDetached(ns: seq<NodeData>, ms: seq<NodeData>, r: NodeId)
    requires WellLinked(ms) && r < |ns| < |ms| && ms[..|ns|] == ns && Detached(ns, r)
    ensures Detached(ms, r)
  {
    forall q | 0 <= q < |ms| ensures r !in Kids(ms, q) {
      if q < |ns| {
        assert ms[q] == ms[..|ns|][q];
        assert Kids(ms, q) == Kids(ns, q);
      } else {
        forall j | 0 <= j < |Kids(ms, q)| ensures Kids(ms, q)[j] != r {
          KidAt(ms, q, j);
        }
      }
    }
  }

  /** A fresh node without children, whose parent (if any) already exists, may
      be appended; it is detached. */
  lemma AppendWellLinked(ns: seq<NodeData>, d: NodeData)
    requires WellLinked(ns) && d.children.None? && (d.parent.Some? ==> d.parent.value < |ns|)
    ensures WellLinked(ns + [d]) && Detached(ns + [d], |ns|)
  {
    var r := ns + [d];
    assert forall q :: 0 <= q < |ns| ==> Kids(r, q) == Kids(ns, q);
    assert Kids(r, |ns|) == [];
    forall q | 0 <= q < |r| ensures KidsLinked(r, q) && ParentBefore(r, q) && |ns| !in Kids(r, q) {
      if q < |ns| {
        assert KidsLinked(ns, q) && ParentBefore(ns, q);
      }
    }
  }

  /** `add_child` on the arena: `c`'s parent becomes `p` and `c` is appended to
      `p`'s children, a list `[c]` when `p` had none. */
  function Attach(ns: seq<NodeData>, p: NodeId, c: NodeId): (r: seq<NodeData>)
    requires p < c < |ns|
    ensures |r| == |ns| && Kids(r, p) == Kids(ns, p) + [c]
  {
    ns[c := ns[c].(parent := Some(p))][p := ns[p].(children := Some(Kids(ns, p) + [c]))]
  }

  /** Writing a node's status leaves every children list and parent link as
      it was. */
  lemma StatusKeepsLinks(ns: seq<NodeData>, c: NodeId, s: Option<FieldMask.Mask>)
    requires WellLinked(ns) && c < |ns|
    ensures var ms := ns[c := ns[c].(status := s)];
            WellLinked(ms) && forall q :: 0 <= q < |ns| ==> Kids(ms, q) == Kids(ns, q)
  {
    var ms := ns[c := ns[c].(status := s)];
    assert forall q :: 0 <= q < |ns| ==> Kids(ms, q) == Kids(ns, q);
    WellLinkedSameShape(ns, ms);
  }

  /** Attaching a detached node below an earlier one keeps the links consistent. */
  lemma AttachWellLinked(ns: seq<NodeData>, p: NodeId, c: NodeId)
    requires WellLinked(ns) && p < c < |ns| && Detached(ns, c)
    ensures WellLinked(Attach(ns, p, c))
  {
    var r := Attach(ns, p, c);
    forall q | 0 <= q < |r| && q != p ensures Kids(r, q) == Kids(ns, q) {
    }
    forall q | 0 <= q < |r| ensures KidsLinked(r, q) && ParentBefore(r, q) {
      forall j | 0 <= j < |Kids(r, q)|
        ensures q < Kids(r, q)[j] < |r| && r[Kids(r, q)[j]].parent == Some(q)
      {
        var k := Kids(r, q)[j];
        if q == p && j == |Kids(ns, p)| {
          assert k == c;
        } else {
          assert k == Kids(ns, q)[j];
          KidAt(ns, q, j);
          assert k != c;
        }
      }
      ParentEarlier(ns, q);
    }
  }

  /** Replacing a children list by some of its own members keeps the links consistent. */
  lemma SubKidsWellLinked(ns: seq<NodeData>, p: NodeId, ks: seq<NodeId>)
    requires WellLinked(ns) && p < |ns|
    requires forall k :: 0 <= k < |ks| ==> ks[k] in Kids(ns, p)
    ensures WellLinked(ns[p := ns[p].(children := Some(ks))])
  {
    var r := ns[p := ns[p].(children := Some(ks))];
    assert Kids(r, p) == ks;
    forall q | 0 <= q < |r| && q != p ensures Kids(r, q) == Kids(ns, q) {
    }
    forall q | 0 <= q < |r| ensures KidsLinked(r, q) && ParentBefore(r, q) {
      if q == p {
        forall k | 0 <= k < |ks| ensures p < ks[k] < |r| && r[ks[k]].parent == Some(p) {
          KidParent(ns, p, ks[k]);
        }
      } else {
        assert KidsLinked(ns, q);
      }
      ParentEarlier(ns, q);
    }
  }

  lemma SameShapeTrans(a: seq<NodeData>, b: seq<NodeData>, c: seq<NodeData>)
    requires SameShape(a, b) && SameShape(b, c)
    ensures SameShape(a, c)
  {
  }

  /** A detached slot may take a record whose parent is earlier and whose
      children lie after it and point back to it. */
  lemma FillWellLinked(ns: seq<NodeData>, r: NodeId, d: NodeData)
    requires WellLinked(ns) && r < |ns| && Detached(ns, r)
    requires d.parent.Some? ==> d.parent.value < r
    requires d.children.Some? ==> forall j :: 0 <= j < |d.children.value| ==>
      r < d.children.value[j] < |ns| && ns[d.children.value[j]].parent == Some(r)
    ensures WellLinked(ns[r := d]) && Detached(ns[r := d], r)
  {
    var ms := ns[r := d];
    forall q | 0 <= q < |ms| && q != r ensures Kids(ms, q) == Kids(ns, q) {
    }
    forall q | 0 <= q < |ms| ensures KidsLinked(ms, q) && ParentBefore(ms, q) {
      forall j | 0 <= j < |Kids(ms, q)|
        ensures q < Kids(ms, q)[j] < |ms| && ms[Kids(ms, q)[j]].parent == Some(q)
      {
        if q != r {
          KidAt(ns, q, j);
          assert Kids(ms, q)[j] in Kids(ns, q);
        }
      }
      ParentEarlier(ns, q);
    }
  }
}
