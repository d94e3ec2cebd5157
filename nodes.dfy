/** The node tree of src/file_tree/node/node.rs as a mutable arena: the
    `Rc<RefCell<NodeData>>` nodes become slots of one sequence, a child pointer
    becomes a slot id and the `Weak` parent pointer an id too. The methods of
    `Node` are methods of the arena that take the receiver's id. */
module Nodes {

  import opened Base
  import opened FieldMask
  import opened NodeDatas
  import opened Paths
  import opened Forest
  import opened Sorting
  import opened Subtrees
  import opened TreeEntries
  import opened Views
  import opened Scan
  import opened Reconcile
  import Text

  // ---------------------------------------------------------------------------
  // Specifications of the edits

  /** `retain(|child| child.file != file)` over a children list: the children
      not named `name`, in their order. */
  function Retain(ns: seq<NodeData>, ids: seq<NodeId>, name: string): (r: seq<NodeId>)
    requires InArena(ns, ids)
    ensures InArena(ns, r) && |r| <= |ids|
    ensures forall k :: 0 <= k < |r| ==> r[k] in ids && ns[r[k]].file != name
    ensures forall k :: 0 <= k < |ids| && ns[ids[k]].file != name ==> ids[k] in r
  {
    if ids == [] then []
    else
      var last := ids[|ids| - 1];
      var front := ids[..|ids| - 1];
      assert forall k :: 0 <= k < |front| ==> front[k] == ids[k];
      Retain(ns, front, name) + (if ns[last].file != name then [last] else [])
  }

  /** The arena after `remove_child(name)` on node `p`: its children named
      `name` are dropped; no children list stays none and an emptied list stays
      an empty list. */
  function RemoveChildResult(ns: seq<NodeData>, p: NodeId, name: string): (r: seq<NodeData>)
    requires WellLinked(ns) && p < |ns|
    ensures |r| == |ns| && WellLinked(r)
    ensures forall x :: 0 <= x < |ns| && x != p ==> r[x] == ns[x]
    ensures InArena(r, Kids(r, p)) && forall k :: 0 <= k < |Kids(r, p)| ==> r[Kids(r, p)[k]].file != name
    ensures forall k :: 0 <= k < |Kids(r, p)| ==> Kids(r, p)[k] in Kids(ns, p)
    ensures InArena(ns, Kids(ns, p))
    ensures forall k :: 0 <= k < |Kids(ns, p)| && ns[Kids(ns, p)[k]].file != name ==> Kids(ns, p)[k] in Kids(r, p)
  {
    KidsInArena(ns, p);
    if ns[p].children.None? then ns
    else
      var ks := Retain(ns, Kids(ns, p), name);
      SubKidsWellLinked(ns, p, ks);
      var r := ns[p := ns[p].(children := Some(ks))];
      assert Kids(r, p) == ks;
      r
  }

  /** After `remove_child(name)` the node has no child of that name. */
  lemma RemoveChildRemoves(ns: seq<NodeData>, p: NodeId, name: string)
    requires WellLinked(ns) && p < |ns|
    ensures ChildNamed(RemoveChildResult(ns, p, name), p, name).None?
  {
  }

  /** The arena after `remove(path)` from node `i`: when the path has a file
      name and its parent directory resolves, that directory's children of that
      name are removed; otherwise nothing changes. */
  function RemoveResult(ns: seq<NodeData>, i: NodeId, path: Path): (r: seq<NodeData>)
    requires WellLinked(ns) && i < |ns|
    ensures |r| == |ns| && WellLinked(r)
  {
    if FileName(path).Some? && Resolve(ns, i, Parent(path).value).Some? then
      RemoveChildResult(ns, Resolve(ns, i, Parent(path).value).value, FileName(path).value)
    else ns
  }

  /** `remove` leaves the resolved directory without a child of that name, and
      is a no-op when the path has no file name or its directory does not resolve. */
  lemma RemoveRemoves(ns: seq<NodeData>, i: NodeId, path: Path)
    requires WellLinked(ns) && i < |ns|
    ensures FileName(path).Some? && Resolve(ns, i, Parent(path).value).Some? ==>
            ChildNamed(RemoveResult(ns, i, path), Resolve(ns, i, Parent(path).value).value, FileName(path).value).None?
    ensures !(FileName(path).Some? && Resolve(ns, i, Parent(path).value).Some?) ==> RemoveResult(ns, i, path) == ns
  {
    if FileName(path).Some? && Resolve(ns, i, Parent(path).value).Some? {
      RemoveChildRemoves(ns, Resolve(ns, i, Parent(path).value).value, FileName(path).value);
    }
  }

  /** The directory `create` resolves: the path's parent, or "." when it has none. */
  function DirOf(path: Path): Path
  {
    if Parent(path).Some? then Parent(path).value else [CurDir]
  }

  /** Whether `create(path, data)` from node `i` succeeds: the directory resolves,
      the path has a file name and the directory has no child of that name. */
  predicate CreateSucceeds(ns: seq<NodeData>, i: NodeId, path: Path)
    requires WellLinked(ns) && i < |ns|
  {
    && Resolve(ns, i, DirOf(path)).Some?
    && FileName(path).Some?
    && ChildNamed(ns, Resolve(ns, i, DirOf(path)).value, FileName(path).value).None?
  }

  /** The arena after a successful `create`: a new node holding `data` under the
      file name is appended to the children of the receiver `i` (not of the
      directory that was checked), and its parent is `i`. */
  function CreateResult(ns: seq<NodeData>, i: NodeId, path: Path, data: NodeData): (r: seq<NodeData>)
    requires WellLinked(ns) && i < |ns| && CreateSucceeds(ns, i, path) && data.children.None?
    ensures |r| == |ns| + 1 && WellLinked(r)
    ensures r[|ns|].file == FileName(path).value && r[|ns|].parent == Some(i)
    ensures Kids(r, i) == Kids(ns, i) + [|ns|]
    ensures forall x :: 0 <= x < |ns| && x != i ==> r[x] == ns[x]
    ensures r[|ns|] == data.(file := FileName(path).value, parent := Some(i))
  {
    var d := data.(file := FileName(path).value, parent := Some(Resolve(ns, i, DirOf(path)).value));
    AppendWellLinked(ns, d);
    var grown := ns + [d];
    assert Kids(grown, i) == Kids(ns, i);
    AttachWellLinked(grown, i, |ns|);
    Attach(grown, i, |ns|)
  }

  /** With the receiver as the directory (a bare file name), the created node is
      found again by `get`. */
  lemma CreateThenGet(ns: seq<NodeData>, i: NodeId, name: string, data: NodeData)
    requires WellLinked(ns) && i < |ns| && data.children.None?
    requires CreateSucceeds(ns, i, [Normal(name)])
    ensures Resolve(CreateResult(ns, i, [Normal(name)], data), i, [Normal(name)]) == Some(|ns|)
  {
    var path := [Normal(name)];
    assert DirOf(path) == [];
    NewKidFound(ns, CreateResult(ns, i, path, data), i, name);
    assert path[1..] == [];
  }

  /** A node appended as the last child, when no earlier child has its name, is
      the child found by that name. */
  lemma NewKidFound(ns: seq<NodeData>, r: seq<NodeData>, i: NodeId, name: string)
    requires WellLinked(ns) && WellLinked(r) && i < |ns| < |r|
    requires Kids(r, i) == Kids(ns, i) + [|ns|] && r[|ns|].file == name
    requires forall x :: 0 <= x < |ns| && x != i ==> r[x] == ns[x]
    requires ChildNamed(ns, i, name).None?
    ensures ChildNamed(r, i, name) == Some(|ns|)
  {
    var ks := Kids(ns, i);
    KidsInArena(ns, i);
    forall k | 0 <= k < |ks| ensures r[ks[k]].file != name {
      KidParent(ns, i, ks[k]);
    }
    FirstNamedIsLast(r, i, |ns|, name);
  }

  /** A node whose last child is the only one named `name` finds that child. */
  lemma FirstNamedIsLast(r: seq<NodeData>, i: NodeId, c: NodeId, name: string)
    requires WellLinked(r) && i < |r| && c < |r| && r[i].children.Some?
    requires |Kids(r, i)| > 0 && Kids(r, i)[|Kids(r, i)| - 1] == c && r[c].file == name
    requires forall k :: 0 <= k < |Kids(r, i)| - 1 ==> Kids(r, i)[k] < |r| && r[Kids(r, i)[k]].file != name
    ensures ChildNamed(r, i, name) == Some(c)
  {
    KidsInArena(r, i);
    var rk := Kids(r, i);
    var pos := Position(r, rk, name);
    assert pos == Some(|rk| - 1);
    assert ChildIdx(r, i, name) == pos;
  }

  /** The quirk of `create` (node.rs:473): when the directory is another node,
      the new node goes to the receiver, so the directory still has no child of
      that name and `get(path)` still fails. */
  lemma CreateMisplaces(ns: seq<NodeData>, i: NodeId, path: Path, data: NodeData)
    requires WellLinked(ns) && i < |ns| && CreateSucceeds(ns, i, path) && data.children.None?
    requires Resolve(ns, i, DirOf(path)).value != i
    ensures ChildNamed(CreateResult(ns, i, path, data), Resolve(ns, i, DirOf(path)).value, FileName(path).value).None?
  {
    var d := Resolve(ns, i, DirOf(path)).value;
    var r := CreateResult(ns, i, path, data);
    assert Kids(r, d) == Kids(ns, d);
    var ks := Kids(ns, d);
    KidsInArena(ns, d);
    forall k | 0 <= k < |ks| ensures r[ks[k]].file != FileName(path).value {
      KidParent(ns, d, ks[k]);
    }
  }

  /** What `find_and_compare_ext` answers: the mask of differences between the
      node that the template's full path leads to from `i` and the template,
      or NODE_NOT_EXISTS when the path does not resolve. */
  function FindAndCompare(ns: seq<NodeData>, i: NodeId, template: seq<NodeData>, t: NodeId, bitflag: Mask): Mask
    requires WellLinked(ns) && i < |ns| && WellLinked(template) && t < |template|
  {
    match Resolve(ns, i, GetFullPath(template, t))
    case None => NODE_NOT_EXISTS
    case Some(j) => CompareExt(ns[j], template[t], bitflag)
  }

  /** The answer is NODE_NOT_EXISTS exactly when the path does not resolve, and
      otherwise only selected key fields. */
  lemma FindAndCompareCases(ns: seq<NodeData>, i: NodeId, template: seq<NodeData>, t: NodeId, bitflag: Mask)
    requires WellLinked(ns) && i < |ns| && WellLinked(template) && t < |template|
    ensures var r := FindAndCompare(ns, i, template, t, bitflag);
            && (r == NODE_NOT_EXISTS <==> Resolve(ns, i, GetFullPath(template, t)).None?)
            && (r != NODE_NOT_EXISTS ==> r <= bitflag * KEY_FIELDS)
  {
    match Resolve(ns, i, GetFullPath(template, t))
    case None =>
    case Some(j) =>
      var r := CompareExt(ns[j], template[t], bitflag);
      assert NotExists !in KEY_FIELDS && NotExists in NODE_NOT_EXISTS;
      assert NotExists !in r;
  }

  /** A node compared against its own tree, from the top, is found and shows no
      difference. */
  lemma FindAndCompareSelf(ns: seq<NodeData>, t: NodeId, bitflag: Mask)
    requires WellLinked(ns) && t < |ns| && Addressable(ns, t) && TopNameSkipped(ns[Top(ns, t)].file)
    ensures FindAndCompare(ns, Top(ns, t), ns, t, bitflag) == NODE_NONE
  {
    FullPathResolves(ns, t);
    CompareExtReflexiveSymmetric(ns[t], ns[t], bitflag);
  }

  // ---------------------------------------------------------------------------
  // The arena

  class Arena {

    /** The slots; a node's id is its index. */
    var nodes: seq<NodeData>

    predicate Valid()
      reads this
    {
      WellLinked(nodes)
    }

    /** `Node::new(file, None)` as the first node of an empty arena. */
    constructor (file: string)
      ensures nodes == [NewData(file, None)] && Valid()
    {
      nodes := [NewData(file, None)];
    }

    /** A fresh node holding `data`, not yet in any children list (`Rc::new`
        of a `NodeData`). */
    method Push(data: NodeData) returns (id: NodeId)
      requires Valid() && data.children.None? && (data.parent.Some? ==> data.parent.value < |nodes|)
      modifies this
      ensures nodes == old(nodes) + [data] && id == old(|nodes|)
      ensures Valid() && Detached(nodes, id)
    {
      AppendWellLinked(nodes, data);
      id := |nodes|;
      nodes := nodes + [data];
    }

    /** `add_child`: the child's parent becomes `p` and the child is appended
        as the last of `p`'s children, which start as `[c]` when `p` had no
        children list. */
    method AddChild(p: NodeId, c: NodeId)
      requires Valid() && p < c < |nodes| && Detached(nodes, c)
      modifies this
      ensures nodes == Attach(old(nodes), p, c)
      ensures Valid() && Kids(nodes, p) == Kids(old(nodes), p) + [c]
    {
      AttachWellLinked(nodes, p, c);
      nodes := nodes[c := nodes[c].(parent := Some(p))];
      if nodes[p].children.Some? {
        nodes := nodes[p := nodes[p].(children := Some(nodes[p].children.value + [c]))];
      } else {
        assert Kids(old(nodes), p) + [c] == [c];
        nodes := nodes[p := nodes[p].(children := Some([c]))];
      }
    }

    /** `get_child`: the first child named `name`. */
    method GetChild(p: NodeId, name: string) returns (r: Option<NodeId>)
      requires Valid() && p < |nodes|
      ensures r == ChildNamed(nodes, p, name)
    {
      if nodes[p].children.Some? {
        var ks := Kids(nodes, p);
        KidsInArena(nodes, p);
        var k := 0;
        while k < |ks|
          invariant 0 <= k <= |ks|
          invariant forall j :: 0 <= j < k ==> nodes[ks[j]].file != name
        {
          if nodes[ks[k]].file == name {
            return Some(ks[k]);
          }
          k := k + 1;
        }
      }
      return None;
    }

    /** `get_child_idx`: the index of the first child named `name`. */
    method GetChildIdx(p: NodeId, name: string) returns (r: Option<nat>)
      requires Valid() && p < |nodes|
      ensures r == ChildIdx(nodes, p, name)
    {
      if nodes[p].children.Some? {
        var ks := Kids(nodes, p);
        KidsInArena(nodes, p);
        var k := 0;
        while k < |ks|
          invariant 0 <= k <= |ks|
          invariant forall j :: 0 <= j < k ==> nodes[ks[j]].file != name
        {
          if nodes[ks[k]].file == name {
            return Some(k);
          }
          k := k + 1;
        }
      }
      return None;
    }

    /** `get`: a cursor starts at `i` and follows the path's components. */
    method Get(i: NodeId, path: Path) returns (r: Option<NodeId>)
      requires Valid() && i < |nodes|
      ensures r == Resolve(nodes, i, path)
    {
      var root: NodeId := i;
      var k: nat := 0;
      while k < |path|
        invariant 0 <= k <= |path| && root < |nodes|
        invariant Resolve(nodes, i, path) == Resolve(nodes, root, path[k..])
      {
        assert path[k..][0] == path[k] && path[k..][1..] == path[k + 1..];
        match path[k] {
          case CurDir =>
          case Normal(name) =>
            var child := GetChild(root, name);
            if child.None? {
              return None;
            }
            root := child.value;
          case _ =>
            return None;
        }
        k := k + 1;
      }
      assert path[k..] == [];
      return Some(root);
    }

    /** `exists`: whether `get` finds the path. */
    method Exists(i: NodeId, path: Path) returns (b: bool)
      requires Valid() && i < |nodes|
      ensures b <==> Resolve(nodes, i, path).Some?
    {
      var r := Get(i, path);
      b := r.Some?;
    }

    /** `children_num`: the length of the children list, zero without one. */
    method ChildrenNum(i: NodeId) returns (n: nat)
      requires Valid() && i < |nodes|
      ensures n == |Kids(nodes, i)|
      ensures n == 0 <==> nodes[i].children.None? || nodes[i].children.value == []
    {
      match nodes[i].children
      case Some(ks) => n := |ks|;
      case None => n := 0;
    }

    /** `remove_child`: the children named `name` are dropped, the others keep
        their order. */
    method RemoveChild(p: NodeId, name: string)
      requires Valid() && p < |nodes|
      modifies this
      ensures nodes == RemoveChildResult(old(nodes), p, name) && Valid()
    {
      if nodes[p].children.Some? {
        var ks := Kids(nodes, p);
        KidsInArena(nodes, p);
        var kept: seq<NodeId> := [];
        var k := 0;
        while k < |ks|
          invariant 0 <= k <= |ks|
          invariant InArena(nodes, ks[..k]) && kept == Retain(nodes, ks[..k], name)
        {
          assert ks[..k + 1][..k] == ks[..k];
          if nodes[ks[k]].file != name {
            kept := kept + [ks[k]];
          }
          k := k + 1;
        }
        assert ks[..k] == ks;
        nodes := nodes[p := nodes[p].(children := Some(kept))];
      }
    }

    /** `remove`: removes the children named after the path's file name from the
        node its parent directory resolves to; always answers `Some(())`. */
    method Remove(i: NodeId, path: Path) returns (r: Option<()>)
      requires Valid() && i < |nodes|
      modifies this
      ensures r == Some(()) && nodes == RemoveResult(old(nodes), i, path) && Valid()
    {
      if FileName(path).Some? {
        FileNameHasParent(path);
        var dir := Get(i, Parent(path).value);
        if dir.Some? {
          RemoveChild(dir.value, FileName(path).value);
        }
      }
      r := Some(());
    }

    /** `create`: checks the directory and the name, then appends the node to
        the receiver's children (node.rs:473). */
    method Create(i: NodeId, path: Path, data: NodeData) returns (r: Option<()>)
      requires Valid() && i < |nodes| && data.children.None?
      modifies this
      ensures r.Some? <==> CreateSucceeds(old(nodes), i, path)
      ensures r.Some? ==> nodes == CreateResult(old(nodes), i, path, data)
      ensures r.None? ==> nodes == old(nodes)
      ensures Valid()
    {
      var dir := Get(i, DirOf(path));
      if dir.None? {
        return None;
      }
      if FileName(path).None? {
        return None;
      }
      var file := FileName(path).value;
      var existing := GetChild(dir.value, file);
      if existing.Some? {
        return None;
      }
      var c := Push(data.(file := file, parent := Some(dir.value)));
      AddChild(i, c);
      r := Some(());
    }

    /** `clear_ext`: the selected clearable attributes of the node are unset
        and, when recursive, those of every node below it, child by child. */
    method ClearExt(i: NodeId, bitflag: Mask, recursive: bool)
      requires Valid() && i < |nodes|
      modifies this
      ensures nodes == Cleared(old(nodes), i, bitflag, recursive) && Valid()
      decreases |nodes| - i
    {
      ghost var ns0 := nodes;
      var d := ClearRecord(nodes[i], bitflag);
      nodes := nodes[i := d];
      if recursive && d.children.Some? {
        ClearStart(ns0, i, bitflag);
        var ks := d.children.value;
        var k := 0;
        while k < |ks|
          invariant 0 <= k <= |ks| && ks == Kids(ns0, i) && Valid()
          invariant ClearedUpTo(ns0, nodes, i, ks[..k], bitflag) && SameLinks(ns0, nodes)
        {
          ghost var cur := nodes;
          var c := ks[k];
          KidParent(ns0, i, c);
          ClearStep(ns0, cur, i, ks[..k], c, bitflag);
          ClearExt(c, bitflag, recursive);
          TakeOneMore(ks, k);
          k := k + 1;
        }
        TakeAll(ks);
        ClearWalked(ns0, nodes, i, bitflag);
      } else {
        ClearLeaf(ns0, i, bitflag, recursive);
      }
    }

    /** The attribute part of `clear_ext` on one record. */
    static method ClearRecord(d: NodeData, bitflag: Mask) returns (d': NodeData)
      ensures d' == ClearData(d, bitflag)
    {
      ghost var c := ClearData(d, bitflag);
      var desc, sha256, status, modified, accessed, created, size, fileType, tags, children :=
        d.desc, d.sha256, d.status, d.modified, d.accessed, d.created, d.size, d.fileType, d.tags, d.children;
      if Desc in bitflag { desc := None; }
      assert desc == c.desc;
      if Sha256 in bitflag { sha256 := None; }
      assert sha256 == c.sha256;
      if Status in bitflag { status := None; }
      assert status == c.status;
      if Modified in bitflag { modified := None; }
      assert modified == c.modified;
      if Accessed in bitflag { accessed := None; }
      assert accessed == c.accessed;
      if Created in bitflag { created := None; }
      assert created == c.created;
      if Size in bitflag { size := None; }
      assert size == c.size;
      if FileType in bitflag { fileType := None; }
      assert fileType == c.fileType;
      if Tags in bitflag { tags := None; }
      assert tags == c.tags;
      if Children in bitflag { children := None; }
      assert children == c.children;
      d' := d.(desc := desc, sha256 := sha256, status := status, modified := modified, accessed := accessed,
               created := created, size := size, fileType := fileType, tags := tags, children := children);
    }

    /** `sort_ext`: the node's children are put in `cmp_ext` order, then each
        child is sorted the same way. */
    method SortExt(i: NodeId, bitflag: Mask)
      requires Valid() && i < |nodes| && SortField(bitflag).Some?
      modifies this
      ensures nodes == SortedTree(old(nodes), i, bitflag) && Valid()
      decreases |nodes| - i
    {
      ghost var ns0 := nodes;
      if nodes[i].children.Some? {
        KidsInArena(nodes, i);
        var ks := SortIds(nodes, Kids(nodes, i), bitflag);
        nodes := nodes[i := nodes[i].(children := Some(ks))];
        SortStart(ns0, i, bitflag);
        assert nodes == ns0[i := SortedSlot(ns0, i, bitflag)];
        var k := 0;
        while k < |ks|
          invariant 0 <= k <= |ks| && multiset(ks) == multiset(Kids(ns0, i))
          invariant SortedUpTo(ns0, nodes, i, ks[..k], bitflag)
        {
          ghost var cur := nodes;
          var c := ks[k];
          assert c in multiset(Kids(ns0, i));
          SortStepAt(ns0, cur, i, ks, k, bitflag);
          SortExt(c, bitflag);
          k := k + 1;
        }
        TakeAll(ks);
        SortWalked(ns0, nodes, i, ks, bitflag);
      } else {
        SortLeaf(ns0, i, bitflag);
      }
    }

    /** `update_ext`: the selected updatable attributes take the origin's values. */
    method UpdateExt(i: NodeId, origin: NodeData, bitflag: Mask)
      requires Valid() && i < |nodes|
      modifies this
      ensures nodes == old(nodes)[i := UpdateExtData(old(nodes)[i], origin, bitflag)] && Valid()
    {
      var d := nodes[i];
      var desc, sha256, status, modified, accessed, created, size, fileType, tags, comment :=
        d.desc, d.sha256, d.status, d.modified, d.accessed, d.created, d.size, d.fileType, d.tags, d.comment;
      if Desc in bitflag { desc := origin.desc; }
      if Sha256 in bitflag { sha256 := origin.sha256; }
      if Status in bitflag { status := origin.status; }
      if Modified in bitflag { modified := origin.modified; }
      if Accessed in bitflag { accessed := origin.accessed; }
      if Created in bitflag { created := origin.created; }
      if Size in bitflag { size := origin.size; }
      if FileType in bitflag { fileType := origin.fileType; }
      if Tags in bitflag { tags := origin.tags; }
      if Comment in bitflag { comment := origin.comment; }
      d := d.(desc := desc, sha256 := sha256, status := status, modified := modified, accessed := accessed,
              created := created, size := size, fileType := fileType, tags := tags, comment := comment);
      Relabel(i, d);
    }

    /** `update`: each of the eight attributes that differs from the origin is
        copied and its flag added to the answer. */
    method Update(i: NodeId, origin: NodeData) returns (r: Mask)
      requires Valid() && i < |nodes|
      modifies this
      ensures r == CompareExt(old(nodes)[i], origin, UPDATE_FIELDS)
      ensures nodes == old(nodes)[i := UpdateExtData(old(nodes)[i], origin, UPDATE_FIELDS)] && Valid()
    {
      var d;
      d, r := UpdateData(nodes[i], origin);
      UpdateFieldsCopied(old(nodes)[i], origin);
      Relabel(i, d);
    }

    /** `copy_ext`, as written: NODE_DESC copies the name, not the description
        (node.rs:421-422). */
    method CopyExt(i: NodeId, origin: NodeData, bitflag: Mask)
      requires Valid() && i < |nodes|
      modifies this
      ensures nodes == old(nodes)[i := CopyExtData(old(nodes)[i], origin, bitflag)] && Valid()
    {
      var d := nodes[i];
      var file, tags, sha256, status, modified, accessed, created, size, fileType :=
        d.file, d.tags, d.sha256, d.status, d.modified, d.accessed, d.created, d.size, d.fileType;
      if Name in bitflag { file := origin.file; }
      if Desc in bitflag { file := origin.file; }
      if Tags in bitflag { tags := origin.tags; }
      if Sha256 in bitflag { sha256 := origin.sha256; }
      if Status in bitflag { status := origin.status; }
      if Modified in bitflag { modified := origin.modified; }
      if Accessed in bitflag { accessed := origin.accessed; }
      if Created in bitflag { created := origin.created; }
      if Size in bitflag { size := origin.size; }
      if FileType in bitflag { fileType := origin.fileType; }
      d := d.(file := file, tags := tags, sha256 := sha256, status := status, modified := modified,
              accessed := accessed, created := created, size := size, fileType := fileType);
      Relabel(i, d);
    }

    /** Stores a record with the same links in slot `i`. */
    method Relabel(i: NodeId, d: NodeData)
      requires Valid() && i < |nodes| && d.parent == nodes[i].parent && d.children == nodes[i].children
      modifies this
      ensures nodes == old(nodes)[i := d] && Valid()
    {
      ghost var ns0 := nodes;
      nodes := nodes[i := d];
      assert SameLinks(ns0, nodes);
      SameLinksSameShape(ns0, nodes);
      WellLinkedSameShape(ns0, nodes);
    }

    /** Stores a record with new attributes and children in a detached slot. */
    method Fill(r: NodeId, d: NodeData)
      requires Valid() && r < |nodes| && Detached(nodes, r)
      requires d.parent.Some? ==> d.parent.value < r
      requires d.children.Some? ==> forall j :: 0 <= j < |d.children.value| ==>
        r < d.children.value[j] < |nodes| && nodes[d.children.value[j]].parent == Some(r)
      modifies this
      ensures nodes == old(nodes)[r := d] && Valid() && Detached(nodes, r)
    {
      FillWellLinked(nodes, r, d);
      nodes := nodes[r := d];
    }

    /** `find_and_compare_ext`: the node at the template's full path, compared
        with the template; NODE_NOT_EXISTS when the path does not resolve. */
    method FindAndCompareExt(i: NodeId, template: seq<NodeData>, t: NodeId, bitflag: Mask) returns (r: Mask)
      requires Valid() && i < |nodes| && WellLinked(template) && t < |template|
      ensures r == FindAndCompare(nodes, i, template, t, bitflag)
    {
      var path := GetFullPath(template, t);
      var found := Get(i, path);
      if found.Some? {
        r := CompareExt(nodes[found.value], template[t], bitflag);
      } else {
        r := NODE_NOT_EXISTS;
      }
    }

    /** `process_template`: the node's line, then the lines of each child's
        subtree one level deeper under the extended prefixes. */
    method ProcessTemplate(tte: PrefixBranch, i: NodeId, level: nat, index: nat, size: nat,
                           prefixes: string, bitflag: Mask) returns (r: Option<seq<string>>)
      requires Valid() && i < |nodes|
      ensures r == Some(Render(nodes, tte, i, level, index, size, prefixes, bitflag))
      decreases |nodes| - i
    {
      var (prefix, branch) := tte(level, index, size);
      var entry := Text.ToColoredString(nodes[i], bitflag);
      var v := [prefixes + branch + entry + "\n"];
      var pre := prefixes + prefix;
      ghost var line := Line(nodes, tte, i, level, index, size, prefixes, bitflag);
      assert v == [line] + RenderKids(nodes, tte, i, level, pre, bitflag, 0);
      if nodes[i].children.Some? {
        var ks := Kids(nodes, i);
        var k := 0;
        while k < |ks|
          invariant 0 <= k <= |ks|
          invariant v == [line] + RenderKids(nodes, tte, i, level, pre, bitflag, k)
        {
          RenderKidsStep(nodes, tte, i, level, pre, bitflag, k);
          KidAt(nodes, i, k);
          var c := ProcessTemplate(tte, ks[k], level + 1, k, |ks|, pre, bitflag);
          if c.Some? {
            AppendAssoc([line], RenderKids(nodes, tte, i, level, pre, bitflag, k), c.value);
            v := v + c.value;
          }
          k := k + 1;
        }
      }
      return Some(v);
    }

    /** `add_path_ext`: every entry of the listing that is not ignored becomes
        a new node appended to the children of `i`. The first read error ends
        the walk with an error, keeping the nodes appended so far. */
    method AddPathExt(i: NodeId, dir: Listing, ignore: Option<seq<string>>, bitflag: Mask)
      returns (r: Result<()>, ghost ids: seq<NodeId>)
      requires Valid() && i < |nodes|
      modifies this
      ensures Valid() && Added(old(nodes), nodes, i, ids)
      ensures r.Ok? <==> Readable(dir, ignore)
      ensures r.Ok? ==> AddedAs(old(nodes), nodes, i, ids, ScanList(dir, ignore, bitflag))
      decreases dir, 1
    {
      ids := [];
      AddStart(nodes, i);
      if dir.Unreadable? {
        return Err("cannot read the directory"), ids;
      }
      var k := 0;
      while k < |dir.items|
        invariant 0 <= k <= |dir.items| && Valid() && ReadableUpTo(dir, k, ignore)
        invariant AddedAs(old(nodes), nodes, i, ids, ScanItems(dir, k, ignore, bitflag))
      {
        var res, cs := AddItem(i, dir, k, ignore, bitflag, old(nodes), ids);
        if res.Err? {
          assert !ItemReadable(dir.items[k], ignore);
          return Err("cannot read a directory entry"), ids;
        }
        ids := ids + cs;
        k := k + 1;
      }
      assert Readable(dir, ignore) && ScanList(dir, ignore, bitflag) == ScanItems(dir, k, ignore, bitflag);
      return Ok(()), ids;
    }

    /** One turn of the `add_path_ext` loop, on item `k` of the listing: an
        ignored entry adds nothing, any other one is added by `AddEntry`; a
        read error adds nothing and ends the walk. */
    method AddItem(i: NodeId, dir: Listing, k: nat, ignore: Option<seq<string>>, bitflag: Mask,
                   ghost n0: seq<NodeData>, ghost ids: seq<NodeId>)
      returns (r: Result<()>, ghost cs: seq<NodeId>)
      requires Valid() && i < |nodes| && ReadableUpTo(dir, k, ignore) && k < |dir.items|
      requires AddedAs(n0, nodes, i, ids, ScanItems(dir, k, ignore, bitflag))
      modifies this
      ensures Valid()
      ensures r.Ok? <==> ItemReadable(dir.items[k], ignore)
      ensures r.Ok? ==> ReadableUpTo(dir, k + 1, ignore)
                        && AddedAs(n0, nodes, i, ids + cs, ScanItems(dir, k + 1, ignore, bitflag))
      ensures r.Err? ==> Added(n0, nodes, i, ids)
      decreases dir, 0
    {
      cs := [];
      if dir.items[k].ItemError? {
        return Err("cannot read a directory entry"), cs;
      }
      var e := dir.items[k].entry;
      ghost var before := nodes;
      if !IsIgnore(e.name, ignore) {
        var res, c := AddEntry(i, e, ignore, bitflag);
        if res.Err? {
          AddedNothing(n0, before, nodes, i, ids, ScanItems(dir, k, ignore, bitflag));
          return Err("cannot read a directory entry"), cs;
        }
        cs := [c];
      }
      ItemStep(n0, before, nodes, i, ids, dir, k, ignore, bitflag, cs);
      return Ok(()), cs;
    }

    /** One entry of the `add_path_ext` loop: its node (`from_dir_entry_ext`)
        is allocated, walked into when the entry is a directory, then appended
        to the children of `i` (nothing is appended when the walk fails). */
    method AddEntry(i: NodeId, e: DirEntry, ignore: Option<seq<string>>, bitflag: Mask)
      returns (r: Result<()>, c: NodeId)
      requires Valid() && i < |nodes|
      modifies this
      ensures Valid()
      ensures r.Ok? <==> !e.isDir || Readable(e.contents, ignore)
      ensures r.Ok? ==> AddedAs(old(nodes), nodes, i, [c], [ScanEntry(e, ignore, bitflag)])
      ensures r.Err? ==> AddedAs(old(nodes), nodes, i, [], [])
      decreases e, 0
    {
      ghost var before := nodes;
      c := Push(FromDirEntryExt(e, bitflag));
      ghost var cids: seq<NodeId> := [];
      if e.isDir {
        var res;
        res, cids := AddPathExt(c, e.contents, ignore, bitflag);
        if res.Err? {
          EntryFailed(before, nodes, i, c, FromDirEntryExt(e, bitflag), cids);
          return Err("cannot read a directory entry"), c;
        }
      }
      EntryAdded(before, nodes, i, c, e, ignore, bitflag, cids);
      AddChild(i, c);
      return Ok(()), c;
    }

    /** `node.borrow_mut().status = s`. */
    method SetStatus(c: NodeId, s: Option<Mask>)
      requires Valid() && c < |nodes|
      modifies this
      ensures nodes == old(nodes)[c := old(nodes)[c].(status := s)] && Valid()
      ensures forall q :: 0 <= q < |nodes| ==> Kids(nodes, q) == Kids(old(nodes), q)
    {
      StatusKeepsLinks(nodes, c, s);
      nodes := nodes[c := nodes[c].(status := s)];
    }

    /** `fill_compare_status`: each listed entry that is not ignored is matched
        by name against the children of `i`. A matched child is walked into
        when the entry is a directory and gets as status its differences from
        the entry; an unmatched entry becomes a new node, walked into when a
        directory, marked NODE_UNTRACKED and appended to the children of `i`.
        The first read error ends the walk with an error, keeping what was
        written so far. Only `i` and the subtrees of its children named in the
        listing change; with distinct names (a real directory), every new node
        is marked NODE_UNTRACKED and each entry's status lands on the node of
        its name. */
    method FillCompareStatus(i: NodeId, dir: Listing, ignore: Option<seq<string>>, bitflag: Mask)
      returns (r: Result<()>)
      requires Valid() && i < |nodes|
      modifies this
      ensures Valid() && Compared(old(nodes), nodes, bitflag) && Untouched(old(nodes), nodes, i)
      ensures Framed(old(nodes), nodes, i, ListedNames(dir, ignore))
      ensures r.Ok? <==> Readable(dir, ignore)
      ensures r.Ok? ==> Readable(dir, ignore) && Covered(nodes, i, dir, |dir.items|, ignore, bitflag)
      ensures r.Ok? ==> Placed(nodes, old(|nodes|), i, ListedNames(dir, ignore))
      ensures r.Ok? && DistinctNames(dir) ==>
                && (forall x :: old(|nodes|) <= x < |nodes| ==> nodes[x].status == Some(NODE_UNTRACKED))
                && CoveredExact(old(nodes), nodes, i, dir, |dir.items|, ignore, bitflag)
      decreases dir, 2
    {
      CompareStart(nodes, bitflag);
      if dir.Unreadable? {
        return Err("cannot read the directory");
      }
      FillStart(nodes, i, dir, ignore, bitflag);
      var k := 0;
      while k < |dir.items|
        invariant 0 <= k <= |dir.items| && Valid() && i < |nodes| && ReadableUpTo(dir, k, ignore)
        invariant FillDone(old(nodes), nodes, i, dir, k, ignore, bitflag)
        invariant Covered(nodes, i, dir, k, ignore, bitflag)
      {
        var res := CompareItem(i, dir, k, ignore, bitflag, old(nodes));
        if res.Err? {
          assert !ItemReadable(dir.items[k], ignore);
          return Err("cannot read a directory entry");
        }
        k := k + 1;
      }
      return Ok(());
    }

    /** One turn of the `fill_compare_status` loop, on item `k` of the
        listing: an ignored entry changes nothing, any other one is compared by
        `CompareEntry`; a read error ends the walk. */
    method CompareItem(i: NodeId, dir: Listing, k: nat, ignore: Option<seq<string>>, bitflag: Mask,
                       ghost n0: seq<NodeData>)
      returns (r: Result<()>)
      requires Valid() && WellLinked(n0) && i < |n0| && ReadableUpTo(dir, k, ignore) && k < |dir.items|
      requires FillDone(n0, nodes, i, dir, k, ignore, bitflag) && Covered(nodes, i, dir, k, ignore, bitflag)
      modifies this
      ensures Valid() && i < |nodes|
      ensures r.Ok? <==> ItemReadable(dir.items[k], ignore)
      ensures r.Ok? ==> && ReadableUpTo(dir, k + 1, ignore)
                        && FillDone(n0, nodes, i, dir, k + 1, ignore, bitflag)
                        && Covered(nodes, i, dir, k + 1, ignore, bitflag)
      ensures r.Err? ==> && Compared(n0, nodes, bitflag) && Untouched(n0, nodes, i)
                         && Framed(n0, nodes, i, NamesUpTo(dir, |dir.items|, ignore))
      decreases dir, 1
    {
      if dir.items[k].ItemError? {
        FillErred(n0, nodes, i, dir, k, ignore, bitflag);
        return Err("cannot read a directory entry");
      }
      var e := dir.items[k].entry;
      ghost var before := nodes;
      if !IsIgnore(e.name, ignore) {
        var res := CompareEntry(i, e, ignore, bitflag);
        if res.Err? {
          FillStopped(n0, before, nodes, i, dir, k, ignore, bitflag);
          return Err("cannot read a directory entry");
        }
        FillStep(n0, before, nodes, i, dir, k, ignore, bitflag);
        CoveredKept(before, nodes, i, dir, k, ignore, bitflag);
      } else {
        FillSkip(n0, nodes, i, dir, k, ignore, bitflag);
      }
      CoveredStep(nodes, i, dir, k, ignore, bitflag);
      return Ok(());
    }

    /** One entry of the `fill_compare_status` loop: it changes only `i` and
        what lies below the children of `i` of the entry's name. */
    method CompareEntry(i: NodeId, e: DirEntry, ignore: Option<seq<string>>, bitflag: Mask)
      returns (r: Result<()>)
      requires Valid() && i < |nodes|
      modifies this
      ensures Valid() && Compared(old(nodes), nodes, bitflag) && Untouched(old(nodes), nodes, i)
      ensures Framed(old(nodes), nodes, i, {e.name})
      ensures r.Ok? <==> !e.isDir || Readable(e.contents, ignore)
      ensures r.Ok? ==> ChildNamed(nodes, i, e.name).Some?
                        && StatusMark(nodes[ChildNamed(nodes, i, e.name).value].status, bitflag)
      ensures r.Ok? ==> Placed(nodes, old(|nodes|), i, {e.name})
      ensures r.Ok? && EntryDistinct(e) ==>
                forall x :: old(|nodes|) <= x < |nodes| ==> nodes[x].status == Some(NODE_UNTRACKED)
      ensures r.Ok? && ChildNamed(old(nodes), i, e.name).Some? ==>
                var c := ChildNamed(old(nodes), i, e.name).value;
                && ChildNamed(nodes, i, e.name) == Some(c)
                && nodes[c].status == Some(CompareExt(FromDirEntryExt(e, bitflag), old(nodes)[c], bitflag))
      ensures r.Ok? && ChildNamed(old(nodes), i, e.name).None? ==>
                var c := old(|nodes|);
                && ChildNamed(nodes, i, e.name) == Some(c)
                && nodes[c].status == Some(NODE_UNTRACKED)
                && nodes[c].(status := None, children := None, parent := None) == FromDirEntryExt(e, bitflag)
      decreases e, 1
    {
      var m := GetChild(i, e.name);
      if m.Some? {
        r := CompareMatched(i, m.value, e, ignore, bitflag);
      } else {
        r := CompareNew(i, e, ignore, bitflag);
      }
    }

    /** The entry matches the child `c` of `i`: `c` is walked into when the
        entry is a directory, then takes as status its differences from the
        entry. */
    method CompareMatched(i: NodeId, c: NodeId, e: DirEntry, ignore: Option<seq<string>>, bitflag: Mask)
      returns (r: Result<()>)
      requires Valid() && i < |nodes| && ChildNamed(nodes, i, e.name) == Some(c)
      modifies this
      ensures Valid() && Compared(old(nodes), nodes, bitflag) && Untouched(old(nodes), nodes, i)
      ensures Framed(old(nodes), nodes, i, {e.name})
      ensures r.Ok? <==> !e.isDir || Readable(e.contents, ignore)
      ensures r.Ok? ==> Placed(nodes, old(|nodes|), i, {e.name})
      ensures r.Ok? && EntryDistinct(e) ==>
                forall x :: old(|nodes|) <= x < |nodes| ==> nodes[x].status == Some(NODE_UNTRACKED)
      ensures r.Ok? ==>
                && ChildNamed(nodes, i, e.name) == Some(c)
                && nodes[c].status == Some(CompareExt(FromDirEntryExt(e, bitflag), old(nodes)[c], bitflag))
                && StatusMark(nodes[c].status, bitflag)
      decreases e, 0
    {
      ghost var before := nodes;
      var d := FromDirEntryExt(e, bitflag);
      ghost var names: set<string> := {};
      if e.isDir {
        var res := FillCompareStatus(c, e.contents, ignore, bitflag);
        if res.Err? {
          FramedWiden(before, nodes, i, c, e.name, ListedNames(e.contents, ignore));
          return Err("cannot read a directory entry");
        }
        names := ListedNames(e.contents, ignore);
      } else {
        CompareStart(nodes, bitflag);
      }
      FromDirEntryExtFields(e, bitflag, Name);
      MatchedMarked(before, nodes, i, c, e.name, d, bitflag);
      MatchedPlaced(before, nodes, i, c, e.name, names, Some(CompareExt(d, nodes[c], bitflag)), bitflag);
      SetStatus(c, Some(CompareExt(d, nodes[c], bitflag)));
      return Ok(());
    }

    /** No child of `i` has the entry's name: a node built from the entry is
        appended, walked into when the entry is a directory, marked
        NODE_UNTRACKED and attached as the last child of `i`. */
    method CompareNew(i: NodeId, e: DirEntry, ignore: Option<seq<string>>, bitflag: Mask)
      returns (r: Result<()>)
      requires Valid() && i < |nodes| && ChildNamed(nodes, i, e.name).None?
      modifies this
      ensures Valid() && Compared(old(nodes), nodes, bitflag) && Untouched(old(nodes), nodes, i)
      ensures Framed(old(nodes), nodes, i, {e.name})
      ensures r.Ok? <==> !e.isDir || Readable(e.contents, ignore)
      ensures r.Ok? ==> Placed(nodes, old(|nodes|), i, {e.name})
      ensures r.Ok? && EntryDistinct(e) ==>
                forall x :: old(|nodes|) <= x < |nodes| ==> nodes[x].status == Some(NODE_UNTRACKED)
      ensures r.Ok? ==>
                var c := old(|nodes|);
                && ChildNamed(nodes, i, e.name) == Some(c)
                && nodes[c].status == Some(NODE_UNTRACKED)
                && nodes[c].(status := None, children := None, parent := None) == FromDirEntryExt(e, bitflag)
      decreases e, 0
    {
      ghost var before := nodes;
      var d := FromDirEntryExt(e, bitflag);
      FromDirEntryExtFields(e, bitflag, Name);
      var c := Push(d);
      ghost var names: set<string> := {};
      if e.isDir {
        var res := FillCompareStatus(c, e.contents, ignore, bitflag);
        if res.Err? {
          DroppedLast(before, d, nodes, bitflag);
          NewFramed(before, d, nodes, i, c, e.name, ListedNames(e.contents, ignore));
          return Err("cannot read a directory entry");
        }
        names := ListedNames(e.contents, ignore);
      } else {
        CompareStart(nodes, bitflag);
      }
      ghost var mid := nodes;
      NewMarked(before, d, nodes, i, c, e.name, bitflag);
      SetStatus(c, Some(NODE_UNTRACKED));
      AddChild(i, c);
      NewPlaced(before, d, mid, nodes, i, c, e.name, names, bitflag);
      return Ok(());
    }

    /** `Node::from_tree_entry`: a new node is allocated, its children are built
        from the first body's children (each pointing back to it), then the
        name and the attributes are copied; without a body the node keeps the
        default record (linked to `parent`, see README). */
    method FromTreeEntry(e: TreeEntry, parent: Option<NodeId>) returns (r: NodeId)
      requires Valid() && (parent.Some? ==> parent.value < |nodes|)
      modifies this
      ensures Valid() && r == old(|nodes|) && r < |nodes| && nodes[..r] == old(nodes)
      ensures nodes[r].parent == parent
      ensures Detached(nodes, r)
      ensures ToTreeEntry(nodes, r) == Loaded(e)
      decreases e, 1
    {
      r := Push(NewData("", parent));
      if |e.entries| > 0 && e.entries[0].1.Some? {
        var name := e.entries[0].0;
        var body := e.entries[0].1.value;
        var kids: Option<seq<NodeId>> := None;
        if body.children.Some? {
          ghost var n0 := nodes;
          var ids := BuildChildren(r, body.children.value);
          TakePrefix(n0, nodes, r);
          kids := Some(ids);
        }
        var d := NodeData(name, parent, kids, body.desc, body.tags, body.sha256, body.status,
                          body.modified, body.accessed, body.created, body.size, body.fileType,
                          body.compare, None, None);
        ghost var before := nodes;
        Fill(r, d);
        if kids.Some? {
          var ids := kids.value;
          forall j | 0 <= j < |ids| ensures ToTreeEntry(nodes, ids[j]) == ToTreeEntry(before, ids[j]) {
            ToTreeEntryFrame(before, nodes, ids[j]);
          }
          ChildEntriesLoaded(nodes, r, body.children.value);
        }
      }
    }

    /** The children loop of `from_tree_entry`: each entry of the list becomes a
        new subtree whose root points back to `r`, in the order of the list. */
    method BuildChildren(r: NodeId, cl: EntryList) returns (ids: seq<NodeId>)
      requires Valid() && r < |nodes| && Detached(nodes, r)
      modifies this
      ensures Valid() && Built(old(nodes), nodes, r, ids, cl.list) && |ids| == |cl.list|
      decreases cl, 0
    {
      ids := [];
      BuildStart(nodes, r, cl.list);
      var k := 0;
      while k < |cl.list|
        invariant 0 <= k <= |cl.list| && |ids| == k && Valid() && Built(old(nodes), nodes, r, ids, cl.list)
      {
        ghost var before := nodes;
        var c := FromTreeEntry(cl.list[k], Some(r));
        BuildStep(old(nodes), before, nodes, r, ids, cl.list, c);
        ids := ids + [c];
        k := k + 1;
      }
    }
  }
}
