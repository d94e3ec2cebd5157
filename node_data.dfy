/** The per-node record of src/file_tree/node/node.rs (`NodeData`) and the
    operations on one record: field diffing (`compare_ext`), single-key ordering
    (`cmp_ext`) and the effect of the mask-scoped edits (`clear_ext`, `update_ext`,
    `update`, `copy_ext`) on a single node. */
module NodeDatas {

  import opened Base
  import opened FieldMask
  import FileTypes

  /** Index of a node in the arena that replaces the source's Rc/Weak pointers. */
  type NodeId = nat

  /** `NodeData`: the name, the parent back-link, the optional ordered children
      and the optional metadata. */
  datatype NodeData = NodeData(
    file: string,
    parent: Option<NodeId>,
    children: Option<seq<NodeId>>,
    desc: Option<string>,
    tags: Option<seq<string>>,
    sha256: Option<string>,
    status: Option<Mask>,
    modified: Option<string>,
    accessed: Option<string>,
    created: Option<string>,
    size: Option<u64>,
    fileType: Option<FileTypes.FileType>,
    compare: Option<Mask>,
    hidden: Option<bool>,
    comment: Option<string>)

  /** `Node::new(file, parent)`: every other field is left at its default. */
  function NewData(file: string, parent: Option<NodeId>): NodeData
  {
    NodeData(file, parent, None, None, None, None, None, None, None, None, None, None, None, None, None)
  }

  /** Whether two records hold different values of the attribute a flag names. */
  predicate Differs(a: NodeData, b: NodeData, f: Flag)
  {
    match f
    case Name => a.file != b.file
    case Desc => a.desc != b.desc
    case Tags => a.tags != b.tags
    case Sha256 => a.sha256 != b.sha256
    case Status => a.status != b.status
    case Modified => a.modified != b.modified
    case Accessed => a.accessed != b.accessed
    case Created => a.created != b.created
    case Size => a.size != b.size
    case FileType => a.fileType != b.fileType
    case Children => a.children != b.children
    case Comment => a.comment != b.comment
    case Hidden => a.hidden != b.hidden
    case _ => false
  }

  /** Whether the attribute a flag names is unset (None). The name is never unset. */
  predicate IsUnset(d: NodeData, f: Flag)
  {
    match f
    case Desc => d.desc.None?
    case Tags => d.tags.None?
    case Sha256 => d.sha256.None?
    case Status => d.status.None?
    case Modified => d.modified.None?
    case Accessed => d.accessed.None?
    case Created => d.created.None?
    case Size => d.size.None?
    case FileType => d.fileType.None?
    case Children => d.children.None?
    case Comment => d.comment.None?
    case Hidden => d.hidden.None?
    case _ => false
  }

  // ---------------------------------------------------------------------------
  // compare_ext

  /** The order in which `compare_ext` tests the ten key fields. */
  const COMPARE_ORDER: seq<Flag> := [Name, Desc, Tags, Sha256, Status, Modified, Accessed, Created, Size, FileType]

  /** One `if (bitflag & F) > 0 { if node.f != origin.f { result |= F } }` step. */
  function Diff(a: NodeData, b: NodeData, bitflag: Mask, f: Flag): Mask
  {
    if f in bitflag && Differs(a, b, f) then {f} else NODE_NONE
  }

  /** The steps for the fields `fs`, in order, starting from NODE_NONE. */
  function CompareFields(a: NodeData, b: NodeData, bitflag: Mask, fs: seq<Flag>): Mask
  {
    if fs == [] then NODE_NONE
    else CompareFields(a, b, bitflag, fs[..|fs| - 1]) + Diff(a, b, bitflag, fs[|fs| - 1])
  }

  lemma {:induction false} CompareFieldsMembers(a: NodeData, b: NodeData, bitflag: Mask, fs: seq<Flag>)
    ensures forall f :: f in CompareFields(a, b, bitflag, fs) <==> f in fs && f in bitflag && Differs(a, b, f)
  {
    if fs != [] {
      CompareFieldsMembers(a, b, bitflag, fs[..|fs| - 1]);
      assert fs == fs[..|fs| - 1] + [fs[|fs| - 1]];
    }
  }

  /** `compare_ext`: the set of selected key fields whose values differ (two unset
      values are equal); nothing outside the selected key fields is reported. */
  function CompareExt(node: NodeData, origin: NodeData, bitflag: Mask): (r: Mask)
    ensures forall f :: f in r <==> IsKeyField(f) && f in bitflag && Differs(node, origin, f)
    ensures r <= bitflag * KEY_FIELDS
  {
    CompareFieldsMembers(node, origin, bitflag, COMPARE_ORDER);
    CompareFields(node, origin, bitflag, COMPARE_ORDER)
  }

  /** The result is empty exactly when the records agree on every selected key field. */
  lemma CompareExtNone(node: NodeData, origin: NodeData, bitflag: Mask)
    ensures CompareExt(node, origin, bitflag) == NODE_NONE
        <==> forall f :: IsKeyField(f) && f in bitflag ==> !Differs(node, origin, f)
  {
    var r := CompareExt(node, origin, bitflag);
    if r != NODE_NONE {
      var f :| f in r;
    }
  }

  /** The children list is not a key field: comparing against a node whose
      children differ gives the same differences. */
  lemma CompareExtIgnoresChildren(node: NodeData, a: NodeData, b: NodeData, bitflag: Mask)
    requires b.(children := a.children) == a
    ensures CompareExt(node, a, bitflag) == CompareExt(node, b, bitflag)
  {
    forall f | IsKeyField(f) ensures Differs(node, a, f) == Differs(node, b, f) {
    }
  }

  /** A node compared with itself has no differences, and comparison is symmetric. */
  lemma CompareExtReflexiveSymmetric(a: NodeData, b: NodeData, bitflag: Mask)
    ensures CompareExt(a, a, bitflag) == NODE_NONE
    ensures CompareExt(a, b, bitflag) == CompareExt(b, a, bitflag)
  {
    CompareExtNone(a, a, bitflag);
    forall f ensures Differs(a, b, f) == Differs(b, a, f) {
    }
  }

  // ---------------------------------------------------------------------------
  // cmp_ext

  /** `usize` order of two status values. */
  function StatusCmp(x: Mask, y: Mask): Ordering
  {
    IntCmp(Value(x), Value(y))
  }

  function SizeCmp(x: u64, y: u64): Ordering
  {
    IntCmp(x as int, y as int)
  }

  /** The derived order of one key field's type (`Option` values: None first). */
  function CmpField(a: NodeData, b: NodeData, f: Flag): Ordering
    requires IsKeyField(f)
  {
    match f
    case Name => StrCmp(a.file, b.file)
    case Desc => OptCmp(a.desc, b.desc, StrCmp)
    case Tags => OptCmp(a.tags, b.tags, SeqCmp)
    case Sha256 => OptCmp(a.sha256, b.sha256, StrCmp)
    case Status => OptCmp(a.status, b.status, StatusCmp)
    case Modified => OptCmp(a.modified, b.modified, StrCmp)
    case Accessed => OptCmp(a.accessed, b.accessed, StrCmp)
    case Created => OptCmp(a.created, b.created, StrCmp)
    case Size => OptCmp(a.size, b.size, SizeCmp)
    case FileType => OptCmp(a.fileType, b.fileType, FileTypes.Cmp)
  }

  lemma OptCmpLaws<T(!new)>(a: Option<T>, b: Option<T>, c: Option<T>, inner: (T, T) -> Ordering)
    requires IsTotalOrder(inner)
    ensures OptCmp(b, a, inner) == OptCmp(a, b, inner).Reverse()
    ensures OptCmp(a, b, inner) == Equal <==> a == b
    ensures OptCmp(a, b, inner) != Greater && OptCmp(b, c, inner) != Greater ==> OptCmp(a, c, inner) != Greater
  {
    OptCmpAntisymmetric(a, b, inner);
    OptCmpEqual(a, b, inner);
    if OptCmp(a, b, inner) != Greater && OptCmp(b, c, inner) != Greater {
      OptCmpTransitive(a, b, c, inner);
    }
  }

  /** Status values are ordered by the number they stand for, a total order. */
  lemma StatusCmpIsTotalOrder()
    ensures IsTotalOrder(StatusCmp)
  {
    forall x, y | StatusCmp(x, y) == Equal ensures x == y {
      ValueInjective(x, y);
    }
  }

  lemma SizeCmpIsTotalOrder()
    ensures IsTotalOrder(SizeCmp)
  {
  }

  lemma FileTypeCmpIsTotalOrder()
    ensures IsTotalOrder(FileTypes.Cmp)
  {
    FileTypes.DeclarationOrder();
    forall x, y, z | FileTypes.Cmp(x, y) != Greater && FileTypes.Cmp(y, z) != Greater
      ensures FileTypes.Cmp(x, z) != Greater
    {
      FileTypes.CmpTransitive(x, y, z);
    }
  }

  /** Each key field's order is a total order on records, Equal exactly when the
      records agree on that field. */
  lemma CmpFieldIsOrder(a: NodeData, b: NodeData, c: NodeData, f: Flag)
    requires IsKeyField(f)
    ensures CmpField(b, a, f) == CmpField(a, b, f).Reverse()
    ensures CmpField(a, b, f) == Equal <==> !Differs(a, b, f)
    ensures CmpField(a, b, f) != Greater && CmpField(b, c, f) != Greater ==> CmpField(a, c, f) != Greater
  {
    match f
    case Name =>
      StrCmpAntisymmetric(a.file, b.file);
      if CmpField(a, b, f) != Greater && CmpField(b, c, f) != Greater {
        StrCmpTransitive(a.file, b.file, c.file);
      }
    case Desc =>
      StrCmpIsTotalOrder();
      OptCmpLaws(a.desc, b.desc, c.desc, StrCmp);
    case Tags =>
      SeqCmpIsTotalOrder();
      OptCmpLaws(a.tags, b.tags, c.tags, SeqCmp);
    case Sha256 =>
      StrCmpIsTotalOrder();
      OptCmpLaws(a.sha256, b.sha256, c.sha256, StrCmp);
    case Status =>
      StatusCmpIsTotalOrder();
      OptCmpLaws(a.status, b.status, c.status, StatusCmp);
    case Modified =>
      StrCmpIsTotalOrder();
      OptCmpLaws(a.modified, b.modified, c.modified, StrCmp);
    case Accessed =>
      StrCmpIsTotalOrder();
      OptCmpLaws(a.accessed, b.accessed, c.accessed, StrCmp);
    case Created =>
      StrCmpIsTotalOrder();
      OptCmpLaws(a.created, b.created, c.created, StrCmp);
    case Size =>
      SizeCmpIsTotalOrder();
      OptCmpLaws(a.size, b.size, c.size, SizeCmp);
    case FileType =>
      FileTypeCmpIsTotalOrder();
      OptCmpLaws(a.fileType, b.fileType, c.fileType, FileTypes.Cmp);
  }

  /** `cmp_ext`: the order of the single field selected by `bitflag & NODE_ALL`,
      reversed when SORT_ASC is set; any other mask gives Less (Greater when reversed). */
  function CmpExt(node: NodeData, origin: NodeData, bitflag: Mask): (r: Ordering)
    ensures r == Equal <==> SortField(bitflag).Some? && CmpField(node, origin, SortField(bitflag).value) == Equal
    ensures SortField(bitflag).Some? && SortAsc !in bitflag ==> r == CmpField(node, origin, SortField(bitflag).value)
    ensures SortField(bitflag).Some? && SortAsc in bitflag ==> r == CmpField(origin, node, SortField(bitflag).value)
    ensures SortField(bitflag).None? ==> r == (if SortAsc in bitflag then Greater else Less)
  {
    if SortField(bitflag).None? then (if SortAsc in bitflag then Less.Reverse() else Less)
    else
      var f := SortField(bitflag).value;
      SortFieldSpec(bitflag, f);
      CmpFieldIsOrder(node, origin, node, f);
      if SortAsc in bitflag then CmpField(node, origin, f).Reverse() else CmpField(node, origin, f)
  }

  /** Under a single-field mask `cmp_ext` is a total preorder on records:
      antisymmetric, transitive, and Equal exactly when `compare_ext` with the
      same mask finds no difference. */
  lemma CmpExtIsOrder(a: NodeData, b: NodeData, c: NodeData, bitflag: Mask)
    requires SortField(bitflag).Some?
    ensures CmpExt(b, a, bitflag) == CmpExt(a, b, bitflag).Reverse()
    ensures CmpExt(a, b, bitflag) == Equal <==> CompareExt(a, b, bitflag) == NODE_NONE
    ensures CmpExt(a, b, bitflag) != Greater && CmpExt(b, c, bitflag) != Greater ==> CmpExt(a, c, bitflag) != Greater
  {
    var f := SortField(bitflag).value;
    SortFieldSpec(bitflag, f);
    CmpFieldIsOrder(a, b, c, f);
    CmpFieldIsOrder(c, b, a, f);
    CmpFieldIsOrder(b, a, c, f);
    CmpFieldIsOrder(b, c, a, f);
    CompareExtNone(a, b, bitflag);
    forall g | IsKeyField(g) ensures g in bitflag <==> g == f {
      SortFieldSelects(bitflag, g);
    }
  }

  /** With no single field selected, `cmp_ext` ignores both records and never
      answers Equal, not even for a record compared with itself. */
  lemma CmpExtWithoutSortField(a: NodeData, b: NodeData, bitflag: Mask)
    requires SortField(bitflag).None?
    ensures CmpExt(a, b, bitflag) == CmpExt(b, a, bitflag) != Equal
  {
  }

  // ---------------------------------------------------------------------------
  // clear_ext, update_ext, update and copy_ext on one record

  /** The attributes `clear_ext` can reset; name, comment and hidden are never cleared. */
  const CLEARABLE: Mask := {Desc, Sha256, Status, Modified, Accessed, Created, Size, FileType, Tags, Children}

  /** The record after `clear_ext` (without the recursion): each selected clearable
      attribute is unset and every other attribute is kept. */
  function ClearData(d: NodeData, bitflag: Mask): (r: NodeData)
    ensures forall f {:trigger IsUnset(r, f)} :: f in CLEARABLE && f in bitflag ==> IsUnset(r, f)
    ensures forall f {:trigger Differs(r, d, f)} :: !(f in CLEARABLE && f in bitflag) ==> !Differs(r, d, f)
  {
    var r := d.(desc := if Desc in bitflag then None else d.desc,
       sha256 := if Sha256 in bitflag then None else d.sha256,
       status := if Status in bitflag then None else d.status,
       modified := if Modified in bitflag then None else d.modified,
       accessed := if Accessed in bitflag then None else d.accessed,
       created := if Created in bitflag then None else d.created,
       size := if Size in bitflag then None else d.size,
       fileType := if FileType in bitflag then None else d.fileType,
       tags := if Tags in bitflag then None else d.tags,
       children := if Children in bitflag then None else d.children);
    ClearedByFlag(d, bitflag, r);
    r
  }

  /** The per-attribute reading of a record built as `ClearData` builds it. */
  lemma ClearedByFlag(d: NodeData, bitflag: Mask, r: NodeData)
    requires r == d.(desc := if Desc in bitflag then None else d.desc,
                     sha256 := if Sha256 in bitflag then None else d.sha256,
                     status := if Status in bitflag then None else d.status,
                     modified := if Modified in bitflag then None else d.modified,
                     accessed := if Accessed in bitflag then None else d.accessed,
                     created := if Created in bitflag then None else d.created,
                     size := if Size in bitflag then None else d.size,
                     fileType := if FileType in bitflag then None else d.fileType,
                     tags := if Tags in bitflag then None else d.tags,
                     children := if Children in bitflag then None else d.children)
    ensures forall f {:trigger IsUnset(r, f)} :: f in CLEARABLE && f in bitflag ==> IsUnset(r, f)
    ensures forall f {:trigger Differs(r, d, f)} :: !(f in CLEARABLE && f in bitflag) ==> !Differs(r, d, f)
  {
    forall f | f in CLEARABLE && f in bitflag ensures IsUnset(r, f) {
      assert f in {Desc, Sha256, Status, Modified, Accessed, Created, Size, FileType, Tags, Children};
    }
    forall f | !(f in CLEARABLE && f in bitflag) ensures !Differs(r, d, f) {
      if f in CLEARABLE {
        assert f !in bitflag;
      }
    }
  }

  /** Clearing twice with the same mask is clearing once, and clearing with two
      masks in turn is clearing with their union. */
  lemma ClearDataCompose(d: NodeData, m1: Mask, m2: Mask)
    ensures ClearData(ClearData(d, m1), m1) == ClearData(d, m1)
    ensures ClearData(ClearData(d, m1), m2) == ClearData(d, m1 + m2)
  {
  }

  /** The attributes `update_ext` can copy; name, children and hidden never change. */
  const UPDATABLE: Mask := {Desc, Sha256, Status, Modified, Accessed, Created, Size, FileType, Tags, Comment}

  /** The record after `update_ext(origin, bitflag)`: each selected updatable
      attribute takes the origin's value and every other attribute is kept. */
  function UpdateExtData(d: NodeData, origin: NodeData, bitflag: Mask): (r: NodeData)
    ensures forall f {:trigger Differs(r, origin, f)} :: f in UPDATABLE && f in bitflag ==> !Differs(r, origin, f)
    ensures forall f {:trigger Differs(r, d, f)} :: !(f in UPDATABLE && f in bitflag) ==> !Differs(r, d, f)
  {
    var r := d.(desc := if Desc in bitflag then origin.desc else d.desc,
       sha256 := if Sha256 in bitflag then origin.sha256 else d.sha256,
       status := if Status in bitflag then origin.status else d.status,
       modified := if Modified in bitflag then origin.modified else d.modified,
       accessed := if Accessed in bitflag then origin.accessed else d.accessed,
       created := if Created in bitflag then origin.created else d.created,
       size := if Size in bitflag then origin.size else d.size,
       fileType := if FileType in bitflag then origin.fileType else d.fileType,
       tags := if Tags in bitflag then origin.tags else d.tags,
       comment := if Comment in bitflag then origin.comment else d.comment);
    UpdatedByFlag(d, origin, bitflag, r);
    r
  }

  /** The per-attribute reading of a record built as `UpdateExtData` builds it. */
  lemma UpdatedByFlag(d: NodeData, origin: NodeData, bitflag: Mask, r: NodeData)
    requires r == d.(desc := if Desc in bitflag then origin.desc else d.desc,
                     sha256 := if Sha256 in bitflag then origin.sha256 else d.sha256,
                     status := if Status in bitflag then origin.status else d.status,
                     modified := if Modified in bitflag then origin.modified else d.modified,
                     accessed := if Accessed in bitflag then origin.accessed else d.accessed,
                     created := if Created in bitflag then origin.created else d.created,
                     size := if Size in bitflag then origin.size else d.size,
                     fileType := if FileType in bitflag then origin.fileType else d.fileType,
                     tags := if Tags in bitflag then origin.tags else d.tags,
                     comment := if Comment in bitflag then origin.comment else d.comment)
    ensures forall f {:trigger Differs(r, origin, f)} :: f in UPDATABLE && f in bitflag ==> !Differs(r, origin, f)
    ensures forall f {:trigger Differs(r, d, f)} :: !(f in UPDATABLE && f in bitflag) ==> !Differs(r, d, f)
  {
    forall f | f in UPDATABLE && f in bitflag ensures !Differs(r, origin, f) {
      assert f in {Desc, Sha256, Status, Modified, Accessed, Created, Size, FileType, Tags, Comment};
    }
    forall f | !(f in UPDATABLE && f in bitflag) ensures !Differs(r, d, f) {
      if f in UPDATABLE {
        assert f !in bitflag;
      }
    }
  }

  /** After `update_ext`, `compare_ext` over the same mask finds at most the name
      different, and updating again changes nothing. */
  lemma UpdateExtSynchronises(d: NodeData, origin: NodeData, bitflag: Mask)
    ensures CompareExt(UpdateExtData(d, origin, bitflag), origin, bitflag) <= NODE_NAME
    ensures UpdateExtData(UpdateExtData(d, origin, bitflag), origin, bitflag) == UpdateExtData(d, origin, bitflag)
  {
  }

  /** The eight attributes `update` copies. */
  const UPDATE_FIELDS: Mask := {Desc, Sha256, Modified, Accessed, Created, Size, FileType, Tags}

  /** After `update` the node agrees with the origin on all eight attributes. */
  lemma UpdateSynchronises(d: NodeData, origin: NodeData)
    ensures CompareExt(UpdateExtData(d, origin, UPDATE_FIELDS), origin, UPDATE_FIELDS) == NODE_NONE
  {
    CompareExtNone(UpdateExtData(d, origin, UPDATE_FIELDS), origin, UPDATE_FIELDS);
  }

  /** One `if node.f != origin.f { …; bitflag |= F; }` step of `update`. */
  function Step(acc: Mask, differs: bool, f: Flag): Mask
  {
    acc + if differs then {f} else NODE_NONE
  }

  /** A step keeps the mask equal to the differing fields among those seen so far. */
  lemma StepKeeps(d: NodeData, origin: NodeData, acc: Mask, seen: Mask, differs: bool, f: Flag)
    requires forall g :: g in acc <==> g in seen && Differs(d, origin, g)
    requires differs == Differs(d, origin, f)
    ensures forall g :: g in Step(acc, differs, f) <==> g in seen + {f} && Differs(d, origin, g)
  {
  }

  /** The mask after `update`'s first four tests. */
  function FirstSteps(d: NodeData, origin: NodeData): Mask
  {
    Step(Step(Step(Step(NODE_NONE,
      d.desc != origin.desc, Desc), d.sha256 != origin.sha256, Sha256),
      d.modified != origin.modified, Modified), d.accessed != origin.accessed, Accessed)
  }

  /** The mask after `update`'s last four tests, starting from `acc`. */
  function LastSteps(d: NodeData, origin: NodeData, acc: Mask): Mask
  {
    Step(Step(Step(Step(acc,
      d.created != origin.created, Created), d.size != origin.size, Size),
      d.fileType != origin.fileType, FileType), d.tags != origin.tags, Tags)
  }

  const FIRST_FIELDS: Mask := {Desc, Sha256, Modified, Accessed}

  lemma FirstStepsMembers(d: NodeData, origin: NodeData)
    ensures forall g :: g in FirstSteps(d, origin) <==> g in FIRST_FIELDS && Differs(d, origin, g)
  {
    var acc, seen := NODE_NONE, NODE_NONE;
    StepKeeps(d, origin, acc, seen, d.desc != origin.desc, Desc);
    acc, seen := Step(acc, d.desc != origin.desc, Desc), seen + {Desc};
    StepKeeps(d, origin, acc, seen, d.sha256 != origin.sha256, Sha256);
    acc, seen := Step(acc, d.sha256 != origin.sha256, Sha256), seen + {Sha256};
    StepKeeps(d, origin, acc, seen, d.modified != origin.modified, Modified);
    acc, seen := Step(acc, d.modified != origin.modified, Modified), seen + {Modified};
    StepKeeps(d, origin, acc, seen, d.accessed != origin.accessed, Accessed);
  }

  lemma LastStepsMembers(d: NodeData, origin: NodeData, acc: Mask)
    requires forall g :: g in acc <==> g in FIRST_FIELDS && Differs(d, origin, g)
    ensures forall g :: g in LastSteps(d, origin, acc) <==> g in UPDATE_FIELDS && Differs(d, origin, g)
  {
    var a, seen := acc, FIRST_FIELDS;
    StepKeeps(d, origin, a, seen, d.created != origin.created, Created);
    a, seen := Step(a, d.created != origin.created, Created), seen + {Created};
    StepKeeps(d, origin, a, seen, d.size != origin.size, Size);
    a, seen := Step(a, d.size != origin.size, Size), seen + {Size};
    StepKeeps(d, origin, a, seen, d.fileType != origin.fileType, FileType);
    a, seen := Step(a, d.fileType != origin.fileType, FileType), seen + {FileType};
    StepKeeps(d, origin, a, seen, d.tags != origin.tags, Tags);
    assert seen + {Tags} == UPDATE_FIELDS;
  }

  /** The mask `update` builds step by step is what `compare_ext` reports over
      its eight fields. */
  lemma UpdateSteps(d: NodeData, origin: NodeData, r: Mask)
    requires r == LastSteps(d, origin, FirstSteps(d, origin))
    ensures r == CompareExt(d, origin, UPDATE_FIELDS)
  {
    FirstStepsMembers(d, origin);
    LastStepsMembers(d, origin, FirstSteps(d, origin));
    SameMembers(r, CompareExt(d, origin, UPDATE_FIELDS));
  }

  /** `update_ext` over the eight fields of `update` copies exactly those eight. */
  lemma UpdateFieldsCopied(d: NodeData, origin: NodeData)
    ensures UpdateExtData(d, origin, UPDATE_FIELDS) ==
      d.(desc := origin.desc, sha256 := origin.sha256, modified := origin.modified, accessed := origin.accessed,
         created := origin.created, size := origin.size, fileType := origin.fileType, tags := origin.tags)
  {
    assert Status !in UPDATE_FIELDS && Comment !in UPDATE_FIELDS;
  }

  lemma SameMembers(a: Mask, b: Mask)
    requires forall f :: f in a <==> f in b
    ensures a == b
  {
  }

  /** The body of `update` on the borrowed record: each of its eight fields
      that differs from the origin's takes the origin's value and adds its flag. */
  method UpdateData(d: NodeData, origin: NodeData) returns (d': NodeData, r: Mask)
    ensures r == CompareExt(d, origin, UPDATE_FIELDS)
    ensures d' == d.(desc := origin.desc, sha256 := origin.sha256, modified := origin.modified, accessed := origin.accessed,
                     created := origin.created, size := origin.size, fileType := origin.fileType, tags := origin.tags)
  {
    r := NODE_NONE;
    var desc, sha256, modified, accessed, created, size, fileType, tags;
    desc, r := Sync(d.desc, origin.desc, Desc, r);
    sha256, r := Sync(d.sha256, origin.sha256, Sha256, r);
    modified, r := Sync(d.modified, origin.modified, Modified, r);
    accessed, r := Sync(d.accessed, origin.accessed, Accessed, r);
    created, r := Sync(d.created, origin.created, Created, r);
    size, r := Sync(d.size, origin.size, Size, r);
    fileType, r := Sync(d.fileType, origin.fileType, FileType, r);
    tags, r := Sync(d.tags, origin.tags, Tags, r);
    UpdateSteps(d, origin, r);
    d' := d.(desc := desc, sha256 := sha256, modified := modified, accessed := accessed,
             created := created, size := size, fileType := fileType, tags := tags);
  }

  /** One `if node.f != origin.f { node.f = origin.f; bitflag |= F; }` step of `update`. */
  method Sync<T(==)>(v: T, origin: T, f: Flag, acc: Mask) returns (v': T, acc': Mask)
    ensures v' == origin
    ensures acc' == Step(acc, v != origin, f)
  {
    v', acc' := v, acc;
    if v != origin {
      v' := origin;
      acc' := acc + {f};
    }
  }

  /** The attributes `copy_ext` copies under their own flag. */
  const COPIED: Mask := {Tags, Sha256, Status, Modified, Accessed, Created, Size, FileType}

  /** `copy_ext` as written: the NODE_DESC branch copies the name
      (node.rs:421-422), so the description is never copied. */
  function CopyExtData(d: NodeData, origin: NodeData, bitflag: Mask): (r: NodeData)
    ensures r.parent == d.parent
    ensures r.file == if Name in bitflag || Desc in bitflag then origin.file else d.file
    ensures forall f {:trigger Differs(r, origin, f)} :: f in COPIED && f in bitflag ==> !Differs(r, origin, f)
    ensures forall f {:trigger Differs(r, d, f)} :: f != Name && !(f in COPIED && f in bitflag) ==> !Differs(r, d, f)
  {
    var r := d.(file := if Name in bitflag || Desc in bitflag then origin.file else d.file,
       tags := if Tags in bitflag then origin.tags else d.tags,
       sha256 := if Sha256 in bitflag then origin.sha256 else d.sha256,
       status := if Status in bitflag then origin.status else d.status,
       modified := if Modified in bitflag then origin.modified else d.modified,
       accessed := if Accessed in bitflag then origin.accessed else d.accessed,
       created := if Created in bitflag then origin.created else d.created,
       size := if Size in bitflag then origin.size else d.size,
       fileType := if FileType in bitflag then origin.fileType else d.fileType);
    CopiedByFlag(d, origin, bitflag, r);
    r
  }

  /** The per-attribute reading of a record built as `CopyExtData` builds it. */
  lemma CopiedByFlag(d: NodeData, origin: NodeData, bitflag: Mask, r: NodeData)
    requires r == d.(file := if Name in bitflag || Desc in bitflag then origin.file else d.file,
                     tags := if Tags in bitflag then origin.tags else d.tags,
                     sha256 := if Sha256 in bitflag then origin.sha256 else d.sha256,
                     status := if Status in bitflag then origin.status else d.status,
                     modified := if Modified in bitflag then origin.modified else d.modified,
                     accessed := if Accessed in bitflag then origin.accessed else d.accessed,
                     created := if Created in bitflag then origin.created else d.created,
                     size := if Size in bitflag then origin.size else d.size,
                     fileType := if FileType in bitflag then origin.fileType else d.fileType)
    ensures r.parent == d.parent
    ensures r.file == if Name in bitflag || Desc in bitflag then origin.file else d.file
    ensures forall f {:trigger Differs(r, origin, f)} :: f in COPIED && f in bitflag ==> !Differs(r, origin, f)
    ensures forall f {:trigger Differs(r, d, f)} :: f != Name && !(f in COPIED && f in bitflag) ==> !Differs(r, d, f)
  {
    forall f | f in COPIED && f in bitflag ensures !Differs(r, origin, f) {
      assert f in {Tags, Sha256, Status, Modified, Accessed, Created, Size, FileType};
    }
    forall f | f != Name && !(f in COPIED && f in bitflag) ensures !Differs(r, d, f) {
      if f in COPIED {
        assert f !in bitflag;
      }
    }
  }

  /** The consequence of the NODE_DESC branch: asked to copy only the description,
      `copy_ext` renames the node and leaves its description as it was. */
  lemma CopyExtDescCopiesName(d: NodeData, origin: NodeData, bitflag: Mask)
    requires Desc in bitflag
    ensures CopyExtData(d, origin, bitflag).file == origin.file
    ensures CopyExtData(d, origin, bitflag).desc == d.desc
  {
  }

  /** A concrete case: after copying NODE_DESC the description still differs. */
  lemma CopyExtDescCounterexample()
    ensures var d := NewData("a", None);
            var o := NewData("b", None).(desc := Some("x"));
            CompareExt(CopyExtData(d, o, NODE_DESC), o, NODE_DESC) == NODE_DESC
            && CopyExtData(d, o, NODE_DESC).file == "b"
  {
    var d := NewData("a", None);
    var o := NewData("b", None).(desc := Some("x"));
    assert Differs(CopyExtData(d, o, NODE_DESC), o, Desc);
  }

  /** `copy_ext` as evidently intended: each selected key field takes the origin's value. */
  function CopyExtIntended(d: NodeData, origin: NodeData, bitflag: Mask): (r: NodeData)
    ensures r.parent == d.parent && r.children == d.children && r.comment == d.comment
    ensures forall f :: IsKeyField(f) && f in bitflag ==> !Differs(r, origin, f)
    ensures forall f :: !(IsKeyField(f) && f in bitflag) ==> !Differs(r, d, f)
  {
    CopyExtData(d, origin, bitflag - NODE_DESC).(
      file := if Name in bitflag then origin.file else d.file,
      desc := if Desc in bitflag then origin.desc else d.desc)
  }

  /** After the intended copy, `compare_ext` over the same mask finds no difference. */
  lemma CopyExtIntendedSynchronises(d: NodeData, origin: NodeData, bitflag: Mask)
    ensures CompareExt(CopyExtIntended(d, origin, bitflag), origin, bitflag) == NODE_NONE
  {
    CompareExtNone(CopyExtIntended(d, origin, bitflag), origin, bitflag);
  }
}
