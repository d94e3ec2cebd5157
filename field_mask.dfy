/** The field-selection bit flags of src/file_tree/common/mod.rs: one bit per node
    attribute, the two comparison-outcome bits, the two sort-direction bits and the
    named unions. A `usize` flag value is modelled as the set of named bits it
    holds; `Value` gives back the number, bit for bit. */
module FieldMask {

  import opened Base

  /** The named bits. */
  datatype Flag =
    | Name | Sha256 | Status | Modified | Accessed | Created | Size | FileType | Children
    | FullPath | Desc | Tags | Comment | Hidden
    | NotExists | Untracked
    | SortAsc | SortDsc

  /** A flag value: `m & FLAG > 0` is `FLAG in m`, `|` is union, `&` is intersection. */
  type Mask = set<Flag>

  /** The bit position of each flag (`1 << Pos(f)`). */
  function Pos(f: Flag): nat
  {
    match f
    case Name => 0
    case Sha256 => 1
    case Status => 2
    case Modified => 3
    case Accessed => 4
    case Created => 5
    case Size => 6
    case FileType => 7
    case Children => 8
    case FullPath => 10
    case Desc => 11
    case Tags => 12
    case Comment => 13
    case Hidden => 14
    case NotExists => 15
    case Untracked => 16
    case SortAsc => 23
    case SortDsc => 24
  }

  // info from the filesystem
  const NODE_NAME: Mask := {Name}
  const NODE_SHA256: Mask := {Sha256}
  const NODE_STATUS: Mask := {Status}
  const NODE_MODIFIED: Mask := {Modified}
  const NODE_ACCESSED: Mask := {Accessed}
  const NODE_CREATED: Mask := {Created}
  const NODE_SIZE: Mask := {Size}
  const NODE_FILE_TYPE: Mask := {FileType}
  const NODE_CHILDREN: Mask := {Children}
  const NODE_FULL_PATH: Mask := {FullPath}
  // info from the user
  const NODE_DESC: Mask := {Desc}
  const NODE_TAGS: Mask := {Tags}
  const NODE_COMMENT: Mask := {Comment}
  const NODE_HIDDEN: Mask := {Hidden}
  // comparison outcomes
  const NODE_NOT_EXISTS: Mask := {NotExists}
  const NODE_UNTRACKED: Mask := {Untracked}
  // sort direction
  const SORT_ASC: Mask := {SortAsc}
  const SORT_DSC: Mask := {SortDsc}

  /** fields generated by the operating system or by file functions */
  const NODE_AUTO: Mask := {Name, Sha256, Status, Modified, Accessed, Created, Size, FileType, Children, FullPath}
  /** fields given by the user */
  const NODE_MANUAL: Mask := {Desc, Tags, Comment, Hidden}

  const NODE_NONE: Mask := {}
  const NODE_DEFAULT: Mask := {Name, Desc, Size, FileType, Comment}
  const NODE_ALL: Mask := {Name, Desc, Sha256, Status, Modified, Accessed, Created, Size, FileType,
    Children, Tags, FullPath, Comment}
  /** optional fields except the children */
  const NODE_OPTIONALS: Mask := {Desc, Sha256, Status, Modified, Accessed, Created, Size, FileType, Tags}
  const NODE_BASICS: Mask := {Name, Size}
  const NODE_DYNAMICS: Mask := {Sha256, Modified, Accessed, Created, Size}

  /** The ten fields that `compare_ext` diffs and `cmp_ext` can sort by. */
  const KEY_FIELDS: Mask := {Name, Desc, Tags, Sha256, Status, Modified, Accessed, Created, Size, FileType}

  predicate IsKeyField(f: Flag)
  {
    f in KEY_FIELDS
  }

  // ---------------------------------------------------------------------------
  // The numeric encoding

  function Pow2(k: nat): (r: nat)
    ensures r >= 1
  {
    if k == 0 then 1 else 2 * Pow2(k - 1)
  }

  lemma {:induction false} Pow2Monotone(j: nat, k: nat)
    requires j <= k
    ensures Pow2(j) <= Pow2(k)
    decreases k
  {
    if j < k {
      Pow2Monotone(j, k - 1);
    }
  }

  /** Every named flag, in increasing bit position. */
  const ORDER: seq<Flag> := [Name, Sha256, Status, Modified, Accessed, Created, Size, FileType, Children,
    FullPath, Desc, Tags, Comment, Hidden, NotExists, Untracked, SortAsc, SortDsc]

  lemma OrderIncreasing()
    ensures |ORDER| == 18
    ensures forall i :: 0 < i < |ORDER| ==> Pos(ORDER[i - 1]) < Pos(ORDER[i])
  {
  }

  lemma OrderComplete(f: Flag)
    ensures f in ORDER
  {
  }

  /** The value of the bits of the first `n` flags of ORDER. */
  function ValueOf(m: Mask, n: nat): nat
    requires n <= |ORDER|
  {
    if n == 0 then 0
    else ValueOf(m, n - 1) + (if ORDER[n - 1] in m then Pow2(Pos(ORDER[n - 1])) else 0)
  }

  /** The `usize` number a flag value stands for. */
  function Value(m: Mask): nat
  {
    ValueOf(m, |ORDER|)
  }

  /** The first `n` flags contribute less than the next flag's bit. */
  lemma {:induction false} ValueOfBound(m: Mask, n: nat)
    requires 0 < n <= |ORDER|
    ensures ValueOf(m, n) < 2 * Pow2(Pos(ORDER[n - 1]))
  {
    if n > 1 {
      ValueOfBound(m, n - 1);
      OrderIncreasing();
      Pow2Monotone(Pos(ORDER[n - 2]) + 1, Pos(ORDER[n - 1]));
    }
  }

  lemma {:induction false} ValueOfInjective(a: Mask, b: Mask, n: nat)
    requires n <= |ORDER| && ValueOf(a, n) == ValueOf(b, n)
    ensures forall i :: 0 <= i < n ==> (ORDER[i] in a <==> ORDER[i] in b)
  {
    if n > 0 {
      var f := ORDER[n - 1];
      if n > 1 {
        ValueOfBound(a, n - 1);
        ValueOfBound(b, n - 1);
        OrderIncreasing();
        Pow2Monotone(Pos(ORDER[n - 2]) + 1, Pos(f));
      }
      assert f in a <==> f in b;
      ValueOfInjective(a, b, n - 1);
    }
  }

  lemma {:induction false} ValueOfEmpty(n: nat)
    requires n <= |ORDER|
    ensures ValueOf(NODE_NONE, n) == 0
  {
    if n > 0 {
      ValueOfEmpty(n - 1);
    }
  }

  /** The encoding is faithful: distinct flag sets are distinct numbers. */
  lemma ValueInjective(a: Mask, b: Mask)
    requires Value(a) == Value(b)
    ensures a == b
  {
    ValueOfInjective(a, b, |ORDER|);
    forall f ensures f in a <==> f in b {
      OrderComplete(f);
    }
  }

  /** The place of a flag in ORDER. */
  function Index(f: Flag): (i: nat)
    ensures i < |ORDER| && ORDER[i] == f
  {
    match f
    case Name => 0
    case Sha256 => 1
    case Status => 2
    case Modified => 3
    case Accessed => 4
    case Created => 5
    case Size => 6
    case FileType => 7
    case Children => 8
    case FullPath => 9
    case Desc => 10
    case Tags => 11
    case Comment => 12
    case Hidden => 13
    case NotExists => 14
    case Untracked => 15
    case SortAsc => 16
    case SortDsc => 17
  }

  /** A flag occurs in ORDER only at its own place. */
  lemma IndexUnique(i: nat, f: Flag)
    requires i < |ORDER|
    ensures ORDER[i] == f ==> i == Index(f)
  {
    if i < Index(f) {
      OrderStrictlyIncreasing(i, Index(f));
    } else if Index(f) < i {
      OrderStrictlyIncreasing(Index(f), i);
    }
  }

  lemma {:induction false} ValueOfSingle(f: Flag, n: nat)
    requires n <= |ORDER|
    ensures ValueOf({f}, n) == if Index(f) < n then Pow2(Pos(f)) else 0
  {
    if n > 0 {
      ValueOfSingle(f, n - 1);
      IndexUnique(n - 1, f);
    }
  }

  lemma {:induction false} OrderStrictlyIncreasing(i: nat, j: nat)
    requires i < j < |ORDER|
    ensures Pos(ORDER[i]) < Pos(ORDER[j])
    decreases j - i
  {
    OrderIncreasing();
    if i + 1 < j {
      OrderStrictlyIncreasing(i, j - 1);
    }
  }

  /** Every flag is a single power of two, `1 << Pos(f)`, as common/mod.rs defines it. */
  lemma ValueOfFlag(f: Flag)
    ensures Value({f}) == Pow2(Pos(f))
  {
    ValueOfSingle(f, |ORDER|);
  }

  // ---------------------------------------------------------------------------
  // Facts about the constants

  /** Every field flag, status flag and sort flag is a single, distinct bit, and
      NODE_NONE is 0. */
  lemma FlagsAreDistinctBits(f: Flag, g: Flag)
    ensures Value({f}) == Pow2(Pos(f))
    ensures f != g ==> Value({f}) != Value({g})
    ensures Value(NODE_NONE) == 0
  {
    ValueOfFlag(f);
    ValueOfFlag(g);
    if f != g && Value({f}) == Value({g}) {
      ValueInjective({f}, {g});
    }
    ValueOfEmpty(|ORDER|);
  }

  /** The bit positions written in common/mod.rs. */
  lemma FlagPositions()
    ensures Pos(Name) == 0 && Pos(Sha256) == 1 && Pos(Status) == 2 && Pos(Modified) == 3
    ensures Pos(Accessed) == 4 && Pos(Created) == 5 && Pos(Size) == 6 && Pos(FileType) == 7
    ensures Pos(Children) == 8 && Pos(FullPath) == 10 && Pos(Desc) == 11 && Pos(Tags) == 12
    ensures Pos(Comment) == 13 && Pos(Hidden) == 14 && Pos(NotExists) == 15 && Pos(Untracked) == 16
    ensures Pos(SortAsc) == 23 && Pos(SortDsc) == 24
  {
  }

  lemma AutoManualPartition()
    ensures NODE_AUTO * NODE_MANUAL == NODE_NONE
    ensures NODE_ALL == (NODE_AUTO + NODE_MANUAL) - NODE_HIDDEN
  {
  }

  lemma DefaultWithinAll()
    ensures NODE_DEFAULT == {Name, Desc, Size, FileType, Comment}
    ensures NODE_DEFAULT <= NODE_ALL
  {
  }

  /** `bitflag & NODE_ALL` strips the sort-direction, comparison-outcome and hidden bits. */
  lemma AllExcludesNonFields(m: Mask)
    ensures NODE_ALL * (SORT_ASC + SORT_DSC + NODE_NOT_EXISTS + NODE_UNTRACKED + NODE_HIDDEN) == NODE_NONE
    ensures (m + SORT_ASC + SORT_DSC) * NODE_ALL == m * NODE_ALL
  {
  }

  lemma NamedSubsets()
    ensures NODE_OPTIONALS * (NODE_NAME + NODE_CHILDREN + NODE_COMMENT + NODE_HIDDEN) == NODE_NONE
    ensures NODE_BASICS <= NODE_AUTO
    ensures NODE_DYNAMICS <= NODE_AUTO
  {
  }

  lemma KeyFieldsWithinAll()
    ensures KEY_FIELDS <= NODE_ALL
    ensures KEY_FIELDS == NODE_ALL - {Children, FullPath, Comment}
  {
  }

  // ---------------------------------------------------------------------------
  // The sort key of `cmp_ext`

  /** The single key field selected by `bitflag & NODE_ALL`, if it is exactly one
      (the arms of the `match` in `cmp_ext`). */
  function SortField(m: Mask): (r: Option<Flag>)
  {
    var k := m * NODE_ALL;
    if k == NODE_NAME then Some(Name)
    else if k == NODE_DESC then Some(Desc)
    else if k == NODE_TAGS then Some(Tags)
    else if k == NODE_SHA256 then Some(Sha256)
    else if k == NODE_STATUS then Some(Status)
    else if k == NODE_MODIFIED then Some(Modified)
    else if k == NODE_ACCESSED then Some(Accessed)
    else if k == NODE_CREATED then Some(Created)
    else if k == NODE_SIZE then Some(Size)
    else if k == NODE_FILE_TYPE then Some(FileType)
    else None
  }

  /** A sort field is found exactly when `m` selects one key field and no other
      field of NODE_ALL; direction bits do not matter. */
  lemma SortFieldSpec(m: Mask, f: Flag)
    ensures SortField(m) == Some(f) <==> IsKeyField(f) && m * NODE_ALL == {f}
    ensures SortField(m + SORT_ASC + SORT_DSC) == SortField(m)
  {
    AllExcludesNonFields(m);
  }

  /** Under a single-field sort mask, the only key field selected is the sort field. */
  lemma SortFieldSelects(m: Mask, g: Flag)
    requires SortField(m).Some? && IsKeyField(g)
    ensures g in m <==> g == SortField(m).value
  {
    SortFieldSpec(m, SortField(m).value);
    assert g in NODE_ALL;
    assert g in m <==> g in m * NODE_ALL;
  }
}
