/** src/file_tree/common/file_type.rs: the kind of a tracked entry, its derived
    ordering (declaration order), its `Display` text and its serialised name. */
module FileTypes {

  import opened Base

  datatype FileType = Directory | File | Symlink

  /** Position in the declaration, which the derived `Ord` follows. */
  function Rank(t: FileType): nat
  {
    match t
    case Directory => 0
    case File => 1
    case Symlink => 2
  }

  /** The derived `Ord::cmp`. */
  function Cmp(a: FileType, b: FileType): (r: Ordering)
  {
    if Rank(a) < Rank(b) then Less else if Rank(a) > Rank(b) then Greater else Equal
  }

  /** `impl Display for FileType` */
  function ToString(t: FileType): string
  {
    match t
    case Directory => "Directory"
    case File => "File"
    case Symlink => "Symlink"
  }

  /** The `#[serde(rename = ...)]` names used in the persisted document. */
  function SerialName(t: FileType): string
  {
    match t
    case Directory => "directory"
    case File => "file"
    case Symlink => "symlink"
  }

  /** Deserialisation of the persisted name. */
  function FromSerialName(s: string): (r: Option<FileType>)
    ensures r.Some? ==> SerialName(r.value) == s
  {
    if s == "directory" then Some(Directory)
    else if s == "file" then Some(File)
    else if s == "symlink" then Some(Symlink)
    else None
  }

  lemma ExactlyThreeVariants(t: FileType)
    ensures t == Directory || t == File || t == Symlink
    ensures Rank(t) < 3
  {
  }

  /** Directory < File < Symlink, and the order is a strict total order. */
  lemma DeclarationOrder()
    ensures Cmp(Directory, File) == Less && Cmp(File, Symlink) == Less
    ensures Cmp(Directory, Symlink) == Less
    ensures forall a, b :: Cmp(a, b) == Equal <==> a == b
    ensures forall a, b :: Cmp(b, a) == Cmp(a, b).Reverse()
  {
  }

  lemma CmpTransitive(a: FileType, b: FileType, c: FileType)
    requires Cmp(a, b) != Greater && Cmp(b, c) != Greater
    ensures Cmp(a, c) != Greater
  {
  }

  /** Distinct variants display differently. */
  lemma DisplayInjective(a: FileType, b: FileType)
    requires ToString(a) == ToString(b)
    ensures a == b
  {
  }

  /** The serialised names are lower-case, differ from the displayed ones, and
      deserialise back to the same variant. */
  lemma SerialNames(t: FileType)
    ensures SerialName(t) != ToString(t)
    ensures FromSerialName(SerialName(t)) == Some(t)
    ensures FromSerialName(ToString(t)).None?
  {
  }
}
