/** What `add_path_ext` and `fill_compare_status` read from the filesystem
    (src/file_tree/node/node.rs:116-225, 649-714), as a value: a listing is
    what `fs::read_dir` yields, entry by entry, with its read errors, and an
    entry carries what `DirEntry::metadata` and `Path::is_dir` report. */
module Scan {

  import opened Base
  import opened FieldMask
  import opened NodeDatas
  import opened TreeEntries
  import opened Views
  import FileTypes

  /** What `DirEntry::metadata` gives: the times already in chrono's
      `to_string` form, None where the platform cannot report one; the length;
      the kind, None for anything that is neither a directory, a file nor a
      symlink. */
  datatype Metadata = Metadata(
    created: Option<string>,
    accessed: Option<string>,
    modified: Option<string>,
    len: u64,
    kind: Option<FileTypes.FileType>)

  /** One entry of a listing: its file name, its metadata (None when reading
      them fails), whether its path is a directory (following links) and, for
      a directory, what reading it yields. */
  datatype DirEntry = DirEntry(name: string, metadata: Option<Metadata>, isDir: bool, contents: Listing)

  /** `fs::read_dir`: an error, or the entries in the order the platform
      returns them, each of which may itself be an error. */
  datatype Listing = Unreadable | Listing(items: seq<Item>)

  datatype Item = ItemError | Item(entry: DirEntry)

  /** `is_ignore`: the entry's name is, exactly, one of the ignore list's. */
  predicate IsIgnore(name: string, ignore: Option<seq<string>>)
  {
    ignore.Some? && name in ignore.value
  }

  /** An item the walk reads without error: it is an entry and, unless ignored,
      a directory whose listing is readable too. */
  predicate ItemReadable(it: Item, ignore: Option<seq<string>>)
    decreases it, 1
  {
    it.Item? && (IsIgnore(it.entry.name, ignore) || !it.entry.isDir || Readable(it.entry.contents, ignore))
  }

  /** The first `n` items of the listing are read without error. */
  predicate ReadableUpTo(l: Listing, n: nat, ignore: Option<seq<string>>)
    decreases l, 0
  {
    l.Listing? && n <= |l.items| && forall k :: 0 <= k < n ==> ItemReadable(l.items[k], ignore)
  }

  /** The walk over the listing, and over every directory below it that is not
      ignored, meets no error. */
  predicate Readable(l: Listing, ignore: Option<seq<string>>)
    decreases l, 1
  {
    l.Listing? && ReadableUpTo(l, |l.items|, ignore)
  }

  /** `from_dir_entry_ext`: a node named after the entry; desc is set to ""
      when NODE_DESC or NODE_COMMENT is selected; when the metadata can be read,
      each selected time that the platform reports, the length, the kind and
      (for NODE_TAGS) the tag list `[""]` are set; nothing else is. */
  function FromDirEntryExt(e: DirEntry, bitflag: Mask): NodeData
  {
    var m := e.metadata;
    NewData(e.name, None).(
      desc := if Desc in bitflag || Comment in bitflag then Some("") else None,
      created := if Created in bitflag && m.Some? then m.value.created else None,
      accessed := if Accessed in bitflag && m.Some? then m.value.accessed else None,
      modified := if Modified in bitflag && m.Some? then m.value.modified else None,
      size := if Size in bitflag && m.Some? then Some(m.value.len) else None,
      fileType := if FileType in bitflag && m.Some? then m.value.kind else None,
      tags := if Tags in bitflag && m.Some? then Some([""]) else None)
  }

  /** Only selected attributes are filled, desc also under NODE_COMMENT (which
      never fills the comment itself); the ones that need no platform support
      are filled whenever the metadata can be read; the node is unlinked. */
  lemma FromDirEntryExtFields(e: DirEntry, bitflag: Mask, f: Flag)
    ensures var d := FromDirEntryExt(e, bitflag);
            && d.file == e.name && d.parent.None? && d.children.None?
            && (f in CLEARABLE && f != Desc && !IsUnset(d, f) ==> f in bitflag)
            && (IsUnset(d, Desc) <==> Desc !in bitflag && Comment !in bitflag)
            && d.comment.None? && d.sha256.None? && d.status.None? && d.hidden.None? && d.compare.None?
            && (e.metadata.Some? && (f == Size || f == Tags) && f in bitflag ==> !IsUnset(d, f))
            && (e.metadata.None? && f in CLEARABLE && f != Desc ==> IsUnset(d, f))
  {
  }

  /** The entries `add_path_ext` adds for the first `n` items: one per entry
      that is not ignored, in listing order. */
  function ScanItems(l: Listing, n: nat, ignore: Option<seq<string>>, bitflag: Mask): (r: seq<TreeEntry>)
    requires ReadableUpTo(l, n, ignore)
    ensures |r| <= n
    decreases l, n
  {
    if n == 0 then []
    else
      assert ItemReadable(l.items[n - 1], ignore);
      var e := l.items[n - 1].entry;
      ScanItems(l, n - 1, ignore, bitflag) + (if IsIgnore(e.name, ignore) then [] else [ScanEntry(e, ignore, bitflag)])
  }

  /** The entries of a whole listing. */
  function ScanList(l: Listing, ignore: Option<seq<string>>, bitflag: Mask): seq<TreeEntry>
    requires Readable(l, ignore)
  {
    ScanItems(l, |l.items|, ignore, bitflag)
  }

  /** The entry of the node `add_path_ext` builds for `e`: its record and, for a
      directory with entries that are not ignored, their entries; a node to
      which nothing was added keeps no children list. */
  function ScanEntry(e: DirEntry, ignore: Option<seq<string>>, bitflag: Mask): (r: TreeEntry)
    requires e.isDir ==> Readable(e.contents, ignore)
    ensures FirstName(r) == Some(e.name) && FirstBody(r).Some?
    decreases e, 0
  {
    var kids := if e.isDir then ScanItems(e.contents, |e.contents.items|, ignore, bitflag) else [];
    New(e.name, BodyOf(FromDirEntryExt(e, bitflag), if kids == [] then None else Some(EntryList(kids))))
  }

  /** A scanned entry has the shape `TreeEntry::from` saves: one key bound to a
      body, at every level. */
  lemma {:induction false} ScanEntrySaved(e: DirEntry, ignore: Option<seq<string>>, bitflag: Mask)
    requires e.isDir ==> Readable(e.contents, ignore)
    ensures Saved(ScanEntry(e, ignore, bitflag))
    decreases e, 0
  {
    var kids := if e.isDir then ScanItems(e.contents, |e.contents.items|, ignore, bitflag) else [];
    if e.isDir {
      ScanItemsSaved(e.contents, |e.contents.items|, ignore, bitflag);
    }
    var r := ScanEntry(e, ignore, bitflag);
    assert r.entries == [(e.name, Some(BodyOf(FromDirEntryExt(e, bitflag), if kids == [] then None else Some(EntryList(kids)))))];
  }

  lemma {:induction false} ScanItemsSaved(l: Listing, n: nat, ignore: Option<seq<string>>, bitflag: Mask)
    requires ReadableUpTo(l, n, ignore)
    ensures forall k :: 0 <= k < |ScanItems(l, n, ignore, bitflag)| ==> Saved(ScanItems(l, n, ignore, bitflag)[k])
    decreases l, n
  {
    if n > 0 {
      assert ItemReadable(l.items[n - 1], ignore);
      var e := l.items[n - 1].entry;
      ScanItemsSaved(l, n - 1, ignore, bitflag);
      if !IsIgnore(e.name, ignore) {
        ScanEntrySaved(e, ignore, bitflag);
      }
    }
  }

  /** One of the first `n` items is an entry named `name` that is not ignored. */
  predicate Listed(l: Listing, n: nat, name: string, ignore: Option<seq<string>>)
    requires l.Listing? && n <= |l.items|
  {
    exists k :: 0 <= k < n && l.items[k].Item? && l.items[k].entry.name == name && !IsIgnore(name, ignore)
  }

  /** The names of the first `n` entries that are not ignored. */
  function NamesUpTo(l: Listing, n: nat, ignore: Option<seq<string>>): set<string>
    requires l.Listing? && n <= |l.items|
  {
    set k | 0 <= k < n && l.items[k].Item? && !IsIgnore(l.items[k].entry.name, ignore) :: l.items[k].entry.name
  }

  /** The names of a listing's entries that are not ignored; none for a
      listing that cannot be read. */
  function ListedNames(l: Listing, ignore: Option<seq<string>>): set<string>
  {
    if l.Unreadable? then {} else NamesUpTo(l, |l.items|, ignore)
  }

  /** No two entries of the listing, or of any listing below it, share a name,
      as in a directory of a real filesystem. */
  predicate DistinctNames(l: Listing)
    decreases l
  {
    l.Listing? ==>
      && (forall a, b :: 0 <= a < b < |l.items| && l.items[a].Item? && l.items[b].Item? ==>
            l.items[a].entry.name != l.items[b].entry.name)
      && forall k :: 0 <= k < |l.items| && l.items[k].Item? && l.items[k].entry.isDir ==>
            DistinctNames(l.items[k].entry.contents)
  }

  /** The entry names below a directory entry are distinct. */
  predicate EntryDistinct(e: DirEntry)
  {
    e.isDir ==> DistinctNames(e.contents)
  }

  /** One more entry adds its name, unless ignored; with distinct names that
      name was not among the earlier ones. */
  lemma NamesStep(l: Listing, k: nat, ignore: Option<seq<string>>)
    requires l.Listing? && k < |l.items| && l.items[k].Item?
    ensures var name := l.items[k].entry.name;
            NamesUpTo(l, k + 1, ignore) == NamesUpTo(l, k, ignore) + (if IsIgnore(name, ignore) then {} else {name})
    ensures DistinctNames(l) ==> l.items[k].entry.name !in NamesUpTo(l, k, ignore) && EntryDistinct(l.items[k].entry)
  {
    var name := l.items[k].entry.name;
    var a, b := NamesUpTo(l, k, ignore), NamesUpTo(l, k + 1, ignore);
    forall m | m in b ensures m in a + (if IsIgnore(name, ignore) then {} else {name}) {
      var j :| 0 <= j < k + 1 && l.items[j].Item? && !IsIgnore(l.items[j].entry.name, ignore) && l.items[j].entry.name == m;
    }
    if DistinctNames(l) {
      forall j | 0 <= j < k && l.items[j].Item? ensures l.items[j].entry.name != name {
      }
    }
  }

  /** Each scanned entry is named after a listed entry that is not ignored. */
  lemma {:induction false} ScanItemsNames(l: Listing, n: nat, ignore: Option<seq<string>>, bitflag: Mask)
    requires ReadableUpTo(l, n, ignore)
    ensures forall j :: 0 <= j < |ScanItems(l, n, ignore, bitflag)| ==>
              |Keys(ScanItems(l, n, ignore, bitflag)[j])| == 1 && Listed(l, n, Keys(ScanItems(l, n, ignore, bitflag)[j])[0], ignore)
    decreases n
  {
    if n > 0 {
      ScanItemsNames(l, n - 1, ignore, bitflag);
      var a := ScanItems(l, n - 1, ignore, bitflag);
      var r := ScanItems(l, n, ignore, bitflag);
      assert ItemReadable(l.items[n - 1], ignore);
      var e := l.items[n - 1].entry;
      forall j | 0 <= j < |r| ensures |Keys(r[j])| == 1 && Listed(l, n, Keys(r[j])[0], ignore) {
        if j < |a| {
          assert r[j] == a[j];
          var k :| 0 <= k < n - 1 && l.items[k].Item? && l.items[k].entry.name == Keys(a[j])[0] && !IsIgnore(Keys(a[j])[0], ignore);
        } else {
          assert r == a + [ScanEntry(e, ignore, bitflag)];
          assert Keys(r[j]) == [e.name];
        }
      }
    }
  }

  /** Every entry that is not ignored is scanned: the count of scanned entries
      is the count of listed ones minus the ignored ones. */
  lemma {:induction false} ScanItemsCount(l: Listing, n: nat, ignore: Option<seq<string>>, bitflag: Mask)
    requires ReadableUpTo(l, n, ignore)
    ensures |ScanItems(l, n, ignore, bitflag)| == n - IgnoredCount(l, n, ignore)
    decreases n
  {
    if n > 0 {
      ScanItemsCount(l, n - 1, ignore, bitflag);
    }
  }

  /** How many of the first `n` entries are ignored. */
  function IgnoredCount(l: Listing, n: nat, ignore: Option<seq<string>>): (c: nat)
    requires ReadableUpTo(l, n, ignore)
    ensures c <= n
  {
    if n == 0 then 0
    else
      assert ItemReadable(l.items[n - 1], ignore);
      IgnoredCount(l, n - 1, ignore) + (if IsIgnore(l.items[n - 1].entry.name, ignore) then 1 else 0)
  }
}
