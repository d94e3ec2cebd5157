/** The persisted shape of a tree (src/file_tree/db/tree_entry.rs and
    tree_entry_body.rs): a `TreeEntry` is a `BTreeMap` from names to optional
    bodies, used with a single key, and a body holds a node's attributes and
    the entries of its children. The map is a key-ordered list of pairs. */
module TreeEntries {

  import opened Base
  import opened FieldMask
  import FileTypes

  datatype TreeEntry = TreeEntry(entries: seq<(string, Option<TreeEntryBody>)>)

  datatype TreeEntryBody = TreeEntryBody(
    desc: Option<string>,
    tags: Option<seq<string>>,
    sha256: Option<string>,
    status: Option<Mask>,
    modified: Option<string>,
    accessed: Option<string>,
    created: Option<string>,
    size: Option<u64>,
    fileType: Option<FileTypes.FileType>,
    compare: Option<Mask>,
    children: Option<EntryList>,
    hidden: Option<bool>,
    comment: Option<string>)

  /** The `Vec<TreeEntry>` of a body's children (a datatype of its own so that
      recursion over the entries of a tree is seen to terminate). */
  datatype EntryList = EntryList(list: seq<TreeEntry>)

  /** `TreeEntryBody::default()`: every attribute unset. */
  const EMPTY_BODY: TreeEntryBody :=
    TreeEntryBody(None, None, None, None, None, None, None, None, None, None, None, None, None)

  /** The keys of the map, in iteration order. */
  function Keys(e: TreeEntry): (r: seq<string>)
    ensures |r| == |e.entries|
    ensures forall k :: 0 <= k < |r| ==> r[k] == e.entries[k].0
  {
    seq(|e.entries|, k requires 0 <= k < |e.entries| => e.entries[k].0)
  }

  /** A `BTreeMap`: keys strictly increasing, hence distinct. */
  predicate IsMap(e: TreeEntry)
  {
    forall a, b :: 0 <= a < b < |e.entries| ==> StrCmp(e.entries[a].0, e.entries[b].0) == Less
  }

  /** The value stored under `key`, if any. */
  function Lookup(e: TreeEntry, key: string): Option<Option<TreeEntryBody>>
  {
    LookupIn(e.entries, key)
  }

  function LookupIn(es: seq<(string, Option<TreeEntryBody>)>, key: string): Option<Option<TreeEntryBody>>
  {
    if es == [] then None
    else if es[0].0 == key then Some(es[0].1)
    else LookupIn(es[1..], key)
  }

  /** `TreeEntry::new(name, body)`: a map with the single key `name`, bound to `Some(body)`. */
  function New(name: string, body: TreeEntryBody): (r: TreeEntry)
    ensures IsMap(r) && Keys(r) == [name]
    ensures Lookup(r, name) == Some(Some(body))
    ensures forall key :: key != name ==> Lookup(r, key).None?
  {
    var r := TreeEntry([(name, Some(body))]);
    assert r.entries[1..] == [];
    assert forall key :: key != name ==> LookupIn(r.entries, key) == LookupIn(r.entries[1..], key);
    r
  }

  /** `first`: the entry of the least key, None for an empty map. */
  function First(e: TreeEntry): (r: Option<(string, Option<TreeEntryBody>)>)
    ensures r.None? <==> |Keys(e)| == 0
    ensures r.Some? ==> Lookup(e, r.value.0) == Some(r.value.1)
    ensures r.Some? && IsMap(e) ==> forall k :: 0 <= k < |Keys(e)| ==> StrCmp(r.value.0, Keys(e)[k]) != Greater
  {
    if e.entries == [] then None else Some(e.entries[0])
  }

  /** `first_name`. */
  function FirstName(e: TreeEntry): (r: Option<string>)
    ensures r.Some? <==> First(e).Some?
    ensures r.Some? ==> r.value == First(e).value.0
  {
    match First(e)
    case None => None
    case Some((name, _)) => Some(name)
  }

  /** `first_body`: None when the map is empty or the first value is None. */
  function FirstBody(e: TreeEntry): (r: Option<TreeEntryBody>)
    ensures r.Some? <==> First(e).Some? && First(e).value.1.Some?
    ensures r.Some? ==> First(e).value.1 == Some(r.value)
  {
    match First(e)
    case None => None
    case Some((_, body)) => body
  }

  /** A write through `first_body_mut`: the first entry's body, when there is
      one, is replaced; every key and every other entry is unchanged. */
  function SetFirstBody(e: TreeEntry, body: TreeEntryBody): (r: TreeEntry)
    ensures Keys(r) == Keys(e) && |r.entries| == |e.entries|
    ensures forall k :: 1 <= k < |e.entries| ==> r.entries[k] == e.entries[k]
    ensures FirstBody(e).Some? ==> FirstBody(r) == Some(body)
    ensures FirstBody(e).None? ==> r == e
  {
    if FirstBody(e).Some? then TreeEntry([(e.entries[0].0, Some(body))] + e.entries[1..]) else e
  }

  /** The map keeps its order under `first_body_mut`. */
  lemma SetFirstBodyKeepsMap(e: TreeEntry, body: TreeEntryBody)
    requires IsMap(e)
    ensures IsMap(SetFirstBody(e, body))
  {
    var r := SetFirstBody(e, body);
    assert forall k :: 0 <= k < |e.entries| ==> r.entries[k].0 == e.entries[k].0 by {
      forall k | 0 <= k < |e.entries| ensures r.entries[k].0 == e.entries[k].0 {
        assert Keys(r)[k] == Keys(e)[k];
      }
    }
  }

  // ---------------------------------------------------------------------------
  // The entries `TreeEntry::from(&Node)` produces, and what `Node::from_tree_entry`
  // keeps of an entry.

  /** Every map holds exactly one key bound to a body, recursively: the shape
      `TreeEntry::from` produces. */
  predicate Saved(e: TreeEntry)
    decreases e
  {
    && |e.entries| == 1 && e.entries[0].1.Some?
    && var b := e.entries[0].1.value;
       b.children.Some? ==> forall k :: 0 <= k < |b.children.value.list| ==> Saved(b.children.value.list[k])
  }

  /** `hidden` and `comment` dropped at every level. */
  function Strip(e: TreeEntry): (r: TreeEntry)
    ensures |r.entries| == |e.entries|
    decreases e
  {
    TreeEntry(seq(|e.entries|, i requires 0 <= i < |e.entries| => StripPair(e.entries[i])))
  }

  function StripPair(p: (string, Option<TreeEntryBody>)): (string, Option<TreeEntryBody>)
    decreases p
  {
    match p.1
    case None => (p.0, None)
    case Some(b) => (p.0, Some(StripBody(b)))
  }

  function StripBody(b: TreeEntryBody): TreeEntryBody
    decreases b
  {
    match b.children
    case None => b.(hidden := None, comment := None)
    case Some(cs) => b.(hidden := None, comment := None, children := Some(StripList(cs)))
  }

  function StripList(cs: EntryList): (r: EntryList)
    ensures |r.list| == |cs.list|
    decreases cs
  {
    EntryList(seq(|cs.list|, k requires 0 <= k < |cs.list| => Strip(cs.list[k])))
  }

  /** The entry of the node `Node::from_tree_entry(e)` builds: only the first key
      is read; without a body (or without a key) the node is the default one
      with an empty name; `hidden` and `comment` are not copied. */
  function Loaded(e: TreeEntry): TreeEntry
    decreases e
  {
    if |e.entries| > 0 && e.entries[0].1.Some? then New(e.entries[0].0, LoadedBody(e.entries[0].1.value))
    else New("", EMPTY_BODY)
  }

  function LoadedBody(b: TreeEntryBody): TreeEntryBody
    decreases b
  {
    match b.children
    case None => b.(hidden := None, comment := None)
    case Some(cs) => b.(hidden := None, comment := None, children := Some(LoadedList(cs)))
  }

  function LoadedList(cs: EntryList): (r: EntryList)
    ensures |r.list| == |cs.list|
    decreases cs
  {
    EntryList(seq(|cs.list|, k requires 0 <= k < |cs.list| => Loaded(cs.list[k])))
  }

  /** The entry of a loaded node is itself of the saved shape. */
  lemma {:induction false} LoadedIsSaved(e: TreeEntry)
    ensures Saved(Loaded(e))
    decreases e
  {
    if |e.entries| > 0 && e.entries[0].1.Some? {
      var b := e.entries[0].1.value;
      var lb := LoadedBody(b);
      assert Loaded(e).entries == [(e.entries[0].0, Some(lb))];
      if b.children.Some? {
        var cs := b.children.value.list;
        var ls := LoadedList(b.children.value).list;
        assert lb.children == Some(LoadedList(b.children.value));
        forall k | 0 <= k < |ls| ensures Saved(ls[k]) {
          assert ls[k] == Loaded(cs[k]);
          LoadedIsSaved(cs[k]);
        }
      }
    } else {
      assert Loaded(e).entries == [("", Some(EMPTY_BODY))];
    }
  }

  /** Round trip: loading an entry of the saved shape gives it back without
      `hidden` and `comment`. */
  lemma {:induction false} LoadSaved(e: TreeEntry)
    requires Saved(e)
    ensures Loaded(e) == Strip(e)
    decreases e
  {
    var b := e.entries[0].1.value;
    if b.children.Some? {
      var cs := b.children.value;
      forall k | 0 <= k < |cs.list| ensures Loaded(cs.list[k]) == Strip(cs.list[k]) {
        LoadSaved(cs.list[k]);
      }
      assert LoadedList(cs) == StripList(cs);
    }
    assert LoadedBody(b) == StripBody(b);
    assert e.entries == [(e.entries[0].0, Some(b))];
    assert Strip(e).entries == [(e.entries[0].0, Some(StripBody(b)))];
  }

  /** Stripping a loaded entry changes nothing: it holds no hidden or comment. */
  lemma {:induction false} LoadedStripped(e: TreeEntry)
    ensures Strip(Loaded(e)) == Loaded(e)
    decreases e
  {
    var l := Loaded(e);
    if |e.entries| > 0 && e.entries[0].1.Some? {
      var b := e.entries[0].1.value;
      if b.children.Some? {
        var cs := b.children.value;
        forall k | 0 <= k < |cs.list| ensures Strip(Loaded(cs.list[k])) == Loaded(cs.list[k]) {
          LoadedStripped(cs.list[k]);
        }
        assert StripList(LoadedList(cs)) == LoadedList(cs);
      }
    }
    assert Strip(l).entries == [StripPair(l.entries[0])];
  }

  /** Loading is idempotent: a node rebuilt from a loaded entry is rebuilt alike. */
  lemma LoadedIdempotent(e: TreeEntry)
    ensures Loaded(Loaded(e)) == Loaded(e)
  {
    LoadedIsSaved(e);
    LoadSaved(Loaded(e));
    LoadedStripped(e);
  }
}
