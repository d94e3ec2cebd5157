/** The text projections of a node in src/file_tree/node/node.rs: the names of
    the flags in a mask (`bitflag_to_string`), the plain listing of a node's
    selected fields (`to_string_ext`) and the coloured one
    (`to_colored_string_ext`, `to_colored_string`). Each builds a vector of
    words by pushing the fields in a fixed order and joins it with single spaces. */
module Text {

  import opened Base
  import opened FieldMask
  import opened NodeDatas
  import opened Color
  import opened ColorSchemes
  import FileTypes

  // ---------------------------------------------------------------------------
  // bitflag_to_string

  /** The flags `bitflag_to_string` names, in the order it pushes them. */
  const NAMED_ORDER: seq<Flag> := [Desc, Sha256, Modified, Accessed, Created, Size, FileType, Tags, Comment]
  const NAMED: Mask := {Desc, Sha256, Modified, Accessed, Created, Size, FileType, Tags, Comment}

  /** The word pushed for each named flag. */
  function Word(f: Flag): string
  {
    match f
    case Desc => "desc"
    case Sha256 => "sha256"
    case Modified => "modified"
    case Accessed => "accessed"
    case Created => "created"
    case Size => "size"
    case FileType => "type"
    case Tags => "tags"
    case Comment => "comment"
    case _ => ""
  }

  /** The words are nonempty, hold no space, and name the flags one to one. */
  lemma WordsDistinct(f: Flag, g: Flag)
    requires f in NAMED && g in NAMED
    ensures Word(f) != "" && ' ' !in Word(f)
    ensures Word(f) == Word(g) ==> f == g
  {
  }

  /** The words pushed for the flags of `fs` that `m` holds, in the order of `fs`. */
  function FlagWords(m: Mask, fs: seq<Flag>): seq<string>
  {
    if fs == [] then []
    else (if fs[0] in m then [Word(fs[0])] else []) + FlagWords(m, fs[1..])
  }

  lemma {:induction false} FlagWordsMembers(m: Mask, fs: seq<Flag>, f: Flag)
    requires forall k :: 0 <= k < |fs| ==> fs[k] in NAMED
    requires f in NAMED
    ensures Word(f) in FlagWords(m, fs) <==> f in m && f in fs
  {
    if fs != [] {
      FlagWordsMembers(m, fs[1..], f);
      WordsDistinct(f, fs[0]);
    }
  }

  lemma {:induction false} FlagWordsShape(m: Mask, fs: seq<Flag>)
    requires forall k :: 0 <= k < |fs| ==> fs[k] in NAMED
    ensures forall k :: 0 <= k < |FlagWords(m, fs)| ==> ' ' !in FlagWords(m, fs)[k] && FlagWords(m, fs)[k] != ""
    ensures FlagWords(m, fs) == FlagWords(m * NAMED, fs)
  {
    if fs != [] {
      FlagWordsShape(m, fs[1..]);
      WordsDistinct(fs[0], fs[0]);
    }
  }

  /** `bitflag_to_string`: the words of the selected named flags joined by spaces;
      name, status, children, full path and the non-field bits print nothing. */
  function BitflagToString(m: Mask): string
  {
    Join(FlagWords(m, NAMED_ORDER), " ")
  }

  /** Reading the flags back from the words of a string. */
  function ParseFlags(s: string): Mask
  {
    set f | f in NAMED && Word(f) in Split(s, ' ')
  }

  /** The printed words give back exactly the named flags of the mask. */
  lemma BitflagRoundTrip(m: Mask)
    ensures ParseFlags(BitflagToString(m)) == m * NAMED
  {
    var ws := FlagWords(m, NAMED_ORDER);
    FlagWordsShape(m, NAMED_ORDER);
    if |ws| >= 1 {
      SplitJoin(ws, ' ');
    } else {
      assert Split("", ' ') == [""];
    }
    forall f | f in NAMED ensures Word(f) in Split(BitflagToString(m), ' ') <==> f in m {
      FlagWordsMembers(m, NAMED_ORDER, f);
      WordsDistinct(f, f);
    }
  }

  /** Two masks print alike exactly when they hold the same named flags. */
  lemma BitflagToStringInjective(m1: Mask, m2: Mask)
    ensures BitflagToString(m1) == BitflagToString(m2) <==> m1 * NAMED == m2 * NAMED
  {
    BitflagRoundTrip(m1);
    BitflagRoundTrip(m2);
    FlagWordsShape(m1, NAMED_ORDER);
    FlagWordsShape(m2, NAMED_ORDER);
  }

  // ---------------------------------------------------------------------------
  // to_string_ext

  function Quoted(s: string): string
  {
    "\"" + s + "\""
  }

  /** None of the words holds a space. */
  predicate Spaceless(ws: seq<string>)
  {
    forall k :: 0 <= k < |ws| ==> ' ' !in ws[k]
  }

  /** A selected and set optional field as a one-word list. */
  function Opt(selected: bool, v: Option<string>): (r: seq<string>)
    ensures (v.Some? ==> ' ' !in v.value) ==> Spaceless(r)
  {
    if selected && v.Some? then [v.value] else []
  }

  function NamePart(d: NodeData, m: Mask): (r: seq<string>)
    ensures ' ' !in d.file ==> Spaceless(r)
  {
    if Name in m then [d.file] else []
  }

  function DescPart(d: NodeData, m: Mask): (r: seq<string>)
    ensures (d.desc.Some? ==> ' ' !in d.desc.value) ==> Spaceless(r)
  {
    if Desc in m && d.desc.Some? then [Quoted(d.desc.value)] else []
  }

  /** A number as its decimal digits, which hold no space. */
  function Number(selected: bool, v: Option<nat>): (r: seq<string>)
    ensures Spaceless(r)
  {
    if selected && v.Some? then [NatToString(v.value)] else []
  }

  function TypePart(d: NodeData, m: Mask): (r: seq<string>)
    ensures Spaceless(r)
  {
    if FileType in m && d.fileType.Some? then
      FileTypes.DisplayInjective(d.fileType.value, d.fileType.value);
      [FileTypes.ToString(d.fileType.value)]
    else []
  }

  /** The words `to_string_ext` pushes: name, quoted description, hash, status
      (as its decimal value), the three timestamps, size and file type, each only
      when selected and set. Comment, hidden and children are never pushed. */
  function Fields(d: NodeData, m: Mask): seq<string>
  {
    NamePart(d, m)
    + DescPart(d, m)
    + Opt(Sha256 in m, d.sha256)
    + Number(Status in m, if d.status.Some? then Some(Value(d.status.value)) else None)
    + Opt(Modified in m, d.modified)
    + Opt(Accessed in m, d.accessed)
    + Opt(Created in m, d.created)
    + Number(Size in m, if d.size.Some? then Some(d.size.value as nat) else None)
    + TypePart(d, m)
  }

  /** `to_string_ext`; selecting NODE_TAGS reaches `unimplemented!()` in the source. */
  function ToStringExt(d: NodeData, m: Mask): string
    requires Tags !in m
  {
    Join(Fields(d, m), " ")
  }

  /** No text field of the node holds a space. */
  predicate NoSpaces(d: NodeData)
  {
    && ' ' !in d.file
    && (d.desc.Some? ==> ' ' !in d.desc.value)
    && (d.sha256.Some? ==> ' ' !in d.sha256.value)
    && (d.modified.Some? ==> ' ' !in d.modified.value)
    && (d.accessed.Some? ==> ' ' !in d.accessed.value)
    && (d.created.Some? ==> ' ' !in d.created.value)
  }

  lemma SpacelessConcat(a: seq<string>, b: seq<string>)
    requires Spaceless(a) && Spaceless(b)
    ensures Spaceless(a + b)
  {
    forall k | 0 <= k < |a + b| ensures ' ' !in (a + b)[k] {
      if k >= |a| {
        assert (a + b)[k] == b[k - |a|];
      }
    }
  }

  lemma SpacelessFields(d: NodeData, m: Mask)
    requires NoSpaces(d)
    ensures Spaceless(Fields(d, m))
  {
    var n := NamePart(d, m);
    var q := DescPart(d, m);
    var a := Opt(Sha256 in m, d.sha256);
    var st := Number(Status in m, if d.status.Some? then Some(Value(d.status.value)) else None);
    var b := Opt(Modified in m, d.modified);
    var c := Opt(Accessed in m, d.accessed);
    var e := Opt(Created in m, d.created);
    var sz := Number(Size in m, if d.size.Some? then Some(d.size.value as nat) else None);
    var ty := TypePart(d, m);
    SpacelessConcat(n, q);
    SpacelessConcat(n + q, a);
    SpacelessConcat(n + q + a, st);
    SpacelessConcat(n + q + a + st, b);
    SpacelessConcat(n + q + a + st + b, c);
    SpacelessConcat(n + q + a + st + b + c, e);
    SpacelessConcat(n + q + a + st + b + c + e, sz);
    SpacelessConcat(n + q + a + st + b + c + e + sz, ty);
  }

  /** The words are separated by single spaces: when no field holds a space,
      splitting the line at spaces gives back the pushed fields, in order. */
  lemma ToStringExtSplits(d: NodeData, m: Mask)
    requires Tags !in m && NoSpaces(d) && |Fields(d, m)| >= 1
    ensures Split(ToStringExt(d, m), ' ') == Fields(d, m)
  {
    SpacelessFields(d, m);
    SplitJoin(Fields(d, m), ' ');
  }

  /** The comment is never printed, whatever the mask, and neither are hidden,
      tags, children, compare or the parent link. */
  lemma ToStringExtNeverPrintsComment(d: NodeData, m: Mask, comment: Option<string>, hidden: Option<bool>,
                                      tags: Option<seq<string>>, compare: Option<Mask>)
    requires Tags !in m
    ensures ToStringExt(d.(comment := comment, hidden := hidden, tags := tags, compare := compare), m)
         == ToStringExt(d, m)
  {
  }

  // ---------------------------------------------------------------------------
  // to_colored_string_ext, to_colored_string

  /** The colour of the name: untracked when the UNTRACKED bit is set, else
      removed when the changes are exactly NOT_EXISTS, else changed when any bit
      is set, else standard. */
  function NameColor(scheme: ColorScheme, changes: Mask): TerminalColor
  {
    if Untracked in changes then scheme.untracked
    else if changes == NODE_NOT_EXISTS then scheme.removed
    else if changes != NODE_NONE then scheme.changed
    else scheme.standard
  }

  /** With the default scheme the name's colour tells the four states apart. */
  lemma NameColorTellsState(changes: Mask)
    ensures NameColor(DefaultScheme(), changes) == Blue <==> Untracked in changes
    ensures NameColor(DefaultScheme(), changes) == Red <==> Untracked !in changes && changes == NODE_NOT_EXISTS
    ensures NameColor(DefaultScheme(), changes) == Green <==> changes == NODE_NONE
    ensures NameColor(DefaultScheme(), changes) == Yellow <==>
      Untracked !in changes && changes != NODE_NOT_EXISTS && changes != NODE_NONE
  {
    DefaultSchemeColors();
  }

  /** A selected and set field, coloured as changed when its bit is in `changes`. */
  function Painted(scheme: ColorScheme, selected: bool, changed: bool, v: Option<string>): seq<string>
  {
    if selected && v.Some? then [if changed then Colorize(v.value, scheme.changed) else v.value] else []
  }

  /** The words `to_colored_string_ext` pushes: the coloured name, then the
      description (unquoted), hash, timestamps, size, file type and comment,
      each coloured as changed when its bit is in `changes`; status and tags are
      never pushed. */
  function ColoredFields(scheme: ColorScheme, d: NodeData, fields: Mask, changes: Mask): seq<string>
  {
    (if Name in fields then [Colorize(d.file, NameColor(scheme, changes))] else [])
    + Painted(scheme, Desc in fields, Desc in changes, d.desc)
    + Painted(scheme, Sha256 in fields, Sha256 in changes, d.sha256)
    + Painted(scheme, Modified in fields, Modified in changes, d.modified)
    + Painted(scheme, Accessed in fields, Accessed in changes, d.accessed)
    + Painted(scheme, Created in fields, Created in changes, d.created)
    + Painted(scheme, Size in fields, Size in changes,
        if d.size.Some? then Some(NatToString(d.size.value as nat)) else None)
    + Painted(scheme, FileType in fields, FileType in changes,
        if d.fileType.Some? then Some(FileTypes.ToString(d.fileType.value)) else None)
    + Painted(scheme, Comment in fields, Comment in changes, d.comment)
  }

  function ToColoredStringExt(scheme: ColorScheme, d: NodeData, fields: Mask, changes: Mask): string
  {
    Join(ColoredFields(scheme, d, fields, changes), " ")
  }

  /** `to_colored_string`: the default scheme, with the node's own status as the
      changes and an unset status read as NOT_EXISTS. */
  function ToColoredString(d: NodeData, fields: Mask): string
  {
    ToColoredStringExt(DefaultScheme(), d, fields, if d.status.Some? then d.status.value else NODE_NOT_EXISTS)
  }

  lemma JoinStartsWith(ws: seq<string>, sep: string)
    requires |ws| >= 1
    ensures |ws[0]| <= |Join(ws, sep)| && Join(ws, sep)[..|ws[0]|] == ws[0]
  {
    if |ws| > 1 {
      assert Join(ws, sep) == ws[0] + (sep + Join(ws[1..], sep));
    }
  }

  /** The coloured line starts with the node's name in the colour of its state;
      a node whose status was never set shows its name as removed (red). */
  lemma ColoredNameFirst(d: NodeData, fields: Mask)
    requires Name in fields
    ensures var c := NameColor(DefaultScheme(), if d.status.Some? then d.status.value else NODE_NOT_EXISTS);
      var s := ToColoredString(d, fields);
      |Code(c) + d.file| <= |s| && s[..|Code(c) + d.file|] == Code(c) + d.file
    ensures d.status.None? ==> NameColor(DefaultScheme(), NODE_NOT_EXISTS) == Red
  {
    var changes := if d.status.Some? then d.status.value else NODE_NOT_EXISTS;
    var ws := ColoredFields(DefaultScheme(), d, fields, changes);
    var c := NameColor(DefaultScheme(), changes);
    assert ws[0] == Colorize(d.file, c);
    JoinStartsWith(ws, " ");
    var w := Colorize(d.file, c);
    assert w[..|Code(c)|] == Code(c) && w[|Code(c)|..|Code(c)| + |d.file|] == d.file;
    assert w[..|Code(c) + d.file|] == Code(c) + d.file;
    NameColorTellsState(NODE_NOT_EXISTS);
  }

  /** The coloured line never shows the node's status, tags or hidden flag:
      the status acts only through the `changes` argument. */
  lemma ColoredOmitsStatusAndTags(scheme: ColorScheme, d: NodeData, fields: Mask, changes: Mask,
                                  status: Option<Mask>, tags: Option<seq<string>>, hidden: Option<bool>)
    ensures ToColoredStringExt(scheme, d.(status := status, tags := tags, hidden := hidden), fields, changes)
         == ToColoredStringExt(scheme, d, fields, changes)
  {
  }
}
