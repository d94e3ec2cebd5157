# linden-rs file-tree engine in Dafny

linden-rs keeps a description of a directory tree. It stores names, a description, tags, hashes, times, size,
kind and a comment per file, and it can compare that description against the real filesystem. This project
models the in-memory engine behind it:

- **The node tree of `src/file_tree/node/node.rs`.** It is modelled as an arena class, `Nodes.Arena`. The
  `Rc<RefCell<NodeData>>` nodes become the slots of one sequence. A child pointer becomes a slot id, and so
  does the `Weak` parent pointer. `Forest.WellLinked` is the invariant that every method keeps: every child
  of `p` has a larger id than `p`, and its parent link points back to `p`.
- **Navigation.** `get`, `get_child`, `get_child_idx`, `exists`, `children_num`, `get_path` and
  `get_full_path`.
- **Child-list edits.** `add_child`, `remove_child`, `remove` and `create`.
- **Mask-scoped field edits.** `clear_ext`, `update_ext`, `update` and `copy_ext`.
- **Comparison and sorting.** The bitmask diff `compare_ext` and `find_and_compare_ext`. The single-key order
  `cmp_ext` and the recursive stable sort `sort_ext`.
- **Reconciliation with a directory.** `add_path_ext` and `fill_compare_status` read a directory *value*
  (`Scan.Listing`) in place of `fs::read_dir`. Both use `from_dir_entry_ext` and `is_ignore`.
- **Text output.** `bitflag_to_string`, `to_string_ext`, `to_colored_string(_ext)`, `process_template`, and the
  pre-order walk of `for_all`.
- **The field flags of `src/file_tree/common/mod.rs`.** A mask is a set of named flags (`FieldMask.Mask`).
  `FieldMask.Value` gives its `usize` encoding, which is proved injective.
- **The persisted shape.** `TreeEntry`, a single-key ordered map from a name to an optional body, and
  `TreeEntryBody`. Also the conversions Node → TreeEntry (`Views.ToTreeEntry`) and back
  (`Nodes.Arena.FromTreeEntry`).
- **The support modules.** `FileType`, the ANSI `TerminalColor` codes with `colorize`, and the default
  `ColorScheme`.

The modules follow the source:

| module | source |
|---|---|
| `Base` | orderings, strings and decimal numbers |
| `FieldMask` | `common/mod.rs` |
| `FileTypes` | `common/file_type.rs` |
| `Color` | `cli/color.rs` |
| `ColorSchemes` | `node/color_scheme.rs` |
| `NodeDatas` | one node's record and the per-record operations of `node.rs` |
| `TreeEntries` | `db/tree_entry.rs` and `db/tree_entry_body.rs` |
| `Paths` | `std::path` components |
| `Forest` | links and path resolution over the arena |
| `Sorting` | the stable sort of a children list |
| `Subtrees` | the recursive `clear_ext` and `sort_ext` |
| `Text` | string output |
| `Views` | the read-only walks: `TreeEntry::from`, `for_all`, `process_template` |
| `Scan` | the directory value |
| `Reconcile` | what `add_path_ext` and `fill_compare_status` leave behind |
| `Nodes` | the arena class |

## Model

| member | source | states |
|---|---|---|
| Base.StrCmp | src/file_tree/node/node.rs:308-332 | the string order used by `cmp_ext` answers Equal exactly for equal strings |
| Base.StrCmpAntisymmetric | src/file_tree/node/node.rs:308-332 | swapping the arguments reverses the string order |
| Base.StrCmpTransitive | src/file_tree/node/node.rs:308-332 | the string order is transitive |
| Base.SeqCmp | src/file_tree/node/node.rs:308-332 | the lexicographic order on tag lists answers Equal exactly for equal lists |
| Base.SeqCmpAntisymmetric | src/file_tree/node/node.rs:308-332 | swapping reverses the tag-list order |
| Base.SeqCmpTransitive | src/file_tree/node/node.rs:308-332 | the tag-list order is transitive |
| Base.OptCmpIsTotalOrder | src/file_tree/node/node.rs:308-332 | Option's derived order (None first) is a total order whenever the inner one is |
| Base.NatToString | src/file_tree/node/node.rs:1049-1115 | a size or status prints as a non-empty decimal string without a leading zero |
| Base.DecimalRoundTrip | src/file_tree/node/node.rs:1049-1115 | reading back a printed number gives the number |
| Base.SplitJoin | src/file_tree/node/node.rs:1049-1115 | words without the separator are recovered from their space-joined string |
| FieldMask.ValueInjective | src/file_tree/common/mod.rs:7-33 | two masks with the same `usize` value are the same set of flags |
| FieldMask.FlagsAreDistinctBits | src/file_tree/common/mod.rs:7-50 | every flag is a single power of two, distinct flags are distinct values, and NODE_NONE is 0 |
| FieldMask.FlagPositions | src/file_tree/common/mod.rs:7-33 | each flag's bit position, as the constants shift |
| FieldMask.AutoManualPartition | src/file_tree/common/mod.rs:36-65 | NODE_AUTO and NODE_MANUAL are disjoint; NODE_ALL is their union without NODE_HIDDEN |
| FieldMask.DefaultWithinAll | src/file_tree/common/mod.rs:51-65 | NODE_DEFAULT is name, desc, size, file type and comment, and lies within NODE_ALL |
| FieldMask.AllExcludesNonFields | src/file_tree/common/mod.rs:26-65 | NODE_ALL has none of the sort, not-exists, untracked and hidden bits, so masking with it strips the sort direction |
| FieldMask.NamedSubsets | src/file_tree/common/mod.rs:68-82 | NODE_OPTIONALS excludes name, children, comment and hidden; NODE_BASICS and NODE_DYNAMICS lie within NODE_AUTO |
| FieldMask.KeyFieldsWithinAll | src/file_tree/node/node.rs:353-411 | the ten fields `compare_ext` tests are NODE_ALL without children, full path and comment |
| FieldMask.SortFieldSpec | src/file_tree/node/node.rs:308-332 | `cmp_ext` picks a field exactly when the mask restricted to NODE_ALL is that single key field, whatever the sort bits |
| FieldMask.SortFieldSelects | src/file_tree/node/node.rs:308-332 | with a single-field mask, the picked field is the only key field in the mask |
| FileTypes.FromSerialName | src/file_tree/common/file_type.rs:4-11 | a parsed serial name is the serial name of the variant returned |
| FileTypes.ExactlyThreeVariants | src/file_tree/common/file_type.rs:4-11 | every file type is Directory, File or Symlink |
| FileTypes.DeclarationOrder | src/file_tree/common/file_type.rs:3-11 | the derived order is Directory < File < Symlink; it is Equal only on equal values and antisymmetric |
| FileTypes.CmpTransitive | src/file_tree/common/file_type.rs:3-11 | the derived order is transitive |
| FileTypes.DisplayInjective | src/file_tree/common/file_type.rs:13-22 | distinct variants display differently |
| FileTypes.SerialNames | src/file_tree/common/file_type.rs:5-19 | the lowercase serial names differ from the Display names and parse back to their variant; a Display name does not parse |
| Color.ColorOfCode | src/cli/color.rs:15-40 | a recognised escape code is the code of the colour returned |
| Color.CodesAreSgr | src/cli/color.rs:15-40 | every code is an SGR sequence: "ESC[0;3Nm" with N the colour number for Black..White, "ESC[0m" for Default |
| Color.CodesDistinct | src/cli/color.rs:15-23 | each code is recognised as its own colour, so the nine codes are pairwise distinct |
| Color.CodeInjective | src/cli/color.rs:15-23 | colours with the same code are equal |
| Color.Colorize | src/cli/color.rs:42-46 | the result is the code, then `s` unchanged, then the reset code; its length is \|s\| + \|code\| + 4 |
| Color.ColorizeStrips | src/cli/color.rs:42-46 | equal coloured strings come from the same text and colour |
| ColorSchemes.DefaultSchemeColors | src/file_tree/node/color_scheme.rs:17-27 | changed is Yellow, removed Red, untracked Blue, standard Green, default Default; the four status colours differ |
| NodeDatas.CompareExt | src/file_tree/node/node.rs:353-411 | a flag is in the result iff it is a key field, it is requested and the two values differ (None equals None); the result lies within bitflag ∩ key fields |
| NodeDatas.CompareExtNone | src/file_tree/node/node.rs:353-411 | the result is NODE_NONE iff no requested key field differs |
| NodeDatas.CompareExtReflexiveSymmetric | src/file_tree/node/node.rs:353-411 | comparing a node with itself gives NODE_NONE; the result is symmetric |
| NodeDatas.CompareExtIgnoresChildren | src/file_tree/node/node.rs:353-411 | the children list takes no part in the comparison |
| NodeDatas.CmpFieldIsOrder | src/file_tree/node/node.rs:308-332 | each per-field order is antisymmetric and transitive, and is Equal exactly when the field does not differ |
| NodeDatas.CmpExt | src/file_tree/node/node.rs:308-332 | Equal exactly when `bitflag & NODE_ALL` is a single key field and the two records agree on it; that field's order, reversed under SORT_ASC; with no single field, Less (Greater under SORT_ASC) |
| NodeDatas.CmpExtIsOrder | src/file_tree/node/node.rs:308-332 | with a single-field mask, `cmp_ext` is a total preorder that is Equal exactly when `compare_ext` finds no difference |
| NodeDatas.CmpExtWithoutSortField | src/file_tree/node/node.rs:315-327 | with any other mask, `cmp_ext` answers the same non-Equal value both ways round, so it is no order |
| NodeDatas.ClearData | src/file_tree/node/node.rs:261-302 | each selected clearable attribute (desc, sha256, status, the three times, size, type, tags, children) becomes None; every other attribute, including name, comment and hidden, keeps its value |
| NodeDatas.ClearDataCompose | src/file_tree/node/node.rs:261-302 | clearing is idempotent, and two clears are one clear of the union |
| NodeDatas.UpdateExtData | src/file_tree/node/node.rs:1320-1355 | each selected updatable attribute (desc, sha256, status, the three times, size, type, tags, comment) takes the origin's value; every other attribute, name, children and hidden included, keeps the node's own |
| NodeDatas.UpdateExtSynchronises | src/file_tree/node/node.rs:1320-1355 | after `update_ext`, `compare_ext` over the same mask reports at most the name; a second `update_ext` changes nothing |
| NodeDatas.UpdateSynchronises | src/file_tree/node/node.rs:1277-1315 | after `update`, `compare_ext` over the fields it copies reports nothing |
| NodeDatas.UpdateSteps | src/file_tree/node/node.rs:1277-1315 | the field-by-field accumulation of `update` equals `compare_ext` over the fields it copies |
| NodeDatas.UpdateFieldsCopied | src/file_tree/node/node.rs:1277-1315 | `update` copies desc, sha256, the three times, size, file type and tags, and nothing else |
| NodeDatas.UpdateData | src/file_tree/node/node.rs:1277-1315 | the loop-free sequence of `if` blocks returns the differences and the copied record |
| NodeDatas.Sync | src/file_tree/node/node.rs:1282-1313 | one `if` block of `update`: the value becomes the origin's, and the flag is added iff they differed |
| NodeDatas.CopyExtData | src/file_tree/node/node.rs:414-448 | `copy_ext` as written: the name is copied under NODE_NAME or NODE_DESC; tags, sha256, status, the times, size and type are copied when selected; every other attribute (desc, comment, hidden, children) and the parent link keep the node's own |
| NodeDatas.CopyExtDescCopiesName | src/file_tree/node/node.rs:414-448 | under NODE_DESC, `copy_ext` copies the name and leaves the description as it was |
| NodeDatas.CopyExtDescCounterexample | src/file_tree/node/node.rs:421-422 | copying only NODE_DESC renames the node, and the descriptions still differ afterwards |
| NodeDatas.CopyExtIntended | src/file_tree/node/node.rs:414-448 | the corrected copy: selected key fields equal the origin's, the others and the links are unchanged |
| NodeDatas.CopyExtIntendedSynchronises | src/file_tree/node/node.rs:414-448 | after the corrected copy, `compare_ext` over the same mask finds nothing |
| TreeEntries.New | src/file_tree/db/tree_entry.rs:41-45 | a map with exactly the one key, bound to Some(body) |
| TreeEntries.First | src/file_tree/db/tree_entry.rs:50-52 | None iff the map is empty; otherwise a binding of the map whose key is least |
| TreeEntries.FirstName | src/file_tree/db/tree_entry.rs:57-59 | the first binding's key |
| TreeEntries.FirstBody | src/file_tree/db/tree_entry.rs:68-70 | the first binding's body; None when the map is empty or that body is None |
| TreeEntries.SetFirstBody | src/file_tree/db/tree_entry.rs:63-75 | a write through `first_body_mut` changes only the first body, and only when there is one |
| TreeEntries.SetFirstBodyKeepsMap | src/file_tree/db/tree_entry.rs:73-75 | such a write keeps the keys ordered and unique |
| TreeEntries.LoadedIsSaved | src/file_tree/node/node.rs:1358-1394 | rebuilding an entry yields a saved shape: one key and a body at every level |
| TreeEntries.LoadSaved | src/file_tree/node/node.rs:1376-1390 | rebuilding a saved entry only drops hidden and comment, at every level |
| TreeEntries.LoadedStripped | src/file_tree/node/node.rs:1376-1390 | rebuilt entries carry no hidden and no comment |
| TreeEntries.LoadedIdempotent | src/file_tree/node/node.rs:1358-1394 | rebuilding twice is rebuilding once |
| Paths.Parent | src/file_tree/node/node.rs:461-480 | `Path::parent`: Some exactly for a non-empty path not ending at the root, and it is the path minus its last component |
| Paths.FileName | src/file_tree/node/node.rs:461-480 | `Path::file_name`: Some exactly when the last component is a normal name, which it returns |
| Paths.Segment | src/file_tree/node/node.rs:809-813 | the text of a name up to its first '/', which it does not contain |
| Paths.RelComponents | src/file_tree/node/node.rs:809-813 | the components of a relative name hold no root and only normal names without '/' |
| Paths.Push | src/file_tree/node/node.rs:809-813 | `PathBuf::push`: an absolute name starts the path afresh at the root; a relative one extends the path, adding no root |
| Paths.PushPlain | src/file_tree/node/node.rs:809-813 | pushing a plain name adds exactly that normal component, which is then the file name, with the old path as parent |
| Paths.PushCurDir | src/file_tree/node/node.rs:809-813 | pushing "" onto the empty path adds nothing, and pushing "." adds one current-directory component |
| Paths.PushAbsolute | src/file_tree/node/node.rs:809-813 | pushing an absolute name ignores the path it is pushed onto |
| Paths.PushSegments | src/file_tree/node/node.rs:809-813 | pushing "a/b" is pushing "a", then "b": a name with '/' adds one component per segment |
| Forest.KidHasOneParent | src/file_tree/node/node.rs:77-91 | in a well-linked arena, a node is a child of at most one node |
| Forest.Position | src/file_tree/node/node.rs:763-769 | `get_child_idx`: the index of the first child with that name, and None only when no child has it |
| Forest.ChildNamed | src/file_tree/node/node.rs:751-761 | `get_child`: a child with that name and no earlier child of that name; None iff no child has the name |
| Forest.Resolve | src/file_tree/node/node.rs:719-747 | the node `get` reaches lies in the arena |
| Forest.ResolveAppend | src/file_tree/node/node.rs:719-747 | resolving `p1 + p2` resolves `p1`, then `p2` from there; None propagates |
| Forest.ResolveCurDirs | src/file_tree/node/node.rs:719-747 | an empty or all-"." path returns the receiver; any root or ".." component yields None |
| Forest.Top | src/file_tree/node/node.rs:809-863 | following parent links ends at a node without a parent, no later than the start |
| Forest.PathIsParentFullPath | src/file_tree/node/node.rs:854-863 | `get_path` of a node is its parent's full path, and empty without a parent |
| Forest.FullPathEndsInName | src/file_tree/node/node.rs:809-813 | for a plain name, `get_full_path` is `get_path` plus the name: the name is its file name and `get_path` its parent |
| Forest.FullPathResolves | src/file_tree/node/node.rs:809-863 | `get_full_path` (the names pushed from the top down) resolved from the top node leads back to the node, when every name below the top is plain and the top's own name is "" or "." |
| Forest.UnderKid | src/file_tree/node/node.rs:550-564 | a node lies in a child's subtree iff it lies in the parent's subtree, strictly, through that child |
| Forest.AttachWellLinked | src/file_tree/node/node.rs:77-91 | appending a detached later node as a child keeps the arena well linked |
| Sorting.SortIds | src/file_tree/node/node.rs:583-590 | the children list after `sort_by` is a permutation of the one before (same length, same multiset of ids) |
| Sorting.SortIdsSorted | src/file_tree/node/node.rs:583-590 | with a single-field mask the sorted list is ordered by `cmp_ext` |
| Sorting.SortIdsOfSorted | src/file_tree/node/node.rs:583-590 | a list already in `cmp_ext` order is left as it is |
| Sorting.SortIdsIdempotent | src/file_tree/node/node.rs:583-590 | with a single-field mask, sorting a sorted result changes nothing |
| Sorting.InsertTies | src/file_tree/node/node.rs:583-590 | for every record d, the ids of the result comparing Equal to d are the inserted id (when it does) followed by those of the list: an inserted id goes ahead of its ties |
| Sorting.SortIdsStable | src/file_tree/node/node.rs:583-590 | stability: for every record d, the ids comparing Equal to d keep their relative order through the sort, for any mask |
| Sorting.SortIdsFrame | src/file_tree/node/node.rs:583-590 | the sort depends only on the children's attributes, not on their links |
| Subtrees.Cleared | src/file_tree/node/node.rs:261-302 | the arena after `clear_ext` stays well linked; without NODE_CHILDREN its links are unchanged |
| Subtrees.ClearedFields | src/file_tree/node/node.rs:261-302 | a node the walk reaches has exactly its selected clearable fields unset and keeps name, comment, hidden and parent; other nodes are unchanged |
| Subtrees.ClearReachesSubtree | src/file_tree/node/node.rs:294-301 | with `recursive` and children kept, the walk reaches exactly the receiver's subtree |
| Subtrees.ClearedIdempotent | src/file_tree/node/node.rs:261-302 | clearing twice is clearing once |
| Subtrees.SortedTree | src/file_tree/node/node.rs:583-590 | `sort_ext` keeps the arena's links well formed and the same set of children per node |
| Subtrees.SortedTreeSorts | src/file_tree/node/node.rs:583-590 | every node of the subtree has its children permuted into `cmp_ext` order, children that compare Equal keeping their order; attributes are unchanged and nodes outside are untouched |
| Subtrees.SortedTreeIdempotent | src/file_tree/node/node.rs:583-590 | with a single-field mask, sorting twice equals sorting once |
| Text.WordsDistinct | src/file_tree/node/node.rs:228-259 | each flag's word is non-empty, has no space, and names only that flag |
| Text.FlagWordsMembers | src/file_tree/node/node.rs:228-259 | a flag's word is listed iff the flag is in the mask |
| Text.BitflagRoundTrip | src/file_tree/node/node.rs:228-259 | reading the words back gives the named flags of the mask |
| Text.BitflagToStringInjective | src/file_tree/node/node.rs:228-259 | two masks print the same iff they have the same named flags |
| Text.ToStringExtSplits | src/file_tree/node/node.rs:1049-1115 | when no text field of the node holds a space and at least one field is printed, the line splits on single spaces into the selected set fields, in the fixed order name, quoted desc, sha256, status, times, size, type; a formatted time always holds a space, so this needs the times unselected or unset |
| Text.ToStringExtNeverPrintsComment | src/file_tree/node/node.rs:1049-1115 | the line does not depend on comment, hidden, tags or compare |
| Text.NameColorTellsState | src/file_tree/node/node.rs:1145-1271 | with the default scheme the name is blue iff untracked, red iff not-exists, green iff unchanged, yellow otherwise |
| Text.ColoredNameFirst | src/file_tree/node/node.rs:1129-1134 | the coloured line starts with the name in its state colour; an unset status counts as NODE_NOT_EXISTS and shows red |
| Text.ColoredOmitsStatusAndTags | src/file_tree/node/node.rs:1145-1271 | the coloured line does not depend on the stored status, tags or hidden |
| Views.ToTreeEntry | src/file_tree/db/tree_entry.rs:80-89 | `TreeEntry::from` keys the entry by the node's name, with a body whose children are None iff the node's are |
| Views.ChildEntries | src/file_tree/db/tree_entry_body.rs:52-61 | the children become as many entries, in order, each keyed by its child's name |
| Views.ToTreeEntryFrame | src/file_tree/db/tree_entry_body.rs:47-80 | the entry depends only on the node's own slot and the later slots, never on parent links |
| Views.SaveLoad | src/file_tree/db/tree_entry_body.rs:64-78 | rebuilding a saved node gives back every field but hidden and comment, which come back None |
| Views.Visits | src/file_tree/node/node.rs:550-564 | the walk starts with the receiver at its own level, index and size |
| Views.VisitsSound | src/file_tree/node/node.rs:550-564 | every node the walk visits lies in the receiver's subtree |
| Views.VisitsComplete | src/file_tree/node/node.rs:550-564 | every node of the subtree is visited |
| Views.VisitPosition | src/file_tree/node/node.rs:550-564 | the position at which a subtree node is visited |
| Views.Render | src/file_tree/node/node.rs:957-995 | `process_template` starts with the receiver's line |
| Views.RenderDrawsVisits | src/file_tree/node/node.rs:957-995 | one line per visited node, in pre-order, each starting with the prefixes and ending with that node's coloured entry and a newline |
| Scan.FromDirEntryExtFields | src/file_tree/node/node.rs:649-714 | the scanned record has the entry's name and no links; desc is Some("") exactly when NODE_DESC or NODE_COMMENT is selected, never read from metadata; any other attribute is set only when selected and the metadata can be read, size and tags then always |
| Scan.ScanItemsNames | src/file_tree/node/node.rs:127-162 | every scanned entry is keyed by the name of a listed entry that the ignore list does not match |
| Scan.ScanEntry | src/file_tree/node/node.rs:127-147 | the entry of a scanned node is keyed by the entry's name and bound to a body |
| Scan.ScanEntrySaved | src/file_tree/node/node.rs:127-147 | a scanned entry has the saved shape: one key bound to a body, at every level below it too |
| Scan.ScanItemsSaved | src/file_tree/node/node.rs:127-162 | every entry scanned from a readable listing has the saved shape |
| Scan.NamesStep | src/file_tree/node/node.rs:127-162 | one more listing item adds its name to the listed names unless it is ignored; with distinct names the new name is not among the earlier ones |
| Scan.ScanItemsCount | src/file_tree/node/node.rs:127-162 | one entry per listed item except the ignored ones |
| Reconcile.AddedCompose | src/file_tree/node/node.rs:127-148 | two add runs in sequence are one add run of the concatenated children |
| Reconcile.ScannedNode | src/file_tree/node/node.rs:136-147 | a node built from a directory entry and its added subtree saves as the scanned entry |
| Reconcile.EntryAdded | src/file_tree/node/node.rs:136-147 | one entry added under the receiver appears as its last child, and that child saves as the scanned entry |
| Reconcile.ItemStep | src/file_tree/node/node.rs:127-148 | one more listing item extends the add run by its entry, or by nothing when ignored |
| Reconcile.CompareCompose | src/file_tree/node/node.rs:182-222 | two comparison passes in sequence are one pass |
| Reconcile.ChildNamedKept | src/file_tree/node/node.rs:198 | later steps keep a child found by name |
| Reconcile.CoveredKept | src/file_tree/node/node.rs:182-222 | entries already marked stay marked after later steps |
| Reconcile.MatchedMarked | src/file_tree/node/node.rs:198-206 | a stored child of that name gets the status `compare_ext(scanned, stored)` and stays the child found |
| Reconcile.NewMarked | src/file_tree/node/node.rs:209-220 | an unknown entry is appended as the last child with status NODE_UNTRACKED and otherwise the scanned record |
| Reconcile.UnderKept | src/file_tree/node/node.rs:171-225 | a comparison pass keeps which old nodes lie below which, and through which child |
| Reconcile.FramedCompose | src/file_tree/node/node.rs:186-221 | the unchanged-outside frames of two passes compose into the frame of the union of their names |
| Reconcile.PlacedKept | src/file_tree/node/node.rs:186-221 | nodes appended in two passes all lie below children named in either pass |
| Reconcile.MatchedPlaced | src/file_tree/node/node.rs:198-206 | marking a stored child after its subtree pass keeps everything outside that child's subtree unchanged |
| Reconcile.NewPlaced | src/file_tree/node/node.rs:209-220 | appending a filled new node keeps the old arena outside it and places every new node below it |
| Reconcile.EntryCoveredKept | src/file_tree/node/node.rs:186-221 | an entry already matched to its child stays so when a later entry of another name is processed |
| Reconcile.EntryCoveredNew | src/file_tree/node/node.rs:186-221 | processing an entry whose name was not listed before leaves it matched to its child with the exact status |
| Reconcile.FillStep | src/file_tree/node/node.rs:182-221 | one more non-ignored entry extends what the loop has done by that entry |
| Reconcile.FillSkip | src/file_tree/node/node.rs:186-188 | an ignored entry changes nothing |
| Reconcile.FillErred | src/file_tree/node/node.rs:182-183 | after an error the frame still holds for all listed names |
| Nodes.RemoveChildResult | src/file_tree/node/node.rs:792-796 | `remove_child` keeps exactly the children not of that name, in order, and no other node changes |
| Nodes.RemoveChildRemoves | src/file_tree/node/node.rs:792-796 | afterwards no child has that name |
| Nodes.RemoveRemoves | src/file_tree/node/node.rs:775-788 | `remove` leaves the resolved directory without that name; it does nothing when the directory does not resolve |
| Nodes.CreateResult | src/file_tree/node/node.rs:461-480 | a node with the data under the file name is appended to the receiver's children, with the receiver as parent; nothing else changes |
| Nodes.CreateThenGet | src/file_tree/node/node.rs:461-480 | creating a bare file name makes `get` of it find the new node |
| Nodes.CreateMisplaces | src/file_tree/node/node.rs:473 | when the checked directory is not the receiver, the new node is not among that directory's children |
| Nodes.FindAndCompareCases | src/file_tree/node/node.rs:939-946 | the answer is NODE_NOT_EXISTS iff the template's full path does not resolve, and otherwise lies within the requested key fields |
| Nodes.FindAndCompareSelf | src/file_tree/node/node.rs:939-946 | a node compared from the top of its own tree is found and shows no difference |
| Nodes.Arena.constructor | src/file_tree/node/node.rs:894-900 | `Node::new`: one node, no parent, no children |
| Nodes.Arena.AddChild | src/file_tree/node/node.rs:77-91 | the child becomes the receiver's last child (Some([c]) from None) with the receiver as parent; the arena stays well linked |
| Nodes.Arena.GetChild | src/file_tree/node/node.rs:751-761 | the loop returns the first child with that name, as `Forest.ChildNamed` |
| Nodes.Arena.GetChildIdx | src/file_tree/node/node.rs:763-769 | the loop returns the index of the first child with that name |
| Nodes.Arena.Get | src/file_tree/node/node.rs:719-747 | the cursor loop over the components returns `Forest.Resolve` |
| Nodes.Arena.Exists | src/file_tree/node/node.rs:512-517 | true iff `get` finds a node |
| Nodes.Arena.ChildrenNum | src/file_tree/node/node.rs:451-456 | the number of children; 0 iff the list is None or empty |
| Nodes.Arena.RemoveChild | src/file_tree/node/node.rs:792-796 | the `retain` loop leaves the arena as `RemoveChildResult`, well linked |
| Nodes.Arena.Remove | src/file_tree/node/node.rs:775-788 | always returns Some(()), and the arena becomes `RemoveResult` |
| Nodes.Arena.Create | src/file_tree/node/node.rs:461-480 | Some iff the directory resolves and has no child of that name; then the arena is `CreateResult`, otherwise unchanged |
| Nodes.Arena.ClearExt | src/file_tree/node/node.rs:261-302 | the arena becomes `Subtrees.Cleared` |
| Nodes.Arena.SortExt | src/file_tree/node/node.rs:583-590 | the arena becomes `Subtrees.SortedTree` |
| Nodes.Arena.UpdateExt | src/file_tree/node/node.rs:1320-1355 | only the receiver's record changes, to the mask-scoped update |
| Nodes.Arena.Update | src/file_tree/node/node.rs:1277-1315 | returns `compare_ext` of the copied fields, and only the receiver's record changes |
| Nodes.Arena.CopyExt | src/file_tree/node/node.rs:414-448 | only the receiver's record changes, as `copy_ext` is written |
| Nodes.Arena.FindAndCompareExt | src/file_tree/node/node.rs:939-946 | returns `FindAndCompare` |
| Nodes.Arena.ProcessTemplate | src/file_tree/node/node.rs:957-995 | returns Some of the pre-order rendering, leaving the arena unchanged |
| Nodes.Arena.AddPathExt | src/file_tree/node/node.rs:116-150 | Ok iff the listing and every non-ignored subdirectory reads; then the receiver gains, in order, one child per non-ignored entry, each saving as its scanned entry |
| Nodes.Arena.AddItem | src/file_tree/node/node.rs:128-147 | one item of the listing: Ok iff it is an entry that is ignored, no directory or a directory whose listing reads; then the children of the receiver grow by the entry's node, saving as its scanned entry (by nothing when ignored); on an error nothing more is appended |
| Nodes.Arena.AddEntry | src/file_tree/node/node.rs:136-147 | one entry: Ok iff it is no directory or its listing reads; then it is the receiver's new last child and saves as its scanned entry |
| Nodes.Arena.SetStatus | src/file_tree/node/node.rs:206-219 | only that node's status changes, and all children lists stay |
| Nodes.Arena.FillCompareStatus | src/file_tree/node/node.rs:171-225 | Ok iff the listing reads throughout; nodes other than `i` and the subtrees of its children named in the listing are unchanged, so unlisted children keep status and subtree; on Ok every node appended lies below a listed child, and with distinct names at every level each non-ignored entry has its child: a stored one with status exactly `compare_ext(scanned, stored)`, or a new one holding the scanned record, and every appended node is NODE_UNTRACKED |
| Nodes.Arena.CompareItem | src/file_tree/node/node.rs:183-221 | one item of the listing: Ok iff it is an entry that is ignored, no directory or a directory whose listing reads; on Ok what the loop has written so far now covers this item too (framed to the listed names, new nodes placed below them, exact statuses with distinct names); on an error only `i` and the subtrees of listed children have changed |
| Nodes.Arena.CompareEntry | src/file_tree/node/node.rs:190-221 | one entry: only the subtree of the child of that name changes; on Ok a stored child gets status `compare_ext(scanned, stored)`, an unknown entry is appended as a new child with NODE_UNTRACKED and otherwise the scanned record, and with distinct names below it every appended node is NODE_UNTRACKED |
| Nodes.Arena.CompareMatched | src/file_tree/node/node.rs:198-206 | a stored child: its subtree is compared first, then its status becomes `compare_ext(scanned, stored)`; nothing outside its subtree changes |
| Nodes.Arena.CompareNew | src/file_tree/node/node.rs:209-220 | an unknown entry: a new node from the scanned record is filled, marked NODE_UNTRACKED and appended to the children; nothing else of the old arena changes |
| Nodes.Arena.FromTreeEntry | src/file_tree/node/node.rs:1358-1394 | the new subtree saves as the rebuilt entry (hidden and comment dropped), with the given parent |

## Left out

- Filesystem access (`fs::read_dir`, `DirEntry::metadata`, `Path::is_dir`) is a `Scan.Listing` value. The chrono
  formatting of the times is taken as already done: the metadata carries the formatted strings.
- The YAML encoding and `load`/`save` are not modelled. Only the in-memory `TreeEntry` shape is.
- `get_prefix_branch` of the `text_tree_elements` crate is not part of this model. It is the parameter
  `Views.PrefixBranch`, a function of level, index and size.
- The console printers `ls`, `print_for_all` and `print_in_line` are left out, because they only print.
- `find` is left out, because it always reaches `unimplemented!`.
- `Rc`/`Weak`/`RefCell` are left out: failed upgrades, borrow panics and aliasing between trees. The arena
  makes them unreachable. A removed node stays in the arena as an unreachable slot.
- Unnamed `usize` bits are not modelled, because a mask is a set of the 18 named flags. Bits 9 and 17-22 and
  those above 24 cannot be expressed.
- File names are strings: the "name_error" fallback of `TreeEntry::from` for a non-UTF-8 name and the
  `into_string().unwrap()` panics are not modelled.
- Text.ToStringExt: requires NODE_TAGS to be absent, because the source reaches `unimplemented!` there
  (node.rs:1107-1108).
- Nodes.Arena.SortExt: requires a single-field mask. With any other mask `cmp_ext` is no order
  (`NodeDatas.CmpExtWithoutSortField`), and `sort_by` then gives no defined result.
- Nodes.Arena.AddChild: requires the child to be a detached node created after the receiver. This is how every
  caller in the core uses it; re-parenting an attached node is not modelled.
- Nodes.Arena.Create: requires data without children, which is how the callers build it.
- Nodes.Arena.AddPathExt: the `parent` argument is dropped, because `add_child` overwrites it. On an error,
  only the frame is stated: the children added before the error stay, and their subtrees may be partial.
- Nodes.Arena.FillCompareStatus: the exact status of each matched child, the scanned record of each new
  child and NODE_UNTRACKED on every appended node are promised only when names are distinct at every level
  of the listing, as a real directory's are; a listing value that repeats a name can match a later item to
  a child appended by an earlier one. The exact status is stated for the children of `i`; deeper levels get
  it from the contract of the recursive call, which is not restated at the top.
- Nodes.Arena.CompareEntry: a failed walk below an unknown directory leaves its new node as an unattached
  slot, where the source drops it.
- Nodes.Arena.FindAndCompareExt and Nodes.Arena.UpdateExt: the template and the origin are passed as values
  (an arena plus an id, or a record), not as nodes of the same tree.
- Nodes.Arena.FromTreeEntry: for an entry without a body, the source leaves the new node's parent link unset,
  even when the node is listed as a child. The model links it to the parent it was given.
- Paths.Push: only the Unix reading of a path is modelled ('/' as the one separator); Windows prefixes and
  '\\' separators are not.
- Forest.ChildNamed: its None-iff is stated over the children that lie in the arena, which in a well-linked
  arena is all of them.

## Findings

| source | as written | input that shows it | evidently intended | confidence | as-written member | corrected member |
|---|---|---|---|---|---|---|
| src/file_tree/node/node.rs:421-422 | the NODE_DESC branch of `copy_ext` assigns `file`, so the description is never copied and the node is renamed | copy NODE_DESC from a node named "b" with desc "x" onto one named "a": the result is named "b", and its desc still differs | copy `desc` under NODE_DESC | not executed | NodeDatas.CopyExtDescCounterexample | NodeDatas.CopyExtIntendedSynchronises |

`Nodes.Arena.CopyExt` keeps the behaviour as written (`NodeDatas.CopyExtData`): `copy_ext` is public and has
no caller in the repository, so the public method is kept as it is. `NodeDatas.CopyExtIntended` is the
corrected copy, and `NodeDatas.CopyExtIntendedSynchronises` proves what it is for.
