/** The read-only projections of a node's subtree in src/file_tree/node/node.rs:
    the persisted entry (`TreeEntry::from(&Node)` with `TreeEntryBody::from`),
    the callback sequence of `for_all` and the lines of `process_template`.
    Each is a function of the arena value and a node id. */
module Views {

  import opened Base
  import opened FieldMask
  import opened NodeDatas
  import opened Forest
  import opened TreeEntries
  import Text

  // ---------------------------------------------------------------------------
  // TreeEntry::from(&Node), TreeEntryBody::from(&Node)

  /** `TreeEntryBody::from`: every attribute copied as it is, with the given
      entries of the children. */
  function BodyOf(d: NodeData, children: Option<EntryList>): TreeEntryBody
  {
    TreeEntryBody(d.desc, d.tags, d.sha256, d.status, d.modified, d.accessed, d.created,
                  d.size, d.fileType, d.compare, children, d.hidden, d.comment)
  }

  /** `TreeEntry::from(&Node)`: the node's name bound to its body; no children
      list stays none, and a list of children becomes the list of their
      entries, of the same length and order. */
  function ToTreeEntry(ns: seq<NodeData>, i: NodeId): (r: TreeEntry)
    requires WellLinked(ns) && i < |ns|
    ensures Saved(r) && Keys(r) == [ns[i].file]
    ensures FirstBody(r).Some? && (FirstBody(r).value.children.None? <==> ns[i].children.None?)
    decreases |ns| - i, 1
  {
    New(ns[i].file, BodyOf(ns[i], if ns[i].children.None? then None else Some(ChildEntries(ns, i))))
  }

  /** The entries of a node's children, child by child. */
  function ChildEntries(ns: seq<NodeData>, i: NodeId): (r: EntryList)
    requires WellLinked(ns) && i < |ns|
    ensures |r.list| == |Kids(ns, i)|
    ensures forall k :: 0 <= k < |r.list| ==>
              Saved(r.list[k]) && i < Kids(ns, i)[k] < |ns| && Keys(r.list[k]) == [ns[Kids(ns, i)[k]].file]
    decreases |ns| - i, 0
  {
    var ks := Kids(ns, i);
    assert KidsLinked(ns, i);
    EntryList(seq(|ks|, k requires 0 <= k < |ks| => ToTreeEntry(ns, ks[k])))
  }

  /** The arena `ms` holds the slots of `ns` from `i` on unchanged but for
      their parent links (and possibly more slots after them). */
  predicate AgreeFrom(ns: seq<NodeData>, ms: seq<NodeData>, i: NodeId)
  {
    |ns| <= |ms| && forall x :: i <= x < |ns| ==> ms[x].(parent := ns[x].parent) == ns[x]
  }

  /** A node's entry reads only the node and the slots after it. */
  lemma {:induction false} ToTreeEntryFrame(ns: seq<NodeData>, ms: seq<NodeData>, i: NodeId)
    requires WellLinked(ns) && WellLinked(ms) && i < |ns| && AgreeFrom(ns, ms, i)
    ensures ToTreeEntry(ms, i) == ToTreeEntry(ns, i)
    decreases |ns| - i
  {
    var ks := Kids(ns, i);
    assert Kids(ms, i) == ks;
    assert KidsLinked(ns, i);
    forall k | 0 <= k < |ks| ensures ToTreeEntry(ms, ks[k]) == ToTreeEntry(ns, ks[k]) {
      KidParent(ns, i, ks[k]);
      ToTreeEntryFrame(ns, ms, ks[k]);
    }
    if ns[i].children.Some? {
      assert ChildEntries(ms, i) == ChildEntries(ns, i);
    }
  }

  /** A children list whose entries are, one by one, the given entries. */
  lemma ChildEntriesAre(ns: seq<NodeData>, i: NodeId, es: seq<TreeEntry>)
    requires WellLinked(ns) && i < |ns| && |Kids(ns, i)| == |es|
    requires forall j :: 0 <= j < |es| ==> Kids(ns, i)[j] < |ns| && ToTreeEntry(ns, Kids(ns, i)[j]) == es[j]
    ensures ChildEntries(ns, i).list == es
  {
  }

  /** A children list whose entries are, one by one, the loaded entries of a
      list has that list's loaded entries. */
  lemma ChildEntriesLoaded(ns: seq<NodeData>, i: NodeId, cl: EntryList)
    requires WellLinked(ns) && i < |ns| && |Kids(ns, i)| == |cl.list|
    requires forall j :: 0 <= j < |cl.list| ==> Kids(ns, i)[j] < |ns| && ToTreeEntry(ns, Kids(ns, i)[j]) == Loaded(cl.list[j])
    ensures ChildEntries(ns, i) == LoadedList(cl)
  {
  }

  /** The loop of `from_tree_entry` over a children list `cs`: the arena `ns`
      extends `n0`, `r` is still detached, and each of the `ids` built so far
      is a new node pointing back to `r` whose entry is the loaded entry of its
      place in `cs`. */
  predicate Built(n0: seq<NodeData>, ns: seq<NodeData>, r: NodeId, ids: seq<NodeId>, cs: seq<TreeEntry>)
  {
    && |n0| <= |ns| && ns[..|n0|] == n0 && r < |n0| && WellLinked(ns) && Detached(ns, r) && |ids| <= |cs|
    && forall j :: 0 <= j < |ids| ==>
         |n0| <= ids[j] < |ns| && ns[ids[j]].parent == Some(r) && ToTreeEntry(ns, ids[j]) == Loaded(cs[j])
  }

  lemma BuildStart(ns: seq<NodeData>, r: NodeId, cs: seq<TreeEntry>)
    requires WellLinked(ns) && r < |ns| && Detached(ns, r)
    ensures Built(ns, ns, r, [], cs)
  {
    TakeAll(ns);
  }

  /** One more subtree, appended after `before` as node `c`, keeps the loop's
      invariant: the earlier subtrees' entries are untouched by it. */
  lemma BuildStep(n0: seq<NodeData>, before: seq<NodeData>, after: seq<NodeData>, r: NodeId,
                  ids: seq<NodeId>, cs: seq<TreeEntry>, c: NodeId)
    requires Built(n0, before, r, ids, cs) && |ids| < |cs|
    requires WellLinked(after) && c == |before| && c < |after| && after[..c] == before
    requires after[c].parent == Some(r) && ToTreeEntry(after, c) == Loaded(cs[|ids|])
    ensures Built(n0, after, r, ids + [c], cs)
  {
    BuiltKept(n0, before, after, r, ids, cs);
    var ids' := ids + [c];
    forall j | 0 <= j < |ids'|
      ensures |n0| <= ids'[j] < |after| && after[ids'[j]].parent == Some(r) && ToTreeEntry(after, ids'[j]) == Loaded(cs[j])
    {
      if j < |ids| {
        assert ids'[j] == ids[j];
      }
    }
    assert Built(n0, after, r, ids', cs);
  }

  /** The subtrees built before keep their entries once the arena grows. */
  lemma BuiltKept(n0: seq<NodeData>, before: seq<NodeData>, after: seq<NodeData>, r: NodeId,
                  ids: seq<NodeId>, cs: seq<TreeEntry>)
    requires Built(n0, before, r, ids, cs)
    requires WellLinked(after) && |before| < |after| && after[..|before|] == before
    ensures Detached(after, r) && after[..|n0|] == n0
    ensures forall j :: 0 <= j < |ids| ==>
              |n0| <= ids[j] < |after| && after[ids[j]].parent == Some(r) && ToTreeEntry(after, ids[j]) == Loaded(cs[j])
  {
    ExtendedDetached(before, after, r);
    TakePrefix(before, after, |n0|);
    assert AgreeFrom(before, after, 0) by {
      forall x | 0 <= x < |before| ensures after[x] == before[x] {
        assert after[x] == after[..|before|][x];
      }
    }
    forall j | 0 <= j < |ids|
      ensures |n0| <= ids[j] < |after| && after[ids[j]].parent == Some(r) && ToTreeEntry(after, ids[j]) == Loaded(cs[j])
    {
      ToTreeEntryFrame(before, after, ids[j]);
    }
  }

  /** Saving then loading a node gives back its entry without `hidden` and
      `comment`: the name, the child names and their order and every other
      attribute survive. */
  lemma SaveLoad(ns: seq<NodeData>, i: NodeId)
    requires WellLinked(ns) && i < |ns|
    ensures Loaded(ToTreeEntry(ns, i)) == Strip(ToTreeEntry(ns, i))
    ensures FirstBody(Loaded(ToTreeEntry(ns, i))).Some?
    ensures FirstBody(Loaded(ToTreeEntry(ns, i))).value.hidden.None?
    ensures FirstBody(Loaded(ToTreeEntry(ns, i))).value.comment.None?
  {
    LoadSaved(ToTreeEntry(ns, i));
  }

  // ---------------------------------------------------------------------------
  // for_all

  /** One call of the `for_all` callback: the node, its depth, its index among
      its siblings and the number of siblings. */
  datatype Visit = Visit(node: NodeId, level: nat, index: nat, size: nat)

  /** `for_all(level, index, size, cb)`: the callback calls in the order they
      are made, the node first and then the subtrees of its children in order,
      one level deeper, each with its index and the number of children. */
  function Visits(ns: seq<NodeData>, i: NodeId, level: nat, index: nat, size: nat): (r: seq<Visit>)
    requires WellLinked(ns) && i < |ns|
    ensures |r| >= 1 && r[0] == Visit(i, level, index, size)
    decreases |ns| - i, 1
  {
    [Visit(i, level, index, size)] + VisitKids(ns, i, level, |Kids(ns, i)|)
  }

  /** The calls made for the first `n` children of node `i`. */
  function VisitKids(ns: seq<NodeData>, i: NodeId, level: nat, n: nat): (r: seq<Visit>)
    requires WellLinked(ns) && i < |ns| && n <= |Kids(ns, i)|
    decreases |ns| - i, 0, n
  {
    if n == 0 then []
    else
      var ks := Kids(ns, i);
      KidParent(ns, i, ks[n - 1]);
      VisitKids(ns, i, level, n - 1) + Visits(ns, ks[n - 1], level + 1, n - 1, |ks|)
  }

  /** One more child adds that child's calls at the end. */
  lemma VisitKidsLast(ns: seq<NodeData>, i: NodeId, level: nat, n: nat)
    requires WellLinked(ns) && i < |ns| && 0 < n <= |Kids(ns, i)|
    ensures i < Kids(ns, i)[n - 1] < |ns|
    ensures VisitKids(ns, i, level, n)
         == VisitKids(ns, i, level, n - 1) + Visits(ns, Kids(ns, i)[n - 1], level + 1, n - 1, |Kids(ns, i)|)
  {
    KidParent(ns, i, Kids(ns, i)[n - 1]);
  }

  lemma RenderKidsLast(ns: seq<NodeData>, tte: PrefixBranch, i: NodeId, level: nat, prefixes: string, m: Mask, n: nat)
    requires WellLinked(ns) && i < |ns| && 0 < n <= |Kids(ns, i)|
    ensures i < Kids(ns, i)[n - 1] < |ns|
    ensures RenderKids(ns, tte, i, level, prefixes, m, n)
         == RenderKids(ns, tte, i, level, prefixes, m, n - 1) + Render(ns, tte, Kids(ns, i)[n - 1], level + 1, n - 1, |Kids(ns, i)|, prefixes, m)
  {
    KidParent(ns, i, Kids(ns, i)[n - 1]);
  }

  /** Every visited node lies in the subtree of the start node. */
  lemma {:induction false} VisitsSound(ns: seq<NodeData>, i: NodeId, level: nat, index: nat, size: nat)
    requires WellLinked(ns) && i < |ns|
    ensures forall k :: 0 <= k < |Visits(ns, i, level, index, size)| ==>
      Visits(ns, i, level, index, size)[k].node < |ns| && Under(ns, Visits(ns, i, level, index, size)[k].node, i)
    decreases |ns| - i, 1
  {
    VisitKidsSound(ns, i, level, |Kids(ns, i)|);
  }

  lemma {:induction false} VisitKidsSound(ns: seq<NodeData>, i: NodeId, level: nat, n: nat)
    requires WellLinked(ns) && i < |ns| && n <= |Kids(ns, i)|
    ensures forall k :: 0 <= k < |VisitKids(ns, i, level, n)| ==>
      VisitKids(ns, i, level, n)[k].node < |ns| && Under(ns, VisitKids(ns, i, level, n)[k].node, i)
    decreases |ns| - i, 0, n
  {
    if n > 0 {
      var c := Kids(ns, i)[n - 1];
      VisitKidsLast(ns, i, level, n);
      VisitKidsSound(ns, i, level, n - 1);
      VisitsSound(ns, c, level + 1, n - 1, |Kids(ns, i)|);
      AllUnderConcat(ns, i, c, VisitKids(ns, i, level, n - 1), Visits(ns, c, level + 1, n - 1, |Kids(ns, i)|));
    }
  }

  /** Visits under `i` followed by visits under a child `c` of `i` are all under `i`. */
  lemma AllUnderConcat(ns: seq<NodeData>, i: NodeId, c: NodeId, a: seq<Visit>, b: seq<Visit>)
    requires WellLinked(ns) && i < |ns| && c in Kids(ns, i)
    requires forall k :: 0 <= k < |a| ==> a[k].node < |ns| && Under(ns, a[k].node, i)
    requires forall k :: 0 <= k < |b| ==> b[k].node < |ns| && Under(ns, b[k].node, c)
    ensures forall k :: 0 <= k < |a + b| ==> (a + b)[k].node < |ns| && Under(ns, (a + b)[k].node, i)
  {
    forall k | 0 <= k < |a + b| ensures (a + b)[k].node < |ns| && Under(ns, (a + b)[k].node, i) {
      if k >= |a| {
        assert (a + b)[k] == b[k - |a|];
        UnderKid(ns, b[k - |a|].node, i, c);
      }
    }
  }

  /** Every node of the subtree is visited. */
  lemma VisitsComplete(ns: seq<NodeData>, i: NodeId, level: nat, index: nat, size: nat, j: NodeId)
    requires WellLinked(ns) && i < |ns| && j < |ns| && Under(ns, j, i)
    ensures exists p :: 0 <= p < |Visits(ns, i, level, index, size)| && Visits(ns, i, level, index, size)[p].node == j
  {
    var p := VisitPosition(ns, i, level, index, size, j);
  }

  /** Where node `j` of the subtree of `i` is visited. */
  lemma {:induction false} VisitPosition(ns: seq<NodeData>, i: NodeId, level: nat, index: nat, size: nat, j: NodeId)
    returns (p: nat)
    requires WellLinked(ns) && i < |ns| && j < |ns| && Under(ns, j, i)
    ensures p < |Visits(ns, i, level, index, size)| && Visits(ns, i, level, index, size)[p].node == j
    decreases |ns| - i
  {
    if j == i {
      p := 0;
    } else {
      var ks := Kids(ns, i);
      var c := Toward(ns, j, i);
      var m := IndexOfKid(ks, c);
      KidParent(ns, i, c);
      UnderKid(ns, j, i, c);
      var q := VisitPosition(ns, c, level + 1, m, |ks|, j);
      var p' := VisitKidsPosition(ns, i, level, |ks|, m, q);
      var vs := VisitKids(ns, i, level, |ks|);
      assert Visits(ns, i, level, index, size) == [Visit(i, level, index, size)] + vs;
      p := 1 + p';
      assert Visits(ns, i, level, index, size)[p] == vs[p'];
    }
  }

  lemma IndexOfKid(ks: seq<NodeId>, c: NodeId) returns (m: nat)
    requires c in ks
    ensures m < |ks| && ks[m] == c
  {
    m :| 0 <= m < |ks| && ks[m] == c;
  }

  /** The calls for child `m` sit inside those for the first `n > m` children. */
  lemma {:induction false} VisitKidsPosition(ns: seq<NodeData>, i: NodeId, level: nat, n: nat, m: nat, q: nat)
    returns (p: nat)
    requires WellLinked(ns) && i < |ns| && m < n <= |Kids(ns, i)|
    requires i < Kids(ns, i)[m] < |ns| && q < |Visits(ns, Kids(ns, i)[m], level + 1, m, |Kids(ns, i)|)|
    ensures p < |VisitKids(ns, i, level, n)|
    ensures VisitKids(ns, i, level, n)[p] == Visits(ns, Kids(ns, i)[m], level + 1, m, |Kids(ns, i)|)[q]
    decreases n
  {
    VisitKidsLast(ns, i, level, n);
    var a := VisitKids(ns, i, level, n - 1);
    if m == n - 1 {
      p := |a| + q;
      IndexRight(VisitKids(ns, i, level, n), a, Visits(ns, Kids(ns, i)[m], level + 1, m, |Kids(ns, i)|), q);
    } else {
      p := VisitKidsPosition(ns, i, level, n - 1, m, q);
      IndexLeft(VisitKids(ns, i, level, n), a, Visits(ns, Kids(ns, i)[n - 1], level + 1, n - 1, |Kids(ns, i)|), p);
    }
  }

  // ---------------------------------------------------------------------------
  // process_template

  /** `text_tree_elements::get_prefix_branch`: for a depth, an index and a
      number of siblings, the indentation the children of that node continue
      with and the branch drawn before it. The crate is not part of this model,
      so it is a parameter. */
  type PrefixBranch = (nat, nat, nat) -> (string, string)

  /** The line of one node: the inherited prefixes, its branch, its coloured
      fields and a newline. */
  function Line(ns: seq<NodeData>, tte: PrefixBranch, i: NodeId, level: nat, index: nat, size: nat,
                prefixes: string, m: Mask): string
    requires i < |ns|
  {
    prefixes + tte(level, index, size).1 + Text.ToColoredString(ns[i], m) + "\n"
  }

  /** The lines `process_template` returns: the node's own line, then the lines
      of its children's subtrees in order, each child one level deeper, with its
      index, the number of children and the prefixes extended by the node's
      prefix. */
  function Render(ns: seq<NodeData>, tte: PrefixBranch, i: NodeId, level: nat, index: nat, size: nat,
                  prefixes: string, m: Mask): (r: seq<string>)
    requires WellLinked(ns) && i < |ns|
    ensures |r| >= 1 && r[0] == Line(ns, tte, i, level, index, size, prefixes, m)
    decreases |ns| - i, 1
  {
    [Line(ns, tte, i, level, index, size, prefixes, m)]
      + RenderKids(ns, tte, i, level, prefixes + tte(level, index, size).0, m, |Kids(ns, i)|)
  }

  /** The lines of the first `n` children's subtrees. */
  function RenderKids(ns: seq<NodeData>, tte: PrefixBranch, i: NodeId, level: nat, prefixes: string,
                      m: Mask, n: nat): seq<string>
    requires WellLinked(ns) && i < |ns| && n <= |Kids(ns, i)|
    decreases |ns| - i, 0, n
  {
    if n == 0 then []
    else
      var ks := Kids(ns, i);
      KidParent(ns, i, ks[n - 1]);
      RenderKids(ns, tte, i, level, prefixes, m, n - 1) + Render(ns, tte, ks[n - 1], level + 1, n - 1, |ks|, prefixes, m)
  }

  /** One more child adds that child's subtree lines at the end. */
  lemma RenderKidsStep(ns: seq<NodeData>, tte: PrefixBranch, i: NodeId, level: nat, prefixes: string, m: Mask, n: nat)
    requires WellLinked(ns) && i < |ns| && n < |Kids(ns, i)|
    ensures Kids(ns, i)[n] < |ns|
    ensures RenderKids(ns, tte, i, level, prefixes, m, n + 1)
         == RenderKids(ns, tte, i, level, prefixes, m, n) + Render(ns, tte, Kids(ns, i)[n], level + 1, n, |Kids(ns, i)|, prefixes, m)
  {
    KidParent(ns, i, Kids(ns, i)[n]);
  }

  predicate EndsWith(s: string, t: string)
  {
    |t| <= |s| && s[|s| - |t|..] == t
  }

  /** The line drawn for one visit starts with `prefixes` and ends with the
      branch of the visit's position, the visited node's coloured fields and a
      newline. */
  predicate DrawsOne(ns: seq<NodeData>, tte: PrefixBranch, m: Mask, prefixes: string, line: string, v: Visit)
  {
    && v.node < |ns|
    && prefixes <= line
    && EndsWith(line, tte(v.level, v.index, v.size).1 + Text.ToColoredString(ns[v.node], m) + "\n")
  }

  /** One line per visit, each drawn for its visit. */
  predicate Draws(ns: seq<NodeData>, tte: PrefixBranch, m: Mask, prefixes: string, lines: seq<string>, vs: seq<Visit>)
  {
    |lines| == |vs| && forall k :: 0 <= k < |vs| ==> DrawsOne(ns, tte, m, prefixes, lines[k], vs[k])
  }

  lemma DrawsConcat(ns: seq<NodeData>, tte: PrefixBranch, m: Mask, prefixes: string,
                    l1: seq<string>, v1: seq<Visit>, l2: seq<string>, v2: seq<Visit>)
    requires Draws(ns, tte, m, prefixes, l1, v1) && Draws(ns, tte, m, prefixes, l2, v2)
    ensures Draws(ns, tte, m, prefixes, l1 + l2, v1 + v2)
  {
    forall k | 0 <= k < |v1| + |v2|
      ensures DrawsOne(ns, tte, m, prefixes, (l1 + l2)[k], (v1 + v2)[k])
    {
      if k < |v1| {
        assert (l1 + l2)[k] == l1[k] && (v1 + v2)[k] == v1[k];
      } else {
        assert (l1 + l2)[k] == l2[k - |v1|] && (v1 + v2)[k] == v2[k - |v1|];
      }
    }
  }

  lemma DrawsShorter(ns: seq<NodeData>, tte: PrefixBranch, m: Mask, prefixes: string, more: string,
                     lines: seq<string>, vs: seq<Visit>)
    requires Draws(ns, tte, m, prefixes + more, lines, vs)
    ensures Draws(ns, tte, m, prefixes, lines, vs)
  {
    forall k | 0 <= k < |vs| ensures DrawsOne(ns, tte, m, prefixes, lines[k], vs[k]) {
      assert DrawsOne(ns, tte, m, prefixes + more, lines[k], vs[k]);
      assert (prefixes + more)[..|prefixes|] == prefixes;
    }
  }

  /** `process_template` draws exactly one line per `for_all` visit, in the same
      (pre-)order: each line begins with the given prefixes and ends with the
      branch for the visit's position and the visited node's coloured entry. */
  lemma {:induction false} RenderDrawsVisits(ns: seq<NodeData>, tte: PrefixBranch, i: NodeId, level: nat,
                                             index: nat, size: nat, prefixes: string, m: Mask)
    requires WellLinked(ns) && i < |ns|
    ensures Draws(ns, tte, m, prefixes, Render(ns, tte, i, level, index, size, prefixes, m),
                  Visits(ns, i, level, index, size))
    decreases |ns| - i, 1
  {
    var pre := prefixes + tte(level, index, size).0;
    var n := |Kids(ns, i)|;
    RenderKidsDrawsVisits(ns, tte, i, level, pre, m, n);
    DrawsShorter(ns, tte, m, prefixes, tte(level, index, size).0, RenderKids(ns, tte, i, level, pre, m, n),
                 VisitKids(ns, i, level, n));
    var line := Line(ns, tte, i, level, index, size, prefixes, m);
    var tail := tte(level, index, size).1 + Text.ToColoredString(ns[i], m) + "\n";
    assert line == prefixes + tail;
    assert EndsWith(line, tail);
    assert prefixes <= line;
    assert DrawsOne(ns, tte, m, prefixes, line, Visit(i, level, index, size));
    assert Draws(ns, tte, m, prefixes, [line], [Visit(i, level, index, size)]);
    DrawsConcat(ns, tte, m, prefixes, [line], [Visit(i, level, index, size)],
                RenderKids(ns, tte, i, level, pre, m, n), VisitKids(ns, i, level, n));
  }

  lemma {:induction false} RenderKidsDrawsVisits(ns: seq<NodeData>, tte: PrefixBranch, i: NodeId, level: nat,
                                                 prefixes: string, m: Mask, n: nat)
    requires WellLinked(ns) && i < |ns| && n <= |Kids(ns, i)|
    ensures Draws(ns, tte, m, prefixes, RenderKids(ns, tte, i, level, prefixes, m, n), VisitKids(ns, i, level, n))
    decreases |ns| - i, 0, n
  {
    if n > 0 {
      var ks := Kids(ns, i);
      KidAt(ns, i, n - 1);
      VisitKidsLast(ns, i, level, n);
      RenderKidsLast(ns, tte, i, level, prefixes, m, n);
      var l1 := RenderKids(ns, tte, i, level, prefixes, m, n - 1);
      var v1 := VisitKids(ns, i, level, n - 1);
      var l2 := Render(ns, tte, ks[n - 1], level + 1, n - 1, |ks|, prefixes, m);
      var v2 := Visits(ns, ks[n - 1], level + 1, n - 1, |ks|);
      RenderKidsDrawsVisits(ns, tte, i, level, prefixes, m, n - 1);
      RenderDrawsVisits(ns, tte, ks[n - 1], level + 1, n - 1, |ks|, prefixes, m);
      DrawsConcat(ns, tte, m, prefixes, l1, v1, l2, v2);
    }
  }
}
