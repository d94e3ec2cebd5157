/** The order `sort_ext` puts a children list in (src/file_tree/node/node.rs:583-590):
    `Vec::sort_by` with `cmp_ext`, a stable sort. The sorted list is specified
    as a stable insertion sort of the child ids by their records. */
module Sorting {

  import opened Base
  import opened FieldMask
  import opened NodeDatas

  /** Every id names a slot of the arena. */
  predicate InArena(ns: seq<NodeData>, ids: seq<NodeId>)
  {
    forall k :: 0 <= k < |ids| ==> ids[k] < |ns|
  }

  /** Inserts `x` before the first element it does not compare greater than,
      so that it stays ahead of the elements equal to it that came after it. */
  function Insert(ns: seq<NodeData>, m: Mask, x: NodeId, s: seq<NodeId>): (r: seq<NodeId>)
    requires x < |ns| && InArena(ns, s)
    ensures InArena(ns, r) && |r| == |s| + 1
    ensures r[0] == x || (|s| > 0 && r[0] == s[0])
  {
    if s == [] || CmpExt(ns[x], ns[s[0]], m) != Greater then [x] + s
    else [s[0]] + Insert(ns, m, x, s[1..])
  }

  /** The children list after `children.sort_by(|a, b| a.cmp_ext(b, bitflag))`:
      sorting only reorders the children, so the result is a permutation. */
  function SortIds(ns: seq<NodeData>, ids: seq<NodeId>, m: Mask): (r: seq<NodeId>)
    requires InArena(ns, ids)
    ensures InArena(ns, r) && |r| == |ids|
    ensures multiset(r) == multiset(ids)
  {
    if ids == [] then []
    else
      var rest := SortIds(ns, ids[1..], m);
      InsertPermutes(ns, m, ids[0], rest);
      HeadTail(ids);
      Insert(ns, m, ids[0], rest)
  }

  /** Each id's record compares not greater than the next one's. */
  predicate Sorted(ns: seq<NodeData>, s: seq<NodeId>, m: Mask)
    requires InArena(ns, s)
  {
    forall k :: 0 <= k < |s| - 1 ==> CmpExt(ns[s[k]], ns[s[k + 1]], m) != Greater
  }

  lemma HeadTail(ids: seq<NodeId>)
    requires ids != []
    ensures multiset(ids) == multiset(ids[1..]) + multiset{ids[0]}
  {
    assert ids == [ids[0]] + ids[1..];
  }

  lemma {:induction false} InsertPermutes(ns: seq<NodeData>, m: Mask, x: NodeId, s: seq<NodeId>)
    requires x < |ns| && InArena(ns, s)
    ensures multiset(Insert(ns, m, x, s)) == multiset(s) + multiset{x}
  {
    if s != [] && CmpExt(ns[x], ns[s[0]], m) == Greater {
      InsertPermutes(ns, m, x, s[1..]);
      assert s == [s[0]] + s[1..];
    }
  }

  lemma {:induction false} InsertSorted(ns: seq<NodeData>, m: Mask, x: NodeId, s: seq<NodeId>)
    requires x < |ns| && InArena(ns, s) && Sorted(ns, s, m) && SortField(m).Some?
    ensures Sorted(ns, Insert(ns, m, x, s), m)
  {
    if s != [] && CmpExt(ns[x], ns[s[0]], m) == Greater {
      var t := Insert(ns, m, x, s[1..]);
      InsertSorted(ns, m, x, s[1..]);
      CmpExtIsOrder(ns[x], ns[s[0]], ns[x], m);
      var r := [s[0]] + t;
      forall k | 0 <= k < |r| - 1 ensures CmpExt(ns[r[k]], ns[r[k + 1]], m) != Greater {
        if k > 0 {
          assert r[k] == t[k - 1] && r[k + 1] == t[k];
        }
      }
    }
  }

  /** Under a single-field mask the sorted list is in `cmp_ext` order. */
  lemma {:induction false} SortIdsSorted(ns: seq<NodeData>, ids: seq<NodeId>, m: Mask)
    requires InArena(ns, ids) && SortField(m).Some?
    ensures Sorted(ns, SortIds(ns, ids, m), m)
  {
    if ids != [] {
      SortIdsSorted(ns, ids[1..], m);
      InsertSorted(ns, m, ids[0], SortIds(ns, ids[1..], m));
    }
  }

  /** A list already in order is left as it is. */
  lemma {:induction false} SortIdsOfSorted(ns: seq<NodeData>, ids: seq<NodeId>, m: Mask)
    requires InArena(ns, ids) && Sorted(ns, ids, m)
    ensures SortIds(ns, ids, m) == ids
  {
    if ids != [] {
      var t := ids[1..];
      assert Sorted(ns, t, m) by {
        forall k | 0 <= k < |t| - 1 ensures CmpExt(ns[t[k]], ns[t[k + 1]], m) != Greater {
          assert t[k] == ids[k + 1] && t[k + 1] == ids[k + 2];
        }
      }
      SortIdsOfSorted(ns, t, m);
      assert ids == [ids[0]] + t;
    }
  }

  /** The ids of the list, in order, whose records `cmp_ext` finds equal to
      `d`. */
  function Ties(ns: seq<NodeData>, s: seq<NodeId>, m: Mask, d: NodeData): (r: seq<NodeId>)
    ensures |r| <= |s| && forall k :: 0 <= k < |r| ==> r[k] < |ns| && CmpExt(ns[r[k]], d, m) == Equal
  {
    if s == [] then []
    else (if s[0] < |ns| && CmpExt(ns[s[0]], d, m) == Equal then [s[0]] else []) + Ties(ns, s[1..], m, d)
  }

  /** Inserting `x` puts it ahead of every id that ties with it. */
  lemma {:induction false} InsertTies(ns: seq<NodeData>, m: Mask, x: NodeId, s: seq<NodeId>, d: NodeData)
    requires x < |ns| && InArena(ns, s)
    ensures Ties(ns, Insert(ns, m, x, s), m, d)
            == (if CmpExt(ns[x], d, m) == Equal then [x] else []) + Ties(ns, s, m, d)
  {
    if s != [] && CmpExt(ns[x], ns[s[0]], m) == Greater {
      InsertTies(ns, m, x, s[1..], d);
      GreaterNoTie(ns[x], ns[s[0]], d, m);
      var r := Insert(ns, m, x, s);
      assert r[0] == s[0] && r[1..] == Insert(ns, m, x, s[1..]);
    } else {
      var r := [x] + s;
      assert r[1..] == s;
    }
  }

  /** A record that compares greater than another does not tie with what
      that other ties with. */
  lemma GreaterNoTie(a: NodeData, b: NodeData, d: NodeData, m: Mask)
    requires CmpExt(a, b, m) == Greater
    ensures CmpExt(a, d, m) == Equal ==> CmpExt(b, d, m) != Equal
  {
    if SortField(m).Some? {
      CmpExtIsOrder(a, d, b, m);
      CmpExtIsOrder(b, d, a, m);
    } else {
      CmpExtWithoutSortField(a, d, m);
    }
  }

  /** `sort_by` is stable: the ids whose records tie with any given record
      keep their relative order. */
  lemma {:induction false} SortIdsStable(ns: seq<NodeData>, ids: seq<NodeId>, m: Mask, d: NodeData)
    requires InArena(ns, ids)
    ensures Ties(ns, SortIds(ns, ids, m), m, d) == Ties(ns, ids, m, d)
  {
    if ids != [] {
      SortIdsStable(ns, ids[1..], m, d);
      InsertTies(ns, m, ids[0], SortIds(ns, ids[1..], m), d);
    }
  }

  /** Ties depend only on the records of the listed ids, not on their links. */
  lemma {:induction false} TiesFrame(ns: seq<NodeData>, ms: seq<NodeData>, s: seq<NodeId>, m: Mask, d: NodeData)
    requires |ns| == |ms| && forall x :: 0 <= x < |ns| ==> SameAttrs(ns[x], ms[x])
    ensures Ties(ns, s, m, d) == Ties(ms, s, m, d)
  {
    if s != [] {
      TiesFrame(ns, ms, s[1..], m, d);
      if s[0] < |ns| {
        CmpExtIgnoresLinks(ns[s[0]], d, ms[s[0]], d, m);
      }
    }
  }

  /** Sorting twice is sorting once. */
  lemma SortIdsIdempotent(ns: seq<NodeData>, ids: seq<NodeId>, m: Mask)
    requires InArena(ns, ids) && SortField(m).Some?
    ensures SortIds(ns, SortIds(ns, ids, m), m) == SortIds(ns, ids, m)
  {
    SortIdsSorted(ns, ids, m);
    SortIdsOfSorted(ns, SortIds(ns, ids, m), m);
  }

  /** Two records that differ at most in their links. */
  predicate SameAttrs(a: NodeData, b: NodeData)
  {
    a.(parent := b.parent, children := b.children) == b
  }

  /** The arenas agree on the records of `ids`, up to links. */
  predicate SameAttrsOn(ns: seq<NodeData>, ms: seq<NodeData>, ids: seq<NodeId>)
    requires InArena(ns, ids) && InArena(ms, ids)
  {
    forall k :: 0 <= k < |ids| ==> SameAttrs(ns[ids[k]], ms[ids[k]])
  }

  lemma CmpExtIgnoresLinks(a: NodeData, b: NodeData, c: NodeData, d: NodeData, m: Mask)
    requires SameAttrs(a, c) && SameAttrs(b, d)
    ensures CmpExt(a, b, m) == CmpExt(c, d, m)
  {
    assert a.file == c.file && a.desc == c.desc && a.tags == c.tags && a.sha256 == c.sha256 && a.status == c.status;
    assert a.modified == c.modified && a.accessed == c.accessed && a.created == c.created;
    assert a.size == c.size && a.fileType == c.fileType;
    assert b.file == d.file && b.desc == d.desc && b.tags == d.tags && b.sha256 == d.sha256 && b.status == d.status;
    assert b.modified == d.modified && b.accessed == d.accessed && b.created == d.created;
    assert b.size == d.size && b.fileType == d.fileType;
  }

  lemma {:induction false} InsertFrame(ns: seq<NodeData>, ms: seq<NodeData>, m: Mask, x: NodeId, s: seq<NodeId>)
    requires x < |ns| && x < |ms| && InArena(ns, s) && InArena(ms, s)
    requires SameAttrs(ns[x], ms[x]) && SameAttrsOn(ns, ms, s)
    ensures Insert(ns, m, x, s) == Insert(ms, m, x, s)
  {
    if s != [] {
      CmpExtIgnoresLinks(ns[x], ns[s[0]], ms[x], ms[s[0]], m);
      InsertFrame(ns, ms, m, x, s[1..]);
    }
  }

  /** The sorted order depends only on the children's records, not on any
      children lists: re-linking nodes does not change it. */
  lemma {:induction false} SortIdsFrame(ns: seq<NodeData>, ms: seq<NodeData>, ids: seq<NodeId>, m: Mask)
    requires InArena(ns, ids) && InArena(ms, ids) && SameAttrsOn(ns, ms, ids)
    ensures SortIds(ns, ids, m) == SortIds(ms, ids, m)
  {
    if ids != [] {
      SortIdsFrame(ns, ms, ids[1..], m);
      var t := SortIds(ns, ids[1..], m);
      forall k | 0 <= k < |t| ensures SameAttrs(ns[t[k]], ms[t[k]]) {
        assert t[k] in multiset(ids[1..]);
        var j :| 0 <= j < |ids[1..]| && ids[1..][j] == t[k];
      }
      InsertFrame(ns, ms, m, ids[0], t);
    }
  }
}
