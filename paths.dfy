/** Paths as Rust's `std::path::Path::components` yields them, together with
    the two accessors node.rs relies on, `parent` and `file_name`, and the
    components `PathBuf::push` adds for one node name. */
module Paths {

  import opened Base

  /** `std::path::Component` without the Windows prefix. */
  datatype Component = RootDir | CurDir | ParentDir | Normal(name: string)

  /** A path, already split into its components. */
  type Path = seq<Component>

  /** `Path::parent`: the path without its last component; None for an empty
      path and for a path that ends in the root. */
  function Parent(p: Path): (r: Option<Path>)
    ensures r.Some? <==> |p| > 0 && !p[|p| - 1].RootDir?
    ensures r.Some? ==> r.value + [p[|p| - 1]] == p
  {
    if |p| == 0 || p[|p| - 1].RootDir? then None else Some(p[..|p| - 1])
  }

  /** `Path::file_name`: the last component when it is a normal name. */
  function FileName(p: Path): (r: Option<string>)
    ensures r.Some? <==> |p| > 0 && p[|p| - 1].Normal?
    ensures r.Some? ==> p[|p| - 1] == Normal(r.value)
  {
    if |p| > 0 && p[|p| - 1].Normal? then Some(p[|p| - 1].name) else None
  }

  /** A path that has a file name also has a parent, and the two rebuild it. */
  lemma FileNameHasParent(p: Path)
    requires FileName(p).Some?
    ensures Parent(p).Some? && Parent(p).value + [Normal(FileName(p).value)] == p
  {
  }

  /** The text of `s` before its first '/'. */
  function Segment(s: string): (r: string)
    ensures |r| <= |s| && r == s[..|r|] && '/' !in r
    ensures |r| < |s| ==> s[|r|] == '/'
  {
    if s == [] || s[0] == '/' then [] else [s[0]] + Segment(s[1..])
  }

  /** What one segment contributes to `Path::components`: nothing when empty,
      `.` only where it starts a relative path, `..` as ParentDir, any other
      text as a normal component. */
  function SegmentComponents(seg: string, lead: bool): Path
  {
    if seg == "" then []
    else if seg == "." then (if lead then [CurDir] else [])
    else if seg == ".." then [ParentDir]
    else [Normal(seg)]
  }

  /** `Path::components` of relative text `s` (one that does not start with
      '/'), `lead` when `s` begins the whole path: the segments between '/'s,
      in order. */
  function RelComponents(s: string, lead: bool): (r: Path)
    ensures forall k :: 0 <= k < |r| ==> r[k] != RootDir && (r[k].Normal? ==> IsPlainName(r[k].name))
    decreases |s|
  {
    var seg := Segment(s);
    if |seg| == |s| then SegmentComponents(seg, lead)
    else SegmentComponents(seg, lead) + RelComponents(s[|seg| + 1..], false)
  }

  /** `PathBuf::push(name)` on the path with components `p`, read back through
      `components`: an absolute name replaces the path, any other name is
      appended segment by segment (a `.` segment counts only when the path was
      empty). */
  function Push(p: Path, name: string): (r: Path)
    ensures |name| > 0 && name[0] == '/' ==> |r| > 0 && r[0] == RootDir
    ensures (|name| == 0 || name[0] != '/') ==> |p| <= |r| && r[..|p|] == p
    ensures forall k :: |p| <= k < |r| ==> r[k] != RootDir || (k == 0 && |name| > 0 && name[0] == '/')
  {
    if |name| > 0 && name[0] == '/' then [RootDir] + RelComponents(name[1..], false)
    else p + RelComponents(name, p == [])
  }

  /** A plain name, one normal component without any '/', is pushed as itself
      and read back by `file_name` and `parent`. */
  lemma PushPlain(p: Path, name: string)
    requires IsPlainName(name)
    ensures Push(p, name) == p + [Normal(name)]
    ensures FileName(Push(p, name)) == Some(name) && Parent(Push(p, name)) == Some(p)
  {
    assert Segment(name) == name;
  }

  /** Pushing the empty name onto an empty path adds nothing, and pushing `.`
      gives the path `.`. */
  lemma PushCurDir()
    ensures Push([], "") == [] && Push([], ".") == [CurDir]
  {
    assert Segment(".") == ".";
  }

  /** Pushing an absolute name forgets the path it was pushed onto. */
  lemma PushAbsolute(p: Path, q: Path, name: string)
    requires |name| > 0 && name[0] == '/'
    ensures Push(p, name) == Push(q, name)
  {
  }

  /** Pushing `a/b`, for a non-empty segment `a` and relative `b`, is pushing
      `a` and then `b`. */
  lemma PushSegments(p: Path, a: string, b: string)
    requires a != "" && '/' !in a && (|b| == 0 || b[0] != '/')
    ensures Push(p, a + "/" + b) == Push(Push(p, a), b)
  {
    var s := a + "/" + b;
    SegmentOf(a, b);
    assert s[0] == a[0] && a[0] != '/';
    assert s[|a| + 1..] == b;
    var head := SegmentComponents(a, p == []);
    assert p + head != [];
    var seg := Segment(s);
    assert seg == a && |seg| < |s| && s[|seg| + 1..] == b;
    assert RelComponents(s, p == []) == SegmentComponents(seg, p == []) + RelComponents(s[|seg| + 1..], false);
    assert RelComponents(a, p == []) == head;
    assert Push(p, a) == p + head;
  }

  /** The segment of `a/b` is `a` when `a` holds no '/'. */
  lemma {:induction false} SegmentOf(a: string, b: string)
    requires '/' !in a
    ensures Segment(a + "/" + b) == a && Segment(a) == a
    decreases |a|
  {
    if a != [] {
      assert (a + "/" + b)[1..] == a[1..] + "/" + b;
      SegmentOf(a[1..], b);
      assert [a[0]] + a[1..] == a;
    }
  }

  /** A name that is pushed as exactly one normal component: not empty, not `.`
      or `..`, and without a '/'. */
  predicate IsPlainName(name: string)
  {
    name != "" && name != "." && name != ".." && '/' !in name
  }
}
