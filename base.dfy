/** Value types shared by every part of the model: optional values, results,
    orderings, unsigned 64-bit integers, word joining and decimal text. */
module Base {

  datatype Option<+T> = None | Some(value: T)

  /** A fallible operation: `Err` carries the message of an I/O error. */
  datatype Result<+T> = Ok(value: T) | Err(msg: string)

  /** std::cmp::Ordering */
  datatype Ordering = Less | Equal | Greater {
    function Reverse(): Ordering {
      match this
      case Less => Greater
      case Equal => Equal
      case Greater => Less
    }
  }

  /** Rust's u64 (file sizes). */
  newtype u64 = x: int | 0 <= x < 0x1_0000_0000_0000_0000

  // ---------------------------------------------------------------------------
  // Lexicographic order of strings (Rust compares the UTF-8 bytes, which orders
  // exactly as the code points do) and of sequences of strings.

  function StrCmp(a: string, b: string): (r: Ordering)
    ensures r == Equal <==> a == b
  {
    if |a| == 0 && |b| == 0 then Equal
    else if |a| == 0 then Less
    else if |b| == 0 then Greater
    else if a[0] < b[0] then Less
    else if a[0] > b[0] then Greater
    else
      var r := StrCmp(a[1..], b[1..]);
      assert a == [a[0]] + a[1..] && b == [b[0]] + b[1..];
      r
  }

  lemma {:induction false} StrCmpAntisymmetric(a: string, b: string)
    ensures StrCmp(b, a) == StrCmp(a, b).Reverse()
    decreases |a|
  {
    if |a| > 0 && |b| > 0 && a[0] == b[0] {
      StrCmpAntisymmetric(a[1..], b[1..]);
    }
  }

  lemma {:induction false} StrCmpTransitive(a: string, b: string, c: string)
    requires StrCmp(a, b) != Greater && StrCmp(b, c) != Greater
    ensures StrCmp(a, c) != Greater
    decreases |a|
  {
    if |a| > 0 && |b| > 0 && |c| > 0 && a[0] == b[0] && b[0] == c[0] {
      StrCmpTransitive(a[1..], b[1..], c[1..]);
    }
  }

  function SeqCmp(a: seq<string>, b: seq<string>): (r: Ordering)
    ensures r == Equal <==> a == b
  {
    if |a| == 0 && |b| == 0 then Equal
    else if |a| == 0 then Less
    else if |b| == 0 then Greater
    else if StrCmp(a[0], b[0]) != Equal then StrCmp(a[0], b[0])
    else
      var r := SeqCmp(a[1..], b[1..]);
      assert a == [a[0]] + a[1..] && b == [b[0]] + b[1..];
      r
  }

  lemma {:induction false} SeqCmpAntisymmetric(a: seq<string>, b: seq<string>)
    ensures SeqCmp(b, a) == SeqCmp(a, b).Reverse()
    decreases |a|
  {
    if |a| > 0 && |b| > 0 {
      StrCmpAntisymmetric(a[0], b[0]);
      if a[0] == b[0] {
        SeqCmpAntisymmetric(a[1..], b[1..]);
      }
    }
  }

  lemma {:induction false} SeqCmpTransitive(a: seq<string>, b: seq<string>, c: seq<string>)
    requires SeqCmp(a, b) != Greater && SeqCmp(b, c) != Greater
    ensures SeqCmp(a, c) != Greater
    decreases |a|
  {
    if |a| > 0 && |b| > 0 && |c| > 0 {
      StrCmpAntisymmetric(a[0], b[0]);
      StrCmpAntisymmetric(b[0], c[0]);
      StrCmpAntisymmetric(a[0], c[0]);
      if StrCmp(a[0], b[0]) == Equal && StrCmp(b[0], c[0]) == Equal {
        SeqCmpTransitive(a[1..], b[1..], c[1..]);
      } else if StrCmp(a[0], c[0]) == Greater {
        StrCmpTransitive(a[0], b[0], c[0]);
      }
    }
  }

  /** Unsigned integer order. */
  function IntCmp(a: int, b: int): (r: Ordering)
  {
    if a < b then Less else if a > b then Greater else Equal
  }

  /** The derived `Ord` of `Option<T>`: None before every Some, Somes by their contents. */
  function OptCmp<T>(a: Option<T>, b: Option<T>, inner: (T, T) -> Ordering): (r: Ordering)
  {
    match (a, b)
    case (None, None) => Equal
    case (None, Some(_)) => Less
    case (Some(_), None) => Greater
    case (Some(x), Some(y)) => inner(x, y)
  }

  /** `inner` is a total order: antisymmetric, equal exactly on equal values, transitive. */
  ghost predicate IsTotalOrder<T(!new)>(inner: (T, T) -> Ordering)
  {
    && (forall x, y :: inner(y, x) == inner(x, y).Reverse())
    && (forall x, y :: inner(x, y) == Equal <==> x == y)
    && (forall x, y, z :: inner(x, y) != Greater && inner(y, z) != Greater ==> inner(x, z) != Greater)
  }

  lemma IntCmpIsTotalOrder()
    ensures IsTotalOrder(IntCmp)
  {
  }

  lemma StrCmpIsTotalOrder()
    ensures IsTotalOrder(StrCmp)
  {
    forall x, y ensures StrCmp(y, x) == StrCmp(x, y).Reverse() {
      StrCmpAntisymmetric(x, y);
    }
    forall x, y, z | StrCmp(x, y) != Greater && StrCmp(y, z) != Greater ensures StrCmp(x, z) != Greater {
      StrCmpTransitive(x, y, z);
    }
  }

  lemma SeqCmpIsTotalOrder()
    ensures IsTotalOrder(SeqCmp)
  {
    forall x, y ensures SeqCmp(y, x) == SeqCmp(x, y).Reverse() {
      SeqCmpAntisymmetric(x, y);
    }
    forall x, y, z | SeqCmp(x, y) != Greater && SeqCmp(y, z) != Greater ensures SeqCmp(x, z) != Greater {
      SeqCmpTransitive(x, y, z);
    }
  }

  /** The derived order of `Option<T>` is a total order when the inner one is. */
  lemma OptCmpIsTotalOrder<T(!new)>(inner: (T, T) -> Ordering)
    requires IsTotalOrder(inner)
    ensures IsTotalOrder((a: Option<T>, b: Option<T>) => OptCmp(a, b, inner))
  {
    var cmp := (a: Option<T>, b: Option<T>) => OptCmp(a, b, inner);
    forall a: Option<T>, b: Option<T> ensures cmp(b, a) == cmp(a, b).Reverse() && (cmp(a, b) == Equal <==> a == b) {
      OptCmpAntisymmetric(a, b, inner);
      OptCmpEqual(a, b, inner);
    }
    forall a: Option<T>, b: Option<T>, c: Option<T> | cmp(a, b) != Greater && cmp(b, c) != Greater
      ensures cmp(a, c) != Greater
    {
      OptCmpTransitive(a, b, c, inner);
    }
  }

  lemma OptCmpAntisymmetric<T>(a: Option<T>, b: Option<T>, inner: (T, T) -> Ordering)
    requires forall x, y :: inner(y, x) == inner(x, y).Reverse()
    ensures OptCmp(b, a, inner) == OptCmp(a, b, inner).Reverse()
  {
  }

  lemma OptCmpEqual<T>(a: Option<T>, b: Option<T>, inner: (T, T) -> Ordering)
    requires forall x, y :: inner(x, y) == Equal <==> x == y
    ensures OptCmp(a, b, inner) == Equal <==> a == b
  {
  }

  lemma OptCmpTransitive<T>(a: Option<T>, b: Option<T>, c: Option<T>, inner: (T, T) -> Ordering)
    requires forall x, y, z :: inner(x, y) != Greater && inner(y, z) != Greater ==> inner(x, z) != Greater
    requires OptCmp(a, b, inner) != Greater && OptCmp(b, c, inner) != Greater
    ensures OptCmp(a, c, inner) != Greater
  {
  }

  // ---------------------------------------------------------------------------
  // Vec<String>::join and its inverse str::split on one character.

  function Join(words: seq<string>, sep: string): (r: string)
  {
    if |words| == 0 then ""
    else if |words| == 1 then words[0]
    else words[0] + sep + Join(words[1..], sep)
  }

  /** Position of the first `c` in `s`. */
  function IndexOf(s: string, c: char): (k: nat)
    requires c in s
    ensures k < |s| && s[k] == c && c !in s[..k]
  {
    if s[0] == c then 0 else
      var k := IndexOf(s[1..], c);
      assert s[..k + 1] == [s[0]] + s[1..][..k];
      k + 1
  }

  /** A prefix of a prefix is a prefix of the longer sequence. */
  lemma TakePrefix<T>(a: seq<T>, b: seq<T>, n: nat)
    requires n <= |a| <= |b| && b[..|a|] == a
    ensures b[..n] == a[..n]
  {
    assert forall x :: 0 <= x < n ==> b[..n][x] == b[..|a|][x];
  }

  /** A prefix one longer is the prefix and the next element. */
  lemma TakeOneMore<T>(s: seq<T>, k: nat)
    requires k < |s|
    ensures s[..k + 1] == s[..k] + [s[k]]
  {
  }

  lemma AppendAssoc<T>(a: seq<T>, b: seq<T>, c: seq<T>)
    ensures (a + b) + c == a + (b + c)
  {
  }

  /** An index into a concatenation lands in one of its parts. */
  lemma IndexConcat<T>(a: seq<T>, b: seq<T>, k: nat)
    requires k < |a| + |b|
    ensures (a + b)[k] == if k < |a| then a[k] else b[k - |a|]
  {
  }

  lemma IndexLeft<T>(s: seq<T>, a: seq<T>, b: seq<T>, k: nat)
    requires s == a + b && k < |a|
    ensures k < |s| && s[k] == a[k]
  {
  }

  lemma IndexRight<T>(s: seq<T>, a: seq<T>, b: seq<T>, k: nat)
    requires s == a + b && k < |b|
    ensures |a| + k < |s| && s[|a| + k] == b[k]
  {
  }

  /** The prefix as long as the sequence is the sequence. */
  lemma TakeAll<T>(s: seq<T>)
    ensures s[..|s|] == s
  {
  }

  /** str::split(c): the pieces between occurrences of `c`. */
  function Split(s: string, c: char): (r: seq<string>)
    ensures |r| >= 1
    decreases |s|
  {
    if c in s then
      var k := IndexOf(s, c);
      [s[..k]] + Split(s[k + 1..], c)
    else [s]
  }

  lemma IndexOfJoined(a: string, c: char, b: string)
    requires c !in a
    ensures c in a + [c] + b && IndexOf(a + [c] + b, c) == |a|
  {
    var s := a + [c] + b;
    assert s[|a|] == c;
  }

  /** Splitting undoes joining when no word holds the separator. */
  lemma {:induction false} SplitJoin(words: seq<string>, c: char)
    requires |words| >= 1
    requires forall k :: 0 <= k < |words| ==> c !in words[k]
    ensures Split(Join(words, [c]), c) == words
  {
    if |words| > 1 {
      var rest := Join(words[1..], [c]);
      IndexOfJoined(words[0], c, rest);
      var s := words[0] + [c] + rest;
      assert s[..|words[0]|] == words[0];
      assert s[|words[0]| + 1..] == rest;
      SplitJoin(words[1..], c);
    }
  }

  // ---------------------------------------------------------------------------
  // u64::to_string / usize::to_string: decimal digits without leading zeros.

  function Digit(d: nat): (c: char)
    requires d < 10
  {
    ['0', '1', '2', '3', '4', '5', '6', '7', '8', '9'][d]
  }

  function DigitValue(c: char): nat
  {
    if '0' <= c <= '9' then (c as int - '0' as int) as nat else 0
  }

  predicate IsDigits(s: string)
  {
    forall k :: 0 <= k < |s| ==> '0' <= s[k] <= '9'
  }

  function NatToString(n: nat): (s: string)
    ensures |s| >= 1 && IsDigits(s)
    ensures |s| > 1 ==> s[0] != '0'
  {
    if n < 10 then [Digit(n)] else NatToString(n / 10) + [Digit(n % 10)]
  }

  function DecimalValue(s: string): nat
  {
    if |s| == 0 then 0 else DecimalValue(s[..|s| - 1]) * 10 + DigitValue(s[|s| - 1])
  }

  /** Reading back the printed decimal gives the number: the rendering is injective. */
  lemma {:induction false} DecimalRoundTrip(n: nat)
    ensures DecimalValue(NatToString(n)) == n
  {
    if n < 10 {
      DigitRoundTrip(n);
      assert NatToString(n)[..0] == [];
    } else {
      var s := NatToString(n / 10) + [Digit(n % 10)];
      assert s[..|s| - 1] == NatToString(n / 10);
      DecimalRoundTrip(n / 10);
      DigitRoundTrip(n % 10);
    }
  }

  lemma DigitRoundTrip(d: nat)
    requires d < 10
    ensures DigitValue(Digit(d)) == d
  {
  }

  lemma NatToStringInjective(m: nat, n: nat)
    requires NatToString(m) == NatToString(n)
    ensures m == n
  {
    DecimalRoundTrip(m);
    DecimalRoundTrip(n);
  }
}
