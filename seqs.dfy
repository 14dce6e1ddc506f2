/**
  Searching, splitting and joining sequences the way Python's `bytes`/`str`
  methods `find`, `split(sep)`, `split(sep, 1)[0]` and `sep.join` do.
*/
module Seqs {
  import opened Base

  /** `p` occurs in `s` starting at index `i`. */
  predicate OccursAt<T(==)>(s: seq<T>, p: seq<T>, i: nat)
  {
    i + |p| <= |s| && s[i..i + |p|] == p
  }

  /** Index of the first occurrence of `p` in `s` (Python's `find`, with None for -1). */
  function IndexOf<T(==)>(s: seq<T>, p: seq<T>): (r: Option<nat>)
    ensures r.Some? ==> OccursAt(s, p, r.value)
    ensures forall j: nat :: (r.None? || j < r.value) ==> !OccursAt(s, p, j)
    decreases |s|
  {
    if |s| < |p| then None
    else if s[..|p|] == p then Some(0)
    else
      var r' := IndexOf(s[1..], p);
      assert forall j: nat :: 1 <= j ==> (OccursAt(s, p, j) <==> OccursAt(s[1..], p, j - 1));
      match r'
      case None => None
      case Some(k) => Some(k + 1)
  }

  /** `p in s` for sequences (Python's `in` on bytes and str). */
  predicate Contains<T(==)>(s: seq<T>, p: seq<T>)
  {
    IndexOf(s, p).Some?
  }

  lemma ContainsIff<T>(s: seq<T>, p: seq<T>)
    ensures Contains(s, p) <==> exists i: nat :: OccursAt(s, p, i)
  {
    if !Contains(s, p) {
      forall i: nat ensures !OccursAt(s, p, i) { }
    }
  }

  /** Everything before the first `sep`, or all of `s`: Python's `s.split(sep, 1)[0]`. */
  function BeforeFirst<T(==)>(s: seq<T>, sep: seq<T>): (r: seq<T>)
    ensures r <= s
    ensures !Contains(s, sep) ==> r == s
    ensures Contains(s, sep) ==> OccursAt(s, sep, |r|)
    ensures forall j: nat :: j < |r| ==> !OccursAt(s, sep, j)
  {
    match IndexOf(s, sep)
    case None => s
    case Some(i) => s[..i]
  }

  /** `BeforeFirst` cuts at the first occurrence, wherever it is known to be. */
  lemma BeforeFirstAt<T>(s: seq<T>, sep: seq<T>, i: nat)
    requires OccursAt(s, sep, i)
    requires forall j: nat :: j < i ==> !OccursAt(s, sep, j)
    ensures BeforeFirst(s, sep) == s[..i]
  {
    var r := IndexOf(s, sep);
    assert r.Some?;
  }

  /** Cutting at a one-element separator stops at its first position. */
  lemma BeforeFirstElem<T>(s: seq<T>, c: T, i: nat)
    requires i < |s| && s[i] == c
    requires forall j :: 0 <= j < i ==> s[j] != c
    ensures BeforeFirst(s, [c]) == s[..i]
  {
    assert OccursAt(s, [c], i) by { assert s[i..i + 1] == [c]; }
    forall j: nat | j < i ensures !OccursAt(s, [c], j) {
      assert s[j..j + 1][0] == s[j];
    }
    BeforeFirstAt(s, [c], i);
  }

  /** A prefix free of the separator's first element is cut off whole at the separator that follows it. */
  lemma BeforeFirstFree<T>(a: seq<T>, sep: seq<T>, rest: seq<T>)
    requires |sep| > 0
    requires forall j :: 0 <= j < |a| ==> a[j] != sep[0]
    ensures BeforeFirst(a + sep + rest, sep) == a
  {
    var s := a + sep + rest;
    assert OccursAt(s, sep, |a|) by { assert s[|a|..|a| + |sep|] == sep; }
    forall j: nat | j < |a| ensures !OccursAt(s, sep, j) {
      if j + |sep| <= |s| {
        assert s[j..j + |sep|][0] == s[j] == a[j];
      }
    }
    BeforeFirstAt(s, sep, |a|);
    assert s[..|a|] == a;
  }

  /** `split` at a one-element separator splits off a first piece that lacks it. */
  lemma SplitFirstPiece<T>(a: seq<T>, c: T, rest: seq<T>)
    requires forall j :: 0 <= j < |a| ==> a[j] != c
    ensures Split(a + [c] + rest, [c]) == [a] + Split(rest, [c])
  {
    var s := a + [c] + rest;
    BeforeFirstElem(s, c, |a|);
    assert s[..|a|] == a && s[|a| + 1..] == rest;
  }

  /** A sequence without `c` does not contain `[c]`. */
  lemma NotContainsElem<T>(s: seq<T>, c: T)
    requires forall i :: 0 <= i < |s| ==> s[i] != c
    ensures !Contains(s, [c])
  {
    ContainsIff(s, [c]);
    forall i: nat ensures !OccursAt(s, [c], i) {
      if i < |s| {
        assert s[i..i + 1][0] == s[i];
      }
    }
  }

  /** Index of the last `c` in `s` (Python's `rfind`, with None for -1). */
  function LastIndexOfElem<T(==)>(s: seq<T>, c: T): (r: Option<nat>)
    ensures r.Some? ==> r.value < |s| && s[r.value] == c
    ensures forall j :: 0 <= j < |s| && (r.None? || r.value < j) ==> s[j] != c
  {
    if s == [] then None
    else if s[|s| - 1] == c then Some(|s| - 1)
    else LastIndexOfElem(s[..|s| - 1], c)
  }

  /** Python's `s.split(sep)` for a non-empty separator. */
  function Split<T(==)>(s: seq<T>, sep: seq<T>): (parts: seq<seq<T>>)
    requires |sep| > 0
    ensures |parts| >= 1
    ensures forall k :: 0 <= k < |parts| ==> !Contains(parts[k], sep)
    ensures Join(parts, sep) == s
    decreases |s|
  {
    match IndexOf(s, sep)
    case None => [s]
    case Some(i) =>
      var head := s[..i];
      var rest := Split(s[i + |sep|..], sep);
      assert !Contains(head, sep) by {
        forall j: nat ensures !OccursAt(head, sep, j) {
          OccursInPrefix(s, head, sep, j);
        }
      }
      assert s == head + sep + s[i + |sep|..];
      [head] + rest
  }

  /** An occurrence inside a prefix is an occurrence in the whole. */
  lemma OccursInPrefix<T>(s: seq<T>, h: seq<T>, p: seq<T>, j: nat)
    requires h <= s
    ensures OccursAt(h, p, j) ==> OccursAt(s, p, j)
  {
    if OccursAt(h, p, j) {
      assert h[j..j + |p|] == s[j..j + |p|];
    }
  }

  /** Python's `sep.join(parts)`. */
  function Join<T>(parts: seq<seq<T>>, sep: seq<T>): seq<T>
  {
    if |parts| == 0 then []
    else if |parts| == 1 then parts[0]
    else parts[0] + sep + Join(parts[1..], sep)
  }

  /** The first piece of `split` is what `split(sep, 1)[0]` keeps. */
  lemma SplitHeadIsBeforeFirst<T>(s: seq<T>, sep: seq<T>)
    requires |sep| > 0
    ensures Split(s, sep)[0] == BeforeFirst(s, sep)
  {
  }

  /** A non-empty sequence is its head followed by its tail. */
  lemma ConsTail<T>(s: seq<T>)
    requires s != []
    ensures [s[0]] + s[1..] == s
  {
  }

  /** `f` applied to each element, in order (Python's `[f(x) for x in s]`). */
  function Map<T, U>(f: T -> U, s: seq<T>): (r: seq<U>)
    ensures |r| == |s|
    ensures forall k :: 0 <= k < |s| ==> r[k] == f(s[k])
  {
    seq(|s|, k requires 0 <= k < |s| => f(s[k]))
  }

  lemma MapCons<T, U>(f: T -> U, s: seq<T>)
    requires s != []
    ensures Map(f, s) == [f(s[0])] + Map(f, s[1..])
  {
    var r, tail := Map(f, s), Map(f, s[1..]);
    assert forall k :: 0 < k < |s| ==> r[k] == tail[k - 1];
  }
}
