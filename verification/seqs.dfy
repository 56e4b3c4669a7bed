/** Sequence helpers: duplicate-freedom, first occurrence, and insertion-ordered sets. */
module Seqs {
  import opened Wrappers

  /** No element occurs twice. */
  ghost predicate NoDups<T>(s: seq<T>) {
    forall i, j :: 0 <= i < j < |s| ==> s[i] != s[j]
  }

  /** The tail's elements are the sequence's, one place earlier. */
  lemma TailAt<T>(s: seq<T>, k: nat)
    requires 0 < k < |s|
    ensures s[1..][k - 1] == s[k]
  {
  }

  /** A sequence that starts with `out + [x]` starts with `out`. */
  lemma PrefixOfLonger<T>(r: seq<T>, out: seq<T>, x: T)
    requires |r| >= |out| + 1 && r[..|out| + 1] == out + [x]
    ensures r[..|out|] == out
  {
    assert r[..|out|] == r[..|out| + 1][..|out|];
  }

  /** Concatenation regroups freely. */
  lemma ConcatAssoc<T>(a: seq<T>, b: seq<T>, c: seq<T>)
    ensures (a + b) + c == a + (b + c)
  {
  }

  /** Concatenating two duplicate-free sequences with no common element. */
  lemma NoDupsConcat<T>(a: seq<T>, b: seq<T>)
    requires NoDups(a) && NoDups(b)
    requires forall i, j :: 0 <= i < |a| && 0 <= j < |b| ==> a[i] != b[j]
    ensures NoDups(a + b)
  {
    var c := a + b;
    forall i, j | 0 <= i < j < |c| ensures c[i] != c[j] {
      if j >= |a| && i < |a| {
        assert c[i] == a[i] && c[j] == b[j - |a|];
      } else if i >= |a| {
        assert c[i] == b[i - |a|] && c[j] == b[j - |a|];
      }
    }
  }

  /** Index of the first occurrence of `x` in `s`. */
  function IndexOf<T(==)>(s: seq<T>, x: T): (i: nat)
    requires x in s
    ensures i < |s| && s[i] == x && x !in s[..i]
  {
    if s[0] == x then 0 else 1 + IndexOf(s[1..], x)
  }

  /**
   * The elements of `s` in first-mention order, each once: the iteration
   * order of a JavaScript `Set` filled from `s` left to right.
   */
  function Dedup<T(==)>(s: seq<T>): (r: seq<T>)
    ensures NoDups(r)
    ensures forall i :: 0 <= i < |r| ==> r[i] in s
    ensures forall i :: 0 <= i < |s| ==> s[i] in r
  {
    if |s| == 0 then []
    else
      var r0 := Dedup(s[..|s| - 1]);
      var last := s[|s| - 1];
      assert forall i :: 0 <= i < |s| - 1 ==> s[i] == s[..|s| - 1][i];
      if last in r0 then r0 else r0 + [last]
  }

  /** Dedup keeps first-mention order: earlier in the result means mentioned earlier. */
  lemma {:induction false} DedupFirstMentionOrder<T>(s: seq<T>)
    ensures forall i, j :: 0 <= i < j < |Dedup(s)| ==> IndexOf(s, Dedup(s)[i]) < IndexOf(s, Dedup(s)[j])
  {
    if |s| > 0 {
      var init := s[..|s| - 1];
      var last := s[|s| - 1];
      var r0 := Dedup(init);
      DedupFirstMentionOrder(init);
      forall i | 0 <= i < |r0| ensures IndexOf(s, r0[i]) == IndexOf(init, r0[i]) {
        IndexOfPrefix(init, s, r0[i]);
      }
      if last !in r0 {
        assert last !in init;
        assert IndexOf(s, last) == |s| - 1;
        assert Dedup(s) == r0 + [last];
      }
    }
  }

  /** The first occurrence in a prefix is the first occurrence in the whole sequence. */
  lemma {:induction false} IndexOfPrefix<T>(p: seq<T>, s: seq<T>, x: T)
    requires x in p && p <= s
    ensures IndexOf(s, x) == IndexOf(p, x)
  {
    if p[0] != x {
      assert p[1..] <= s[1..];
      IndexOfPrefix(p[1..], s[1..], x);
    }
  }

  /** The elements of `s` that satisfy `keep`, in order (`Array.prototype.filter`). */
  function Filter<T>(s: seq<T>, keep: T -> bool): (r: seq<T>)
    ensures |r| <= |s|
  {
    if |s| == 0 then []
    else (if keep(s[0]) then [s[0]] else []) + Filter(s[1..], keep)
  }

  /** An element is kept exactly when it occurs in `s` and satisfies `keep`. */
  lemma {:induction false} FilterIn<T>(s: seq<T>, keep: T -> bool, x: T)
    ensures x in Filter(s, keep) <==> x in s && keep(x)
  {
    if |s| > 0 {
      FilterIn(s[1..], keep, x);
      assert s == [s[0]] + s[1..];
    }
  }

  /** Every kept element occurs in `s` and satisfies `keep`. */
  lemma FilterAt<T>(s: seq<T>, keep: T -> bool, k: nat)
    requires k < |Filter(s, keep)|
    ensures Filter(s, keep)[k] in s && keep(Filter(s, keep)[k])
  {
    FilterIn(s, keep, Filter(s, keep)[k]);
  }

  /** Index of the first element satisfying `p`, if any (`Array.prototype.findIndex`). */
  function FindIndex<T>(s: seq<T>, p: T -> bool): (r: Option<nat>)
    ensures r.Some? ==> r.value < |s| && p(s[r.value])
    ensures r.Some? ==> forall k :: 0 <= k < r.value ==> !p(s[k])
    ensures r.None? ==> forall k :: 0 <= k < |s| ==> !p(s[k])
  {
    if |s| == 0 then None
    else if p(s[0]) then Some(0)
    else match FindIndex(s[1..], p)
      case None => None
      case Some(i) => Some(i + 1)
  }

  /** `filter(p)[0]`: the first element satisfying `p` is the one at FindIndex. */
  lemma {:induction false} FilterFirst<T>(s: seq<T>, p: T -> bool)
    ensures |Filter(s, p)| > 0 <==> FindIndex(s, p).Some?
    ensures |Filter(s, p)| > 0 ==> Filter(s, p)[0] == s[FindIndex(s, p).value]
  {
    if |s| > 0 {
      FilterFirst(s[1..], p);
    }
  }

  /** Applies `f` to every element, in order (`Array.prototype.map`). */
  function Map<T, U>(s: seq<T>, f: T -> U): (r: seq<U>)
    ensures |r| == |s|
    ensures forall i :: 0 <= i < |s| ==> r[i] == f(s[i])
  {
    if |s| == 0 then [] else [f(s[0])] + Map(s[1..], f)
  }

  /** Filtering distributes over concatenation. */
  lemma {:induction false} FilterConcat<T>(a: seq<T>, b: seq<T>, keep: T -> bool)
    ensures Filter(a + b, keep) == Filter(a, keep) + Filter(b, keep)
  {
    if |a| > 0 {
      FilterConcat(a[1..], b, keep);
      assert (a + b)[1..] == a[1..] + b;
    } else {
      assert a + b == b;
    }
  }

  /** Mapping distributes over concatenation. */
  lemma MapConcat<T, U>(a: seq<T>, b: seq<T>, f: T -> U)
    ensures Map(a + b, f) == Map(a, f) + Map(b, f)
  {
  }
}
