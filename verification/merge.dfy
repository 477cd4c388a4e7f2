/**
 * The merge step of the handler (ip.js:53-56): the addresses of all sources
 * are deduplicated with a `Set`, sorted with the default `sort()`, and joined
 * into one line per address.
 */
module Merge {
  import opened Text

  /** No element occurs twice. */
  predicate Distinct(s: seq<string>) {
    forall i, j :: 0 <= i < j < |s| ==> s[i] != s[j]
  }

  /** Ascending in the order of the default `sort()`. */
  predicate Sorted(s: seq<string>) {
    forall i, j :: 0 <= i < j < |s| ==> LessEq(s[i], s[j])
  }

  /** Ascending without repeats. */
  predicate StrictlySorted(s: seq<string>) {
    forall i, j :: 0 <= i < j < |s| ==> Less(s[i], s[j])
  }

  /** The position of the first occurrence of `x`. */
  function IndexOf(xs: seq<string>, x: string): (k: nat)
    requires x in xs
    ensures k < |xs| && xs[k] == x && x !in xs[..k]
  {
    if xs[0] == x then 0
    else
      var k := IndexOf(xs[1..], x);
      assert xs[1..][..k] == xs[1..k + 1];
      1 + k
  }

  lemma IndexOfPrefix(xs: seq<string>, n: nat, x: string)
    requires n <= |xs| && x in xs[..n]
    ensures IndexOf(xs, x) == IndexOf(xs[..n], x)
  {
    var k := IndexOf(xs[..n], x);
    var k' := IndexOf(xs, x);
    assert xs[..n][..k] == xs[..k];
  }

  /**
   * `[...new Set(xs)]`: each value once, at the place of its first
   * occurrence, since a `Set` iterates in insertion order and ignores
   * repeated insertions.
   */
  function Dedupe(xs: seq<string>): (r: seq<string>)
    ensures Distinct(r)
    ensures forall x :: x in r <==> x in xs
    ensures forall i, j :: 0 <= i < j < |r| ==> IndexOf(xs, r[i]) < IndexOf(xs, r[j])
    decreases |xs|
  {
    if |xs| == 0 then []
    else
      var n := |xs| - 1;
      var init, last := xs[..n], xs[n];
      assert xs == init + [last];
      var r := Dedupe(init);
      forall x | x in r ensures IndexOf(xs, x) == IndexOf(init, x) {
        IndexOfPrefix(xs, n, x);
      }
      if last in r then r
      else
        assert IndexOf(xs, last) == n;
        r + [last]
  }

  /** `x` placed before the first element it does not exceed. */
  function Insert(x: string, s: seq<string>): (r: seq<string>)
    requires Sorted(s)
    ensures Sorted(r)
    ensures multiset(r) == multiset(s) + multiset{x}
    ensures forall i :: 0 <= i < |r| ==> r[i] == x || r[i] in s
    decreases |s|
  {
    if |s| == 0 then [x]
    else if LessEq(x, s[0]) then
      forall j | 0 < j < |s| ensures LessEq(x, s[j]) {
        LessEqTransitive(x, s[0], s[j]);
      }
      assert s == [s[0]] + s[1..];
      [x] + s
    else
      LessEqTotal(x, s[0]);
      var t := Insert(x, s[1..]);
      LowerBound(s[0], x, s[1..], t);
      assert s == [s[0]] + s[1..];
      SortedCons(s[0], t);
      [s[0]] + t
  }

  /** A lower bound of `x` and of every element of `s` bounds whatever is made of them. */
  lemma LowerBound(a: string, x: string, s: seq<string>, t: seq<string>)
    requires LessEq(a, x) && forall j :: 0 <= j < |s| ==> LessEq(a, s[j])
    requires forall i :: 0 <= i < |t| ==> t[i] == x || t[i] in s
    ensures forall i :: 0 <= i < |t| ==> LessEq(a, t[i])
  {
  }

  lemma SortedCons(a: string, t: seq<string>)
    requires Sorted(t) && forall i :: 0 <= i < |t| ==> LessEq(a, t[i])
    ensures Sorted([a] + t)
  {
    var s := [a] + t;
    forall i, j | 0 <= i < j < |s| ensures LessEq(s[i], s[j]) {
      assert s[j] == t[j - 1];
      if i > 0 {
        assert s[i] == t[i - 1];
      }
    }
  }

  /**
   * The default `sort()` on a list of strings: a permutation of the input,
   * ascending by character, which agrees with UTF-16 order on the ASCII
   * addresses. The order is total, so which algorithm
   * produces it does not matter (`SortedUnique`).
   */
  function Sort(xs: seq<string>): (r: seq<string>)
    ensures Sorted(r)
    ensures multiset(r) == multiset(xs)
    decreases |xs|
  {
    if |xs| == 0 then []
    else
      assert xs == [xs[0]] + xs[1..];
      Insert(xs[0], Sort(xs[1..]))
  }

  /** A multiset of a list tells how often each element occurs; in a distinct list, at most once. */
  lemma {:induction false} DistinctCounts(s: seq<string>)
    ensures Distinct(s) <==> forall x :: multiset(s)[x] <= 1
    decreases |s|
  {
    if |s| > 0 {
      var t := s[1..];
      assert s == [s[0]] + t;
      DistinctCounts(t);
      if Distinct(s) {
        assert Distinct(t) by {
          forall i, j | 0 <= i < j < |t| ensures t[i] != t[j] {
            assert t[i] == s[i + 1] && t[j] == s[j + 1];
          }
        }
      }
      if forall x :: multiset(s)[x] <= 1 {
        assert multiset(s)[s[0]] <= 1;
        assert forall x :: multiset(t)[x] <= multiset(s)[x];
        forall i, j | 0 <= i < j < |s| ensures s[i] != s[j] {
          if i == 0 {
            assert s[j] == t[j - 1];
          } else {
            assert s[i] == t[i - 1] && s[j] == t[j - 1];
          }
        }
      }
    }
  }

  /** A sorted list without repeats is strictly ascending. */
  lemma SortedDistinctStrict(s: seq<string>)
    requires Sorted(s) && Distinct(s)
    ensures StrictlySorted(s)
  {
  }

  /** A strictly ascending list is determined by its elements. */
  lemma {:induction false} StrictUnique(a: seq<string>, b: seq<string>)
    requires StrictlySorted(a) && StrictlySorted(b)
    requires forall x :: x in a <==> x in b
    ensures a == b
    decreases |a|
  {
    HeadIn(b);
    if |a| > 0 {
      assert a[0] in a;
      var j :| 0 <= j < |b| && b[j] == a[0];
      assert b[0] in b;
      var i :| 0 <= i < |a| && a[i] == b[0];
      if j > 0 {
        if i > 0 {
          LessAsymmetric(a[0], b[0]);
        } else {
          LessIrreflexive(a[0]);
        }
      }
      forall x ensures x in a[1..] <==> x in b[1..] {
        StrictTail(a, x);
        StrictTail(b, x);
      }
      StrictUnique(a[1..], b[1..]);
      assert a == [a[0]] + a[1..] && b == [b[0]] + b[1..];
    }
  }

  /** In a strictly ascending list, the tail holds every element but the first. */
  lemma StrictTail(s: seq<string>, x: string)
    requires StrictlySorted(s) && |s| > 0
    ensures x in s[1..] <==> x in s && x != s[0]
  {
    if x in s[1..] {
      var j :| 0 <= j < |s[1..]| && s[1..][j] == x;
      assert Less(s[0], s[j + 1]);
      LessIrreflexive(x);
    }
    if x in s && x != s[0] {
      var j :| 0 <= j < |s| && s[j] == x;
      assert s[1..][j - 1] == x;
    }
  }

  /** A sorted permutation is unique: every correct sort gives the same list. */
  lemma SortedUnique(a: seq<string>, b: seq<string>)
    requires Sorted(a) && Sorted(b) && multiset(a) == multiset(b)
    ensures a == b
  {
    SortedUniqueFrom(a, b);
  }

  lemma {:induction false} SortedUniqueFrom(a: seq<string>, b: seq<string>)
    requires Sorted(a) && Sorted(b) && multiset(a) == multiset(b)
    ensures a == b
    decreases |a|
  {
    if |a| > 0 {
      MultisetHead(a);
      MultisetHead(b);
      SortedHeadLeast(a, b[0]);
      SortedHeadLeast(b, a[0]);
      LessAsymmetric(a[0], b[0]);
      SortedUniqueFrom(a[1..], b[1..]);
    } else {
      assert |multiset(b)| == 0;
    }
  }

  /** A non-empty list's multiset is its head plus its tail's. */
  lemma MultisetHead(s: seq<string>)
    ensures |s| > 0 ==> s[0] in multiset(s) && multiset(s[1..]) == multiset(s) - multiset{s[0]}
  {
    if |s| > 0 {
      assert s == [s[0]] + s[1..];
    }
  }

  /** The head of a sorted list is at most each of its elements. */
  lemma SortedHeadLeast(s: seq<string>, x: string)
    requires Sorted(s) && x in multiset(s)
    ensures LessEq(s[0], x)
  {
    var j :| 0 <= j < |s| && s[j] == x;
    if j > 0 {
      assert LessEq(s[0], s[j]);
    }
  }

  /** Every non-empty list holds its head. */
  lemma HeadIn(s: seq<string>)
    ensures |s| > 0 ==> s[0] in s
  {
  }

  /** `[...new Set(xs)].sort()`: each address once, in ascending order. */
  function MergeList(xs: seq<string>): (r: seq<string>)
    ensures StrictlySorted(r)
    ensures forall x :: x in r <==> x in xs
  {
    var d := Dedupe(xs);
    var r := Sort(d);
    DistinctCounts(d);
    DistinctCounts(r);
    assert forall x :: x in r <==> x in multiset(d);
    SortedDistinctStrict(r);
    r
  }

  /**
   * The merged list is the only strictly ascending list with the same
   * addresses as the input.
   */
  lemma MergeListUnique(xs: seq<string>, ys: seq<string>)
    requires StrictlySorted(ys) && forall x :: x in ys <==> x in xs
    ensures MergeList(xs) == ys
  {
    StrictUnique(MergeList(xs), ys);
  }

  /** The merge sees only which addresses occur: not their order, nor how often. */
  lemma MergeListSetOnly(xs: seq<string>, ys: seq<string>)
    requires forall x :: x in xs <==> x in ys
    ensures MergeList(xs) == MergeList(ys)
  {
    MergeListUnique(xs, MergeList(ys));
  }

  /** Merging a merged list changes nothing. */
  lemma MergeListIdempotent(xs: seq<string>)
    ensures MergeList(MergeList(xs)) == MergeList(xs)
  {
    MergeListUnique(MergeList(xs), MergeList(xs));
  }

  /**
   * The response text, `uniqueIPs.join('\n')`. When no address is empty or
   * contains a line break, reading it back line by line gives the merged
   * list, and it is empty exactly when there are no addresses.
   */
  function MergeText(xs: seq<string>): (text: string)
    ensures (forall i :: 0 <= i < |xs| ==> |xs[i]| > 0 && Free(xs[i], '\n')) ==>
              && (|xs| == 0 <==> text == "")
              && (|xs| > 0 ==> Split(text, '\n') == MergeList(xs))
  {
    JoinedLines(MergeList(xs), xs);
    Join(MergeList(xs), '\n')
  }

  /** Joined lines read back, for a list with the same elements as `xs`. */
  lemma JoinedLines(r: seq<string>, xs: seq<string>)
    requires forall x :: x in r <==> x in xs
    ensures (forall i :: 0 <= i < |xs| ==> |xs[i]| > 0 && Free(xs[i], '\n')) ==>
              && (|xs| == 0 <==> Join(r, '\n') == "")
              && (|xs| > 0 ==> Split(Join(r, '\n'), '\n') == r)
  {
    HeadIn(r);
    if forall i :: 0 <= i < |xs| ==> |xs[i]| > 0 && Free(xs[i], '\n') {
      forall k | 0 <= k < |r| ensures |r[k]| > 0 && Free(r[k], '\n') {
        assert r[k] in xs;
      }
      if |xs| > 0 {
        assert xs[0] in r;
        SplitJoin(r, '\n');
      }
    }
  }
}
