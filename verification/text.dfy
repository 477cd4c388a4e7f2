/**
 * Strings as JavaScript sees them: character classes of regular expressions
 * without the `u` flag, `String.prototype.split` / `Array.prototype.join`
 * with a one-character separator, `String.prototype.includes`, and the
 * code-unit order used by the default `Array.prototype.sort`.
 */
module Text {

  /** `[0-9]` and `\d` */
  predicate IsDigit(c: char) {
    '0' <= c <= '9'
  }

  /** `\w`, whose complement decides where `\b` holds */
  predicate IsWordChar(c: char) {
    'a' <= c <= 'z' || 'A' <= c <= 'Z' || IsDigit(c) || c == '_'
  }

  predicate AllDigits(t: string) {
    forall k :: 0 <= k < |t| ==> IsDigit(t[k])
  }

  /** `t` does not contain `c`. */
  predicate Free(t: string, c: char) {
    forall k :: 0 <= k < |t| ==> t[k] != c
  }

  /** Position of the first `c` at or after `from`, or |t| when there is none. */
  function Find(t: string, c: char, from: nat): (i: nat)
    requires from <= |t|
    ensures from <= i <= |t|
    ensures forall k :: from <= k < i ==> t[k] != c
    ensures i < |t| ==> t[i] == c
    decreases |t| - from
  {
    if from == |t| || t[from] == c then from else Find(t, c, from + 1)
  }

  /** `Find` is determined by its contract: the first `c` from `from` on. */
  lemma {:induction false} FindIs(t: string, c: char, from: nat, i: nat)
    requires from <= i <= |t|
    requires forall k :: from <= k < i ==> t[k] != c
    requires i == |t| || t[i] == c
    ensures Find(t, c, from) == i
    decreases i - from
  {
    if from < i {
      FindIs(t, c, from + 1, i);
    }
  }

  /** A slice of a slice is a slice of the original. */
  lemma SliceOfSlice(s: string, i: nat, e: nat, lo: nat, hi: nat)
    requires i <= e <= |s| && lo <= hi <= e - i
    ensures s[i..e][lo..hi] == s[i + lo..i + hi]
  {
    var u, v := s[i..e][lo..hi], s[i + lo..i + hi];
    assert |u| == |v|;
    forall x | 0 <= x < |u| ensures u[x] == v[x] {
      assert u[x] == s[i..e][lo + x] == s[i + lo + x];
    }
  }

  /** Where `t` is `a`, then `x`, then `b`, each piece is found at its place. */
  lemma ConcatParts(t: string, a: string, x: char, b: string)
    requires t == a + [x] + b
    ensures t[..|a|] == a && t[|a|] == x && t[|a| + 1..] == b
  {
  }

  /** `parts.join(sep)`: the empty list joins to "", one part joins to itself. */
  function Join(parts: seq<string>, sep: char): string
  {
    if |parts| == 0 then ""
    else if |parts| == 1 then parts[0]
    else parts[0] + [sep] + Join(parts[1..], sep)
  }

  /**
   * `t.split(sep)`: the pieces between occurrences of `sep`, so there is
   * always at least one piece and "".split(sep) is [""].
   */
  function Split(t: string, sep: char): (parts: seq<string>)
    ensures |parts| >= 1
    ensures forall k :: 0 <= k < |parts| ==> Free(parts[k], sep)
    ensures Join(parts, sep) == t
    decreases |t|
  {
    var i := Find(t, sep, 0);
    if i == |t| then [t]
    else
      var rest := Split(t[i + 1..], sep);
      assert t == t[..i] + [sep] + t[i + 1..];
      [t[..i]] + rest
  }

  /** The first `sep` of `a + [sep] + b` is the one after `a`. */
  lemma SplitAtFirst(a: string, sep: char, b: string)
    requires Free(a, sep)
    ensures Split(a + [sep] + b, sep) == [a] + Split(b, sep)
  {
    var t := a + [sep] + b;
    FindIs(t, sep, 0, |a|);
    assert t[..|a|] == a;
    assert t[|a| + 1..] == b;
  }

  /** Splitting undoes joining when no part contains the separator. */
  lemma {:induction false} SplitJoin(parts: seq<string>, sep: char)
    requires |parts| >= 1
    requires forall k :: 0 <= k < |parts| ==> Free(parts[k], sep)
    ensures Split(Join(parts, sep), sep) == parts
    decreases |parts|
  {
    if |parts| > 1 {
      SplitJoin(parts[1..], sep);
      SplitAtFirst(parts[0], sep, Join(parts[1..], sep));
    }
  }

  /** `needle` occurs in `hay` starting at position `i`. */
  predicate OccursAt(hay: string, needle: string, i: nat) {
    i + |needle| <= |hay| && hay[i..i + |needle|] == needle
  }

  /** `hay.includes(needle)`, computed by trying every start position from `from`. */
  function IncludesFrom(hay: string, needle: string, from: nat): (r: bool)
    requires from <= |hay|
    ensures r <==> exists i: nat :: from <= i && OccursAt(hay, needle, i)
    decreases |hay| - from
  {
    if from + |needle| > |hay| then false
    else if OccursAt(hay, needle, from) then true
    else IncludesFrom(hay, needle, from + 1)
  }

  /** `hay.includes(needle)` */
  function Includes(hay: string, needle: string): (r: bool)
    ensures r <==> exists i: nat :: OccursAt(hay, needle, i)
  {
    IncludesFrom(hay, needle, 0)
  }

  /**
   * Lexicographic order on characters, as the default `sort()` compares
   * strings: at the first difference the smaller character wins, and a
   * proper prefix comes first.
   */
  predicate Less(a: string, b: string)
  {
    if |a| == 0 then |b| > 0
    else if |b| == 0 then false
    else a[0] < b[0] || (a[0] == b[0] && Less(a[1..], b[1..]))
  }

  predicate LessEq(a: string, b: string) {
    a == b || Less(a, b)
  }

  lemma {:induction false} LessIrreflexive(a: string)
    ensures !Less(a, a)
    decreases |a|
  {
    if |a| > 0 {
      LessIrreflexive(a[1..]);
    }
  }

  lemma {:induction false} LessAsymmetric(a: string, b: string)
    ensures Less(a, b) ==> !Less(b, a)
    decreases |a|
  {
    if |a| > 0 && |b| > 0 {
      LessAsymmetric(a[1..], b[1..]);
    }
  }

  lemma {:induction false} LessTransitive(a: string, b: string, c: string)
    requires Less(a, b) && Less(b, c)
    ensures Less(a, c)
    decreases |a|
  {
    if |a| > 0 && a[0] == b[0] && b[0] == c[0] {
      LessTransitive(a[1..], b[1..], c[1..]);
    }
  }

  /** Any two different strings are ordered one way or the other. */
  lemma {:induction false} LessConnected(a: string, b: string)
    requires a != b
    ensures Less(a, b) || Less(b, a)
    decreases |a|
  {
    if |a| > 0 && |b| > 0 && a[0] == b[0] {
      assert a == [a[0]] + a[1..] && b == [b[0]] + b[1..];
      LessConnected(a[1..], b[1..]);
    }
  }

  lemma LessEqTotal(a: string, b: string)
    ensures LessEq(a, b) || LessEq(b, a)
  {
    if a != b {
      LessConnected(a, b);
    }
  }

  lemma LessEqTransitive(a: string, b: string, c: string)
    requires LessEq(a, b) && LessEq(b, c)
    ensures LessEq(a, c)
  {
    if a != b && b != c {
      LessTransitive(a, b, c);
    }
  }

  /** The order is on characters, not on numeric values: "100.1.1.1" sorts before "20.1.1.1". */
  lemma TextualNotNumeric()
    ensures Less("100.1.1.1", "20.1.1.1")
    ensures Less("1.1.1.1", "1.1.1.10") && Less("1.1.1.10", "1.1.1.2")
  {
  }
}
