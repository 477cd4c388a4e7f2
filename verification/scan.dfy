/**
 * Global regular-expression scanning as `String.prototype.match` does it
 * with a `/g` expression: try each start position from the left, take the
 * match found there and resume at its end; where nothing matches, resume one
 * position further on.
 *
 * The expression itself is abstracted as a `Matcher`: for a text and a start
 * position, the end of the match that starts there, if any.
 */
module Scan {
  import opened Wrappers

  type Matcher = (string, nat) -> Option<nat>

  /** Matches are non-empty and stay inside the text. */
  ghost predicate Advances(m: Matcher) {
    forall s: string, p: nat :: m(s, p).Some? ==> p < m(s, p).value <= |s|
  }

  /** A match occupying s[start..end]. */
  datatype Span = Span(start: nat, end: nat)

  predicate IsMatch(m: Matcher, s: string, sp: Span) {
    m(s, sp.start) == Some(sp.end)
  }

  /** Some match starts at position `q`. */
  predicate StartsMatch(m: Matcher, s: string, q: nat) {
    m(s, q).Some?
  }

  /** Position `q` lies inside one of the spans. */
  ghost predicate Covered(spans: seq<Span>, q: nat) {
    exists i :: 0 <= i < |spans| && spans[i].start <= q < spans[i].end
  }

  /**
   * `spans` is what a global scan from `p` reports: matches only, starting
   * at or after `p`, left to right without overlap, and every position from
   * `p` on where a match starts is either reported or inside a reported match.
   */
  ghost predicate Leftmost(m: Matcher, s: string, p: nat, spans: seq<Span>) {
    && (forall i :: 0 <= i < |spans| ==> p <= spans[i].start && IsMatch(m, s, spans[i]))
    && (forall i, j :: 0 <= i < j < |spans| ==> spans[i].end <= spans[j].start)
    && (forall q: nat :: p <= q && StartsMatch(m, s, q) ==> Covered(spans, q))
  }

  lemma LeftmostTake(m: Matcher, s: string, p: nat, e: nat, rest: seq<Span>)
    requires Advances(m) && m(s, p) == Some(e) && Leftmost(m, s, e, rest)
    ensures Leftmost(m, s, p, [Span(p, e)] + rest)
  {
    var spans := [Span(p, e)] + rest;
    forall q: nat | p <= q && StartsMatch(m, s, q)
      ensures Covered(spans, q)
    {
      if q < e {
        assert spans[0].start <= q < spans[0].end;
      } else {
        var i :| 0 <= i < |rest| && rest[i].start <= q < rest[i].end;
        assert spans[i + 1] == rest[i];
      }
    }
    forall i, j | 0 <= i < j < |spans| ensures spans[i].end <= spans[j].start {
      if i > 0 {
        assert spans[i] == rest[i - 1] && spans[j] == rest[j - 1];
      } else {
        assert spans[j] == rest[j - 1];
      }
    }
  }

  /** The spans a global scan from `p` reports, in order. */
  function Spans(m: Matcher, s: string, p: nat): (r: seq<Span>)
    requires Advances(m) && p <= |s|
    ensures Leftmost(m, s, p, r)
    decreases |s| - p
  {
    if p == |s| then []
    else
      match m(s, p)
      case Some(e) =>
        var rest := Spans(m, s, e);
        LeftmostTake(m, s, p, e, rest);
        [Span(p, e)] + rest
      case None =>
        Spans(m, s, p + 1)
  }

  /** Every reported span lies inside the text. */
  lemma SpansInside(m: Matcher, s: string, p: nat, spans: seq<Span>)
    requires Advances(m) && Leftmost(m, s, p, spans)
    ensures forall i :: 0 <= i < |spans| ==> spans[i].start < spans[i].end <= |s|
  {
    forall i | 0 <= i < |spans| ensures spans[i].start < spans[i].end <= |s| {
      assert IsMatch(m, s, spans[i]);
    }
  }

  /** Nothing can be reported from the end of the text on. */
  lemma LeftmostNonEmpty(m: Matcher, s: string, p: nat, spans: seq<Span>)
    requires Advances(m) && Leftmost(m, s, p, spans)
    ensures |spans| > 0 ==> p < |s|
  {
    if |spans| > 0 {
      assert IsMatch(m, s, spans[0]);
    }
  }

  /** When a match starts at `p`, a leftmost enumeration from `p` begins with it. */
  lemma LeftmostHead(m: Matcher, s: string, p: nat, e: nat, spans: seq<Span>)
    requires Advances(m) && m(s, p) == Some(e) && Leftmost(m, s, p, spans)
    ensures |spans| > 0 && spans[0] == Span(p, e) && Leftmost(m, s, e, spans[1..])
  {
    assert StartsMatch(m, s, p);
    var i :| 0 <= i < |spans| && spans[i].start <= p < spans[i].end;
    assert IsMatch(m, s, spans[i]);
    var rest := spans[1..];
    forall q: nat | e <= q && StartsMatch(m, s, q)
      ensures Covered(rest, q)
    {
      var j :| 0 <= j < |spans| && spans[j].start <= q < spans[j].end;
      assert rest[j - 1] == spans[j];
    }
    forall j | 0 <= j < |rest| ensures e <= rest[j].start {
      assert spans[0].end <= spans[j + 1].start;
    }
  }

  /** A global scan has only one possible outcome: whatever satisfies `Leftmost` is `Spans`. */
  lemma {:induction false} LeftmostUnique(m: Matcher, s: string, p: nat, spans: seq<Span>)
    requires Advances(m) && p <= |s| && Leftmost(m, s, p, spans)
    ensures spans == Spans(m, s, p)
    decreases |s| - p
  {
    SpansInside(m, s, p, spans);
    LeftmostNonEmpty(m, s, p, spans);
    if p < |s| {
      match m(s, p)
      case Some(e) =>
        LeftmostHead(m, s, p, e, spans);
        LeftmostUnique(m, s, e, spans[1..]);
        assert spans == [Span(p, e)] + spans[1..];
      case None =>
        forall j | 0 <= j < |spans| ensures p + 1 <= spans[j].start {
          assert IsMatch(m, s, spans[j]);
        }
        LeftmostUnique(m, s, p + 1, spans);
    }
  }

  /** From the start of a text, `Leftmost` has exactly one solution, the scan's. */
  lemma LeftmostFromStart(m: Matcher, s: string)
    requires Advances(m)
    ensures forall spans: seq<Span> :: Leftmost(m, s, 0, spans) <==> spans == Spans(m, s, 0)
  {
    forall spans | Leftmost(m, s, 0, spans) ensures spans == Spans(m, s, 0) {
      LeftmostUnique(m, s, 0, spans);
    }
  }

  /**
   * The matched texts of a scan from the start: `s.match(re)`, with `null`
   * read as the empty list. Whatever enumeration meets the scan's
   * specification, the texts are those of its spans, in order.
   */
  function MatchTexts(m: Matcher, s: string): (r: seq<string>)
    requires Advances(m)
    ensures forall spans: seq<Span> :: Leftmost(m, s, 0, spans) ==>
              && |r| == |spans|
              && forall i :: 0 <= i < |r| ==>
                   spans[i].start < spans[i].end <= |s| && r[i] == s[spans[i].start..spans[i].end]
  {
    var spans := Spans(m, s, 0);
    SpansInside(m, s, 0, spans);
    LeftmostFromStart(m, s);
    seq(|spans|, i requires 0 <= i < |spans| => s[spans[i].start..spans[i].end])
  }

  /** The texts of the scan's own spans, in order. */
  lemma MatchTextsOfSpans(m: Matcher, s: string)
    requires Advances(m)
    ensures var spans := Spans(m, s, 0);
            var r := MatchTexts(m, s);
            && |r| == |spans|
            && forall i :: 0 <= i < |r| ==>
                 spans[i].start < spans[i].end <= |s| && r[i] == s[spans[i].start..spans[i].end]
  {
    assert Leftmost(m, s, 0, Spans(m, s, 0));
  }

  /** A property every single match has is had by every matched text. */
  lemma MatchTextsAll(m: Matcher, s: string, ok: string -> bool)
    requires Advances(m)
    requires forall p: nat, e: nat :: p < e <= |s| && m(s, p) == Some(e) ==> ok(s[p..e])
    ensures forall i :: 0 <= i < |MatchTexts(m, s)| ==> ok(MatchTexts(m, s)[i])
  {
    var spans := Spans(m, s, 0);
    MatchTextsOfSpans(m, s);
    forall i | 0 <= i < |spans| ensures ok(MatchTexts(m, s)[i]) {
      assert IsMatch(m, s, spans[i]);
    }
  }
}
