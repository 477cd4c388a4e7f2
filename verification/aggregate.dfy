/**
 * The collection loop of the handler (ip.js:35-50) and the text it leads to
 * (ip.js:53-56): every source is fetched in turn, a source whose fetch fails
 * is skipped, and the addresses of the others are concatenated in source
 * order, then merged.
 */
module Aggregate {
  import opened Wrappers
  import opened Text
  import opened Patterns
  import opened Json
  import opened Routable
  import opened Extract
  import opened Merge

  /**
   * The outcome of `fetchData(url)`: the body of the final 200 response, or
   * `None` when the promise rejects (a status other than 200 after
   * redirects, a network error, the 10-second timeout).
   */
  datatype Fetch = Fetch(url: string, body: Option<string>)

  /**
   * What one source adds to `allIPs`: nothing when its fetch rejected, and
   * otherwise exactly the candidates of its body that pass the filter.
   */
  function Contribution(f: Fetch, parse: Parser): (r: seq<string>)
    ensures f.body.None? ==> r == []
    ensures forall x :: x in r <==> f.body.Some? && x in Candidates(f.body.value, f.url, parse) && Keep(x)
    ensures forall i :: 0 <= i < |r| ==> IsDottedQuad(r[i]) && Keep(r[i])
  {
    match f.body
    case None => []
    case Some(body) => ExtractIPs(body, f.url, parse)
  }

  /** The lists `contrib` gives for each source, one after the other. */
  function ConcatMap(fs: seq<Fetch>, contrib: Fetch -> seq<string>): seq<string>
    decreases |fs|
  {
    if |fs| == 0 then []
    else ConcatMap(fs[..|fs| - 1], contrib) + contrib(fs[|fs| - 1])
  }

  /**
   * `allIPs` after the loop has seen `fs`, source by source: an address is
   * collected exactly when some source contributes it, and every collected
   * address is a dotted quad that passes the filter.
   */
  function AllIPs(fs: seq<Fetch>, parse: Parser): (r: seq<string>)
    ensures forall x :: x in r <==> exists i :: 0 <= i < |fs| && x in Contribution(fs[i], parse)
    ensures forall i :: 0 <= i < |r| ==> IsDottedQuad(r[i]) && Keep(r[i])
  {
    var contrib := f => Contribution(f, parse);
    ContributionsMember(fs, parse, contrib);
    ContributionsValid(fs, parse, contrib);
    ConcatMap(fs, contrib)
  }

  lemma ContributionsMember(fs: seq<Fetch>, parse: Parser, contrib: Fetch -> seq<string>)
    requires forall f :: contrib(f) == Contribution(f, parse)
    ensures forall x :: x in ConcatMap(fs, contrib) <==> exists i :: 0 <= i < |fs| && x in Contribution(fs[i], parse)
  {
    forall x
      ensures x in ConcatMap(fs, contrib) <==> exists i :: 0 <= i < |fs| && x in Contribution(fs[i], parse)
    {
      ConcatMapMember(fs, contrib, x);
    }
  }

  lemma ContributionsValid(fs: seq<Fetch>, parse: Parser, contrib: Fetch -> seq<string>)
    requires forall f :: contrib(f) == Contribution(f, parse)
    ensures forall i :: 0 <= i < |ConcatMap(fs, contrib)| ==> IsDottedQuad(ConcatMap(fs, contrib)[i]) && Keep(ConcatMap(fs, contrib)[i])
  {
    ConcatMapAll(fs, contrib, x => IsDottedQuad(x) && Keep(x));
  }

  /** The `for … of` loop of ip.js:38-50, with `allIPs = allIPs.concat(ips)` on success and `continue` on failure. */
  method CollectAll(fs: seq<Fetch>, parse: Parser) returns (all: seq<string>)
    ensures all == AllIPs(fs, parse)
    ensures forall i :: 0 <= i < |all| ==> IsDottedQuad(all[i]) && Keep(all[i])
  {
    all := [];
    var i := 0;
    while i < |fs|
      invariant 0 <= i <= |fs|
      invariant all == AllIPs(fs[..i], parse)
    {
      assert fs[..i + 1][..i] == fs[..i];
      match fs[i].body {
        case None =>
        case Some(data) =>
          var ips := ExtractIPs(data, fs[i].url, parse);
          all := all + ips;
      }
      i := i + 1;
    }
    assert fs[..i] == fs;
  }

  lemma {:induction false} ConcatMapConcat(a: seq<Fetch>, b: seq<Fetch>, contrib: Fetch -> seq<string>)
    ensures ConcatMap(a + b, contrib) == ConcatMap(a, contrib) + ConcatMap(b, contrib)
    decreases |b|
  {
    if |b| > 0 {
      var n := |b| - 1;
      assert (a + b)[..|a + b| - 1] == a + b[..n];
      assert (a + b)[|a + b| - 1] == b[n];
      ConcatMapConcat(a, b[..n], contrib);
    } else {
      assert a + b == a;
    }
  }

  lemma {:induction false} ConcatMapMember(fs: seq<Fetch>, contrib: Fetch -> seq<string>, x: string)
    ensures x in ConcatMap(fs, contrib) <==> exists i :: 0 <= i < |fs| && x in contrib(fs[i])
    decreases |fs|
  {
    if |fs| > 0 {
      var n := |fs| - 1;
      var init := fs[..n];
      ConcatMapMember(init, contrib, x);
      assert forall i :: 0 <= i < n ==> init[i] == fs[i];
    }
  }

  /** Sources contribute independently: the list for `a + b` is the list for `a` followed by the list for `b`. */
  lemma AllIPsConcat(a: seq<Fetch>, b: seq<Fetch>, parse: Parser)
    ensures AllIPs(a + b, parse) == AllIPs(a, parse) + AllIPs(b, parse)
  {
    ConcatMapConcat(a, b, f => Contribution(f, parse));
  }

  /** A source that contributes nothing can be dropped. */
  lemma ConcatMapSkip(a: seq<Fetch>, g: Fetch, b: seq<Fetch>, contrib: Fetch -> seq<string>)
    requires contrib(g) == []
    ensures ConcatMap(a + [g] + b, contrib) == ConcatMap(a + b, contrib)
  {
    ConcatMapConcat(a + [g], b, contrib);
    ConcatMapConcat(a, [g], contrib);
    ConcatMapConcat(a, b, contrib);
    assert [g][..0] == [];
  }

  /** A source whose fetch fails changes nothing. */
  lemma FailedSourceIgnored(a: seq<Fetch>, url: string, b: seq<Fetch>, parse: Parser)
    ensures AllIPs(a + [Fetch(url, None)] + b, parse) == AllIPs(a + b, parse)
  {
    ConcatMapSkip(a, Fetch(url, None), b, f => Contribution(f, parse));
  }

  /** When every source's list satisfies `ok`, so does their concatenation. */
  lemma {:induction false} ConcatMapAll(fs: seq<Fetch>, contrib: Fetch -> seq<string>, ok: string -> bool)
    requires forall f, j :: 0 <= j < |contrib(f)| ==> ok(contrib(f)[j])
    ensures forall k :: 0 <= k < |ConcatMap(fs, contrib)| ==> ok(ConcatMap(fs, contrib)[k])
    decreases |fs|
  {
    if |fs| > 0 {
      var n := |fs| - 1;
      ConcatMapAll(fs[..n], contrib, ok);
      var a, c := ConcatMap(fs[..n], contrib), contrib(fs[n]);
      forall k | 0 <= k < |a + c| ensures ok((a + c)[k]) {
        if k >= |a| {
          assert (a + c)[k] == c[k - |a|];
        }
      }
    }
  }

  /**
   * What a response body of a refresh looks like: empty, or lines that are
   * dotted quads passing the filter, strictly ascending.
   */
  ghost predicate WellFormedResult(text: string) {
    text == "" ||
    var lines := Split(text, '\n');
    && StrictlySorted(lines)
    && forall i :: 0 <= i < |lines| ==> IsDottedQuad(lines[i]) && Keep(lines[i])
  }

  /**
   * The response body of a refresh: the merged addresses of all sources,
   * one per line. It is well formed; its lines are exactly the addresses
   * some fetched source yields; and it is empty exactly when no source
   * yields anything.
   */
  function ResultText(fs: seq<Fetch>, parse: Parser): (text: string)
    ensures WellFormedResult(text)
    ensures text == "" <==> |AllIPs(fs, parse)| == 0
    ensures text != "" ==>
              forall x :: x in Split(text, '\n') <==> exists i :: 0 <= i < |fs| && x in Contribution(fs[i], parse)
  {
    MergedLines(AllIPs(fs, parse));
    MergeText(AllIPs(fs, parse))
  }

  /** Dotted quads are non-empty and hold no line break. */
  lemma QuadLines(all: seq<string>)
    requires forall i :: 0 <= i < |all| ==> IsDottedQuad(all[i])
    ensures forall i :: 0 <= i < |all| ==> |all[i]| > 0 && Free(all[i], '\n')
  {
    forall i | 0 <= i < |all| ensures |all[i]| > 0 && Free(all[i], '\n') {
      DottedQuadSplit(all[i]);
    }
  }

  /** The merged text of valid addresses is well formed and reads back as the merged list. */
  lemma MergedLines(all: seq<string>)
    requires forall i :: 0 <= i < |all| ==> IsDottedQuad(all[i]) && Keep(all[i])
    ensures WellFormedResult(MergeText(all))
    ensures MergeText(all) == "" <==> |all| == 0
    ensures MergeText(all) != "" ==> Split(MergeText(all), '\n') == MergeList(all)
  {
    QuadLines(all);
    var merged := MergeList(all);
    forall i | 0 <= i < |merged| ensures IsDottedQuad(merged[i]) && Keep(merged[i]) {
      assert merged[i] in all;
    }
  }
}
