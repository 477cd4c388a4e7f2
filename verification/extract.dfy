/**
 * `extractIPs(data, source)` (ip.js:119-193): the candidate addresses of one
 * source's body, read according to the source's format, then filtered.
 */
module Extract {
  import opened Wrappers
  import opened Text
  import opened Scan
  import opened Patterns
  import opened Json
  import opened Routable

  /** How a source's body is read, chosen from its URL. */
  datatype Format = IpdbJson | HostmonitJson | WetestTable | Generic

  /** The `includes` tests of ip.js:126, 144 and 161, in that order; anything else is read as text (ip.js:175). */
  function FormatOf(url: string): (f: Format)
    ensures f == FirstRule(url, Rules)
  {
    assert Rules[1..] == [Rules[1], Rules[2]] && Rules[1..][1..] == [Rules[2]] && Rules[1..][1..][1..] == [];
    if Includes(url, "ipdb.api.030101.xyz") then IpdbJson
    else if Includes(url, "stock.hostmonit.com") then HostmonitJson
    else if Includes(url, "wetest.vip") then WetestTable
    else Generic
  }

  /** The dispatch as a table of host markers, tried in order. */
  const Rules: seq<(string, Format)> := [
    ("ipdb.api.030101.xyz", IpdbJson),
    ("stock.hostmonit.com", HostmonitJson),
    ("wetest.vip", WetestTable)
  ]

  /** No rule of `rules` has its marker in `url`. */
  predicate NoMarker(url: string, rules: seq<(string, Format)>) {
    forall j :: 0 <= j < |rules| ==> !Includes(url, rules[j].0)
  }

  /**
   * The format of the first rule whose marker occurs in `url`, or `Generic`
   * when none does: a rule whose marker occurs and which no earlier rule's
   * marker pre-empts decides.
   */
  function FirstRule(url: string, rules: seq<(string, Format)>): (f: Format)
    ensures forall i :: 0 <= i < |rules| && Includes(url, rules[i].0) && NoMarker(url, rules[..i]) ==> f == rules[i].1
    ensures NoMarker(url, rules) ==> f == Generic
    ensures f == Generic || exists i :: 0 <= i < |rules| && rules[i].1 == f && Includes(url, rules[i].0)
    decreases |rules|
  {
    if |rules| == 0 then Generic
    else if Includes(url, rules[0].0) then
      assert forall i :: 0 < i < |rules| ==> !NoMarker(url, rules[..i]) by {
        forall i | 0 < i < |rules| ensures !NoMarker(url, rules[..i]) {
          assert rules[..i][0] == rules[0];
        }
      }
      rules[0].1
    else
      var tail := rules[1..];
      var f := FirstRule(url, tail);
      assert forall i :: 0 < i < |rules| && NoMarker(url, rules[..i]) ==> NoMarker(url, tail[..i - 1]) by {
        forall i | 0 < i < |rules| && NoMarker(url, rules[..i]) ensures NoMarker(url, tail[..i - 1]) {
          var pre := tail[..i - 1];
          forall j | 0 <= j < |pre| ensures !Includes(url, pre[j].0) {
            assert pre[j] == rules[..i][j + 1];
          }
        }
      }
      assert forall i :: 0 < i < |rules| ==> rules[i] == tail[i - 1];
      assert NoMarker(url, rules) ==> NoMarker(url, tail) by {
        if NoMarker(url, rules) {
          forall j | 0 <= j < |tail| ensures !Includes(url, tail[j].0) {
            assert tail[j] == rules[j + 1];
          }
        }
      }
      assert f != Generic ==> exists i :: 1 <= i < |rules| && rules[i].1 == f && Includes(url, rules[i].0) by {
        if f != Generic {
          var i :| 0 <= i < |tail| && tail[i].1 == f && Includes(url, tail[i].0);
          assert rules[i + 1] == tail[i];
        }
      }
      f
  }

  /** The first marker found decides: dispatch is a first-match lookup in `Rules`. */
  lemma FormatIsFirstRule(url: string)
    ensures FormatOf(url) != Generic <==> exists i :: 0 <= i < |Rules| && Includes(url, Rules[i].0)
  {
    assert Rules[1..] == [Rules[1], Rules[2]] && Rules[1..][1..] == [Rules[2]] && Rules[1..][1..][1..] == [];
  }

  /** Every string in the list is a dotted quad. */
  ghost predicate AllQuads(xs: seq<string>) {
    forall i :: 0 <= i < |xs| ==> IsDottedQuad(xs[i])
  }

  /** The lists one after the other: `ips.push(...m)` for each `m` in turn. */
  function Flatten(xss: seq<seq<string>>): (r: seq<string>)
    decreases |xss|
  {
    if |xss| == 0 then [] else xss[0] + Flatten(xss[1..])
  }

  lemma {:induction false} FlattenQuads(xss: seq<seq<string>>)
    requires forall i :: 0 <= i < |xss| ==> AllQuads(xss[i])
    ensures AllQuads(Flatten(xss))
    decreases |xss|
  {
    if |xss| > 0 {
      FlattenQuads(xss[1..]);
      var head, rest := xss[0], Flatten(xss[1..]);
      assert AllQuads(head);
      forall i | 0 <= i < |head + rest| ensures IsDottedQuad((head + rest)[i]) {
        if i >= |head| {
          assert (head + rest)[i] == rest[i - |head|];
        }
      }
    }
  }

  /** An element of a flattened list is exactly an element of one of the lists. */
  lemma {:induction false} FlattenMember(xss: seq<seq<string>>, x: string)
    ensures x in Flatten(xss) <==> exists i :: 0 <= i < |xss| && x in xss[i]
    decreases |xss|
  {
    if |xss| > 0 {
      FlattenMember(xss[1..], x);
      assert forall i :: 1 <= i < |xss| ==> xss[i] == xss[1..][i - 1];
    }
  }

  /**
   * What one array element contributes (ip.js:132-135): the matches in its
   * `ip` member, when that is a non-empty string. An empty string is falsy
   * and skipped, but it has no matches anyway, so every string `ip` member
   * contributes exactly its matches.
   */
  function ItemMatches(item: Json): (r: seq<string>)
    ensures AllQuads(r)
    ensures |r| > 0 ==> item.JObject? && Get(item.fields, "ip").Some? && Get(item.fields, "ip").value.JString?
    ensures item.JObject? && Get(item.fields, "ip").Some? && Get(item.fields, "ip").value.JString? ==>
              r == Matches(DottedQuad, Get(item.fields, "ip").value.s)
  {
    match item
    case JObject(fields) =>
      (match Get(fields, "ip")
       case Some(JString(v)) =>
         if |v| > 0 then Matches(DottedQuad, v)
         else
           NoMatchesInEmpty(DottedQuad);
           []
       case _ => [])
    case _ => []
  }

  /** The empty text has no matches. */
  lemma NoMatchesInEmpty(pat: Pattern)
    ensures Matches(pat, "") == []
  {
    MatchTextsOfSpans(MatcherOf(pat), "");
  }

  function ItemsMatches(items: seq<Json>): (r: seq<seq<string>>)
    ensures |r| == |items| && forall i :: 0 <= i < |items| ==> r[i] == ItemMatches(items[i])
  {
    seq(|items|, i requires 0 <= i < |items| => ItemMatches(items[i]))
  }

  /** Position of the first `null` element, or |items| when there is none. */
  function FirstNull(items: seq<Json>): (k: nat)
    ensures k <= |items|
    ensures forall i :: 0 <= i < k ==> !items[i].JNull?
    ensures k < |items| ==> items[k].JNull?
    decreases |items|
  {
    if |items| == 0 || items[0].JNull? then 0 else 1 + FirstNull(items[1..])
  }

  /** The outcome of the `forEach` over the array: what was pushed, and whether `item.ip` threw on a `null` element. */
  datatype Pushed = Pushed(ips: seq<string>, threw: bool)

  /**
   * The `forEach` of ip.js:131-136 (and 149-154). Reading `.ip` of a `null`
   * element throws a TypeError, which ends the loop; what was pushed before
   * stays pushed.
   */
  function CollectItems(items: seq<Json>): (r: Pushed)
    ensures var k := FirstNull(items);
            && (r.threw <==> k < |items|)
            && r.ips == Flatten(ItemsMatches(items[..k]))
    decreases |items|
  {
    if |items| == 0 then Pushed([], false)
    else if items[0].JNull? then Pushed([], true)
    else
      var rest := CollectItems(items[1..]);
      PushedStep(items);
      Pushed(ItemMatches(items[0]) + rest.ips, rest.threw)
  }

  /** Past a non-null first element, the pushes are its matches followed by those of the rest. */
  lemma PushedStep(items: seq<Json>)
    requires |items| > 0 && !items[0].JNull?
    ensures var k := FirstNull(items);
            && k == FirstNull(items[1..]) + 1
            && Flatten(ItemsMatches(items[..k])) == ItemMatches(items[0]) + Flatten(ItemsMatches(items[1..][..k - 1]))
  {
    var k := FirstNull(items);
    assert k == FirstNull(items[1..]) + 1;
    ItemsMatchesTail(items, k);
    FlattenCons(ItemMatches(items[0]), ItemsMatches(items[1..][..k - 1]));
  }

  lemma FlattenCons(xs: seq<string>, yss: seq<seq<string>>)
    ensures Flatten([xs] + yss) == xs + Flatten(yss)
  {
    assert ([xs] + yss)[1..] == yss;
  }

  lemma ItemsMatchesTail(items: seq<Json>, k: nat)
    requires 0 < k <= |items|
    ensures ItemsMatches(items[..k]) == [ItemMatches(items[0])] + ItemsMatches(items[1..][..k - 1])
  {
    var xss, yss := ItemsMatches(items[..k]), ItemsMatches(items[1..][..k - 1]);
    MapTail(items, k, ItemMatches, xss, yss);
  }

  /** A list made element by element from `items[..k]` is its head's image before the list made from the rest. */
  lemma MapTail(items: seq<Json>, k: nat, g: Json -> seq<string>, xss: seq<seq<string>>, yss: seq<seq<string>>)
    requires 0 < k <= |items|
    requires |xss| == k && forall i :: 0 <= i < k ==> xss[i] == g(items[..k][i])
    requires |yss| == k - 1 && forall i :: 0 <= i < k - 1 ==> yss[i] == g(items[1..][..k - 1][i])
    ensures xss == [g(items[0])] + yss
  {
    forall i | 0 <= i < k ensures xss[i] == ([g(items[0])] + yss)[i] {
      if i > 0 {
        assert items[..k][i] == items[1..][..k - 1][i - 1];
      }
    }
  }

  lemma CollectedQuads(items: seq<Json>)
    ensures AllQuads(CollectItems(items).ips)
  {
    var k := FirstNull(items);
    var xss := ItemsMatches(items[..k]);
    FlattenQuads(xss);
  }

  /**
   * The JSON branches (ip.js:128-142 and 146-159) with the array under `key`:
   * a body that does not parse is read as text; a parsed value without an
   * array under `key` gives nothing; otherwise the elements' matches in
   * order, followed by the whole body's matches if a `null` element threw.
   */
  function JsonCandidates(body: string, parse: Parser, key: string): (r: seq<string>)
    ensures parse(body).None? ==> r == Matches(DottedQuad, body)
    ensures parse(body).Some? && ArrayField(parse(body).value, key).None? ==> r == []
    ensures parse(body).Some? && ArrayField(parse(body).value, key).Some? ==>
              var items := ArrayField(parse(body).value, key).value;
              var k := FirstNull(items);
              r == Flatten(ItemsMatches(items[..k])) + (if k < |items| then Matches(DottedQuad, body) else [])
  {
    match parse(body)
    case None => Matches(DottedQuad, body)
    case Some(v) =>
      match ArrayField(v, key)
      case None => []
      case Some(items) =>
        var pushed := CollectItems(items);
        if pushed.threw then pushed.ips + Matches(DottedQuad, body) else pushed.ips
  }

  /**
   * The table branch (ip.js:161-174): when the body has table cells holding
   * an address, the generic matches inside each cell in turn; otherwise the
   * generic matches of the whole body.
   */
  function TableCandidates(body: string): (r: seq<string>)
    ensures AllQuads(r)
  {
    var cells := Matches(TableCell, body);
    FlattenQuads(CellsMatches(cells));
    if |cells| > 0 then Flatten(CellsMatches(cells)) else Matches(DottedQuad, body)
  }

  function CellsMatches(cells: seq<string>): (r: seq<seq<string>>)
    ensures |r| == |cells| && forall i :: 0 <= i < |cells| ==> r[i] == Matches(DottedQuad, cells[i])
  {
    seq(|cells|, i requires 0 <= i < |cells| => Matches(DottedQuad, cells[i]))
  }

  /**
   * The candidates `extractIPs` collects before filtering: the first host
   * marker found in the URL selects how the body is read, and whatever the
   * branch, each candidate is a dotted quad.
   */
  function Candidates(body: string, url: string, parse: Parser): (r: seq<string>)
    ensures AllQuads(r)
    ensures Includes(url, "ipdb.api.030101.xyz") ==> r == JsonCandidates(body, parse, "data")
    ensures !Includes(url, "ipdb.api.030101.xyz") && Includes(url, "stock.hostmonit.com") ==>
              r == JsonCandidates(body, parse, "info")
    ensures !Includes(url, "ipdb.api.030101.xyz") && !Includes(url, "stock.hostmonit.com") && Includes(url, "wetest.vip") ==>
              r == TableCandidates(body)
    ensures NoMarker(url, Rules) ==> r == Matches(DottedQuad, body)
  {
    JsonQuads(body, parse, "data");
    JsonQuads(body, parse, "info");
    match FormatOf(url)
    case IpdbJson => JsonCandidates(body, parse, "data")
    case HostmonitJson => JsonCandidates(body, parse, "info")
    case WetestTable => TableCandidates(body)
    case Generic => Matches(DottedQuad, body)
  }

  lemma JsonQuads(body: string, parse: Parser, key: string)
    ensures AllQuads(JsonCandidates(body, parse, key))
  {
    if parse(body).Some? && ArrayField(parse(body).value, key).Some? {
      var items := ArrayField(parse(body).value, key).value;
      CollectedQuads(items);
      ConcatQuads(CollectItems(items).ips, Matches(DottedQuad, body));
    }
  }

  lemma ConcatQuads(a: seq<string>, b: seq<string>)
    requires AllQuads(a) && AllQuads(b)
    ensures AllQuads(a + b)
  {
    forall i | 0 <= i < |a + b| ensures IsDottedQuad((a + b)[i]) {
      if i >= |a| {
        assert (a + b)[i] == b[i - |a|];
      }
    }
  }

  /**
   * `extractIPs(data, source)`: whatever branch produced them, the addresses
   * returned are dotted quads that pass the filter, and they are exactly the
   * candidates that pass it.
   */
  function ExtractIPs(body: string, url: string, parse: Parser): (r: seq<string>)
    ensures forall x :: x in r <==> x in Candidates(body, url, parse) && Keep(x)
    ensures forall i :: 0 <= i < |r| ==> IsDottedQuad(r[i]) && Keep(r[i])
  {
    var candidates := Candidates(body, url, parse);
    var r := Filter(candidates);
    assert forall i :: 0 <= i < |r| ==> r[i] in candidates;
    r
  }

  /**
   * The table branch reads the cells and nothing else when there are any:
   * a candidate is exactly a generic match inside one of the cells, and
   * every cell is well formed. Without cells it is the generic reading of
   * the whole body.
   */
  lemma TableCandidatesCells(body: string)
    ensures var cells := Matches(TableCell, body);
            && (forall i :: 0 <= i < |cells| ==> IsTableCell(cells[i]))
            && (|cells| > 0 ==>
                  forall x :: x in TableCandidates(body) <==>
                    exists i :: 0 <= i < |cells| && x in Matches(DottedQuad, cells[i]))
            && (|cells| == 0 ==> TableCandidates(body) == Matches(DottedQuad, body))
  {
    var cells := Matches(TableCell, body);
    CellsMember(cells);
    if |cells| > 0 {
      assert TableCandidates(body) == Flatten(CellsMatches(cells));
    }
  }

  /** A generic match of some cell is exactly what the flattened cell matches hold. */
  lemma CellsMember(cells: seq<string>)
    ensures forall x :: x in Flatten(CellsMatches(cells)) <==> exists i :: 0 <= i < |cells| && x in Matches(DottedQuad, cells[i])
  {
    forall x ensures x in Flatten(CellsMatches(cells)) <==> exists i :: 0 <= i < |cells| && x in Matches(DottedQuad, cells[i]) {
      FlattenMember(CellsMatches(cells), x);
    }
  }
}
