/**
 * The two regular expressions of `extractIPs` (ip.js):
 *
 *   DottedQuad  /\b(?:[0-9]{1,3}\.){3}[0-9]{1,3}\b/g   (ip.js:123)
 *   TableCell   /<td[^>]*>(\d+\.\d+\.\d+\.\d+)<\/td>/g  (ip.js:163)
 *
 * Neither ever benefits from backtracking. A digit group must be followed
 * by '.', by "</td>" or by a non-word character, none of which is a digit,
 * so a group always spans a maximal run of digits; and `[^>]*>` can only
 * stop at the first '>'. Each expression is therefore a deterministic
 * function from a start position to the end of the match there, if any.
 */
module Patterns {
  import opened Wrappers
  import opened Text
  import opened Scan

  datatype Pattern = DottedQuad | TableCell

  /** End of the maximal digit run that starts at `i`. */
  function RunEnd(s: string, i: nat): (j: nat)
    requires i <= |s|
    ensures i <= j <= |s|
    ensures forall k :: i <= k < j ==> IsDigit(s[k])
    ensures j == |s| || !IsDigit(s[j])
    decreases |s| - i
  {
    if i < |s| && IsDigit(s[i]) then RunEnd(s, i + 1) else i
  }

  lemma {:induction false} RunEndIs(s: string, i: nat, j: nat)
    requires i <= j <= |s|
    requires forall k :: i <= k < j ==> IsDigit(s[k])
    requires j == |s| || !IsDigit(s[j])
    ensures RunEnd(s, i) == j
    decreases j - i
  {
    if i < j {
      RunEndIs(s, i + 1, j);
    }
  }

  /** One digit group: 1 to 3 digits for `[0-9]{1,3}`, at least one digit for `\d+`. */
  predicate GroupOk(g: string, bounded: bool) {
    1 <= |g| && (bounded ==> |g| <= 3) && AllDigits(g)
  }

  predicate AllGroups(gs: seq<string>, bounded: bool) {
    forall k :: 0 <= k < |gs| ==> GroupOk(gs[k], bounded)
  }

  /** `t` is `n` digit groups joined by '.'. */
  ghost predicate IsGroups(t: string, n: nat, bounded: bool) {
    exists gs :: |gs| == n && AllGroups(gs, bounded) && Join(gs, '.') == t
  }

  /** The text the dotted-quad expression accepts, boundaries aside: four groups of 1 to 3 digits. */
  ghost predicate IsDottedQuad(t: string) {
    IsGroups(t, 4, true)
  }

  /** The text the table-cell expression accepts: "<td", attributes without '>', ">", four `\d+` groups, "</td>". */
  ghost predicate IsTableCell(t: string) {
    exists attrs: string, gs: seq<string> ::
      && Free(attrs, '>')
      && |gs| == 4 && AllGroups(gs, false)
      && t == CellText(attrs, Join(gs, '.'))
  }

  /** The text of a table cell with attributes `attrs` and content `body`. */
  function CellText(attrs: string, body: string): string {
    "<td" + attrs + ">" + body + "</td>"
  }

  /** Matches `n` dot-joined digit groups from `i` on; the end position, if any. */
  function Groups(s: string, i: nat, n: nat, bounded: bool): (r: Option<nat>)
    requires i <= |s| && n >= 1
    ensures r.Some? ==> i < r.value <= |s|
    decreases n
  {
    var j := RunEnd(s, i);
    if !(1 <= j - i && (bounded ==> j - i <= 3)) then None
    else if n == 1 then Some(j)
    else if j < |s| && s[j] == '.' then Groups(s, j + 1, n - 1, bounded)
    else None
  }

  lemma {:induction false} GroupsSound(s: string, i: nat, n: nat, bounded: bool, e: nat) returns (gs: seq<string>)
    requires i <= |s| && n >= 1 && Groups(s, i, n, bounded) == Some(e)
    ensures |gs| == n && AllGroups(gs, bounded) && Join(gs, '.') == s[i..e]
    ensures e == |s| || !IsDigit(s[e])
    decreases n
  {
    var j := RunEnd(s, i);
    var g := s[i..j];
    RunGroup(s, i, j, bounded);
    if n == 1 {
      gs := [g];
    } else {
      var rest := GroupsSound(s, j + 1, n - 1, bounded, e);
      gs := [g] + rest;
      JoinCons(g, rest, '.');
      AllGroupsCons(g, rest, bounded);
      assert s[i..e] == g + ['.'] + s[j + 1..e];
    }
  }

  /** The digit run at `i`, when `Groups` accepts it, is a valid group. */
  lemma RunGroup(s: string, i: nat, j: nat, bounded: bool)
    requires i <= |s| && j == RunEnd(s, i) && 1 <= j - i && (bounded ==> j - i <= 3)
    ensures GroupOk(s[i..j], bounded)
  {
    var g := s[i..j];
    forall x | 0 <= x < |g| ensures IsDigit(g[x]) {
      assert g[x] == s[i + x];
    }
  }

  /** Joining a first part onto at least one more puts one separator between them. */
  lemma JoinCons(g: string, rest: seq<string>, sep: char)
    requires |rest| >= 1
    ensures Join([g] + rest, sep) == g + [sep] + Join(rest, sep)
  {
    assert ([g] + rest)[1..] == rest;
  }

  /** Prepending a valid group keeps every group valid. */
  lemma AllGroupsCons(g: string, rest: seq<string>, bounded: bool)
    requires GroupOk(g, bounded) && AllGroups(rest, bounded)
    ensures AllGroups([g] + rest, bounded)
  {
    forall k | 0 <= k < |rest| + 1 ensures GroupOk(([g] + rest)[k], bounded) {
      if k > 0 {
        assert ([g] + rest)[k] == rest[k - 1];
      }
    }
  }

  lemma {:induction false} GroupsComplete(s: string, i: nat, n: nat, bounded: bool, e: nat, gs: seq<string>)
    requires i <= e <= |s| && n >= 1
    requires |gs| == n && AllGroups(gs, bounded) && Join(gs, '.') == s[i..e]
    requires e == |s| || !IsDigit(s[e])
    ensures Groups(s, i, n, bounded) == Some(e)
    decreases n
  {
    var j := FirstGroup(s, i, e, gs, bounded);
    if n > 1 {
      GroupsComplete(s, j + 1, n - 1, bounded, e, gs[1..]);
    }
  }

  /** The first of the groups that make up s[i..e] is the digit run at `i`. */
  lemma FirstGroup(s: string, i: nat, e: nat, gs: seq<string>, bounded: bool) returns (j: nat)
    requires i <= e <= |s| && |gs| >= 1
    requires AllGroups(gs, bounded) && Join(gs, '.') == s[i..e]
    requires e == |s| || !IsDigit(s[e])
    ensures j == i + |gs[0]| && RunEnd(s, i) == j && GroupOk(gs[0], bounded)
    ensures |gs| == 1 ==> j == e
    ensures |gs| > 1 ==> j < e && s[j] == '.' && Join(gs[1..], '.') == s[j + 1..e]
  {
    var g := gs[0];
    assert GroupOk(g, bounded);
    j := i + |g|;
    var t := s[i..e];
    if |gs| == 1 {
      assert t == g;
    } else {
      var rest := gs[1..];
      ConcatParts(t, g, '.', Join(rest, '.'));
      SliceOfSlice(s, i, e, 0, |g|);
      SliceOfSlice(s, i, e, |g| + 1, e - i);
      assert s[j] == t[|g|];
    }
    GroupDigits(s, i, j, g, bounded);
    RunEndIs(s, i, j);
  }

  lemma GroupDigits(s: string, i: nat, j: nat, g: string, bounded: bool)
    requires i <= j <= |s| && s[i..j] == g && GroupOk(g, bounded)
    ensures forall k :: i <= k < j ==> IsDigit(s[k])
  {
    forall k | i <= k < j ensures IsDigit(s[k]) {
      assert s[k] == g[k - i];
    }
  }

  /** `\b` before a digit: the start of the text, or a non-word character before it. */
  predicate LeftEdge(s: string, p: nat)
    requires p <= |s|
  {
    p == 0 || !IsWordChar(s[p - 1])
  }

  /** `\b` after a digit: the end of the text, or a non-word character after it. */
  predicate RightEdge(s: string, e: nat)
    requires e <= |s|
  {
    e == |s| || !IsWordChar(s[e])
  }

  /** The end of the dotted-quad match that starts at position `p` of `s`, if any. */
  function QuadAt(s: string, p: nat): (r: Option<nat>)
    requires p <= |s|
    ensures r.Some? ==> p < r.value <= |s|
    ensures r.Some? ==> LeftEdge(s, p) && IsDottedQuad(s[p..r.value]) && RightEdge(s, r.value)
  {
    if !LeftEdge(s, p) then None
    else
      match Groups(s, p, 4, true)
      case Some(e) =>
        GroupsQuad(s, p, e);
        if RightEdge(s, e) then Some(e) else None
      case None => None
  }

  /** What the group matcher accepts with four bounded groups is a dotted quad. */
  lemma GroupsQuad(s: string, p: nat, e: nat)
    requires p <= |s| && Groups(s, p, 4, true) == Some(e)
    ensures IsDottedQuad(s[p..e])
  {
    var gs := GroupsSound(s, p, 4, true, e);
  }

  /** "<td" starts at position `p`. */
  predicate Opens(s: string, p: nat) {
    p + 3 <= |s| && s[p] == '<' && s[p + 1] == 't' && s[p + 2] == 'd'
  }

  /** "</td>" starts at position `g`. */
  predicate Closes(s: string, g: nat) {
    g + 5 <= |s| && s[g] == '<' && s[g + 1] == '/' && s[g + 2] == 't' && s[g + 3] == 'd' && s[g + 4] == '>'
  }

  /** The end of the table-cell match that starts at position `p` of `s`, if any. */
  function CellAt(s: string, p: nat): (r: Option<nat>)
    requires p <= |s|
    ensures r.Some? ==> p < r.value <= |s|
    ensures r.Some? ==> IsTableCell(s[p..r.value])
  {
    if !Opens(s, p) then None
    else
      var k := Find(s, '>', p + 3);
      if k == |s| then None
      else
        match Groups(s, k + 1, 4, false)
        case Some(g) =>
          if Closes(s, g) then
            CellFound(s, p, k, g);
            Some(g + 5)
          else None
        case None => None
  }

  /** The end of the match of `pat` that starts at position `p` of `s`, if there is one. */
  function MatchAt(pat: Pattern, s: string, p: nat): (r: Option<nat>)
    ensures r.Some? ==> p < r.value <= |s|
  {
    if p > |s| then None
    else
      match pat
      case DottedQuad => QuadAt(s, p)
      case TableCell => CellAt(s, p)
  }

  /** The dotted-quad expression matches s[p..e] exactly when that text is a dotted quad with `\b` on both sides. */
  lemma DottedQuadMatchSpec(s: string, p: nat, e: nat)
    requires p <= e <= |s|
    ensures MatchAt(DottedQuad, s, p) == Some(e)
        <==> LeftEdge(s, p) && IsDottedQuad(s[p..e]) && RightEdge(s, e)
  {
    if MatchAt(DottedQuad, s, p) == Some(e) {
      var gs := GroupsSound(s, p, 4, true, e);
    }
    if LeftEdge(s, p) && IsDottedQuad(s[p..e]) && RightEdge(s, e) {
      var gs :| |gs| == 4 && AllGroups(gs, true) && Join(gs, '.') == s[p..e];
      GroupsComplete(s, p, 4, true, e, gs);
    }
  }

  /** A table cell laid out in `s`: "<td" at `p`, '>' at `k`, "</td>" at `g`. */
  lemma CellLayout(s: string, p: nat, k: nat, e: nat)
    requires p + 3 <= k && k + 6 <= e <= |s|
    requires Opens(s, p) && s[k] == '>' && Closes(s, e - 5)
    ensures s[p..e] == CellText(s[p + 3..k], s[k + 1..e - 5])
  {
    assert s[p..p + 3] == "<td";
    assert s[e - 5..e] == "</td>";
    assert s[p..e] == s[p..p + 3] + s[p + 3..k] + [s[k]] + s[k + 1..e - 5] + s[e - 5..e];
  }

  /** The pieces of a table cell's text, by position. */
  lemma CellParts(t: string, attrs: string, body: string)
    requires t == CellText(attrs, body)
    ensures |t| == |attrs| + |body| + 9
    ensures t[..3] == "<td" && t[3..3 + |attrs|] == attrs && t[3 + |attrs|] == '>'
    ensures t[4 + |attrs|..4 + |attrs| + |body|] == body && t[4 + |attrs| + |body|..] == "</td>"
  {
    var u := "<td" + attrs;
    assert t == u + ['>'] + (body + "</td>");
    ConcatParts(t, u, '>', body + "</td>");
  }

  /** The same pieces, located in the text that holds the cell at `p`. */
  lemma CellPlaced(s: string, p: nat, e: nat, attrs: string, body: string)
    requires p <= e <= |s| && s[p..e] == CellText(attrs, body)
    ensures var k := p + 3 + |attrs|; var g := k + 1 + |body|;
            && e == g + 5
            && Opens(s, p)
            && s[p + 3..k] == attrs && s[k] == '>'
            && s[k + 1..g] == body
            && Closes(s, g)
  {
    var t := s[p..e];
    CellParts(t, attrs, body);
    var a, b := |attrs|, |body|;
    SliceOfSlice(s, p, e, 0, 3);
    SliceOfSlice(s, p, e, 3, 3 + a);
    SliceOfSlice(s, p, e, 4 + a, 4 + a + b);
    SliceOfSlice(s, p, e, 4 + a + b, e - p);
    assert s[p + 3 + a] == t[3 + a];
    OpensAt(s, p);
    ClosesAt(s, p + 4 + a + b);
  }

  lemma OpensAt(s: string, p: nat)
    requires p + 3 <= |s| && s[p..p + 3] == "<td"
    ensures Opens(s, p)
  {
    assert s[p + 1] == s[p..p + 3][1] && s[p + 2] == s[p..p + 3][2];
  }

  lemma ClosesAt(s: string, g: nat)
    requires g + 5 <= |s| && s[g..g + 5] == "</td>"
    ensures Closes(s, g)
  {
    var c := s[g..g + 5];
    assert s[g] == c[0] && s[g + 1] == c[1] && s[g + 2] == c[2] && s[g + 3] == c[3] && s[g + 4] == c[4];
  }

  /** `CellAt`, unfolded once its pieces are known. */
  lemma CellAtIs(s: string, p: nat, k: nat, g: nat, e: nat)
    requires p + 3 <= k < |s| && e == g + 5
    requires Opens(s, p) && Find(s, '>', p + 3) == k
    requires Groups(s, k + 1, 4, false) == Some(g) && Closes(s, g)
    ensures CellAt(s, p) == Some(e)
  {
  }

  /** The attributes of a match hold no '>', and its content is four `\d+` groups. */
  lemma CellMatchPieces(s: string, p: nat, k: nat, g: nat) returns (gs: seq<string>)
    requires p + 3 <= k < |s| && Find(s, '>', p + 3) == k
    requires Groups(s, k + 1, 4, false) == Some(g)
    ensures Free(s[p + 3..k], '>') && s[k] == '>'
    ensures |gs| == 4 && AllGroups(gs, false) && Join(gs, '.') == s[k + 1..g]
  {
    gs := GroupsSound(s, k + 1, 4, false, g);
    var attrs := s[p + 3..k];
    forall x | 0 <= x < |attrs| ensures attrs[x] != '>' {
      assert attrs[x] == s[p + 3 + x];
    }
  }

  /** A match found piece by piece is a table cell. */
  lemma CellFound(s: string, p: nat, k: nat, g: nat)
    requires p + 3 <= k < |s| && Opens(s, p) && Find(s, '>', p + 3) == k
    requires Groups(s, k + 1, 4, false) == Some(g) && Closes(s, g)
    ensures IsTableCell(s[p..g + 5])
  {
    var gs := CellMatchPieces(s, p, k, g);
    CellLayout(s, p, k, g + 5);
  }
  /** The first '>' after "<td" ends the attributes, since they hold none. */
  lemma AttrsEnd(s: string, p: nat, k: nat)
    requires p + 3 <= k < |s| && Free(s[p + 3..k], '>') && s[k] == '>'
    ensures Find(s, '>', p + 3) == k
  {
    forall x | p + 3 <= x < k ensures s[x] != '>' {
      assert s[x] == s[p + 3..k][x - p - 3];
    }
    FindIs(s, '>', p + 3, k);
  }

  /** A table cell at s[p..e], located piece by piece. */
  lemma CellPieces(s: string, p: nat, e: nat) returns (k: nat, g: nat, gs: seq<string>)
    requires p <= e <= |s| && IsTableCell(s[p..e])
    ensures p + 3 <= k < g && e == g + 5
    ensures Opens(s, p) && Free(s[p + 3..k], '>') && s[k] == '>'
    ensures |gs| == 4 && AllGroups(gs, false) && Join(gs, '.') == s[k + 1..g]
    ensures Closes(s, g)
  {
    var attrs: string;
    attrs, gs :|
      && Free(attrs, '>') && |gs| == 4 && AllGroups(gs, false)
      && s[p..e] == CellText(attrs, Join(gs, '.'));
    CellPlaced(s, p, e, attrs, Join(gs, '.'));
    k := p + 3 + |attrs|;
    g := e - 5;
  }

  lemma TableCellComplete(s: string, p: nat, e: nat)
    requires p <= e <= |s| && IsTableCell(s[p..e])
    ensures CellAt(s, p) == Some(e)
  {
    var k, g, gs := CellPieces(s, p, e);
    AttrsEnd(s, p, k);
    GroupsComplete(s, k + 1, 4, false, g, gs);
    CellAtIs(s, p, k, g, e);
  }

  /** The table-cell expression matches s[p..e] exactly when that text is a table cell. */
  lemma TableCellMatchSpec(s: string, p: nat, e: nat)
    requires p <= e <= |s|
    ensures MatchAt(TableCell, s, p) == Some(e) <==> IsTableCell(s[p..e])
  {
    if IsTableCell(s[p..e]) {
      TableCellComplete(s, p, e);
    }
  }

  /** The expression as a `Matcher` for global scanning. */
  function MatcherOf(pat: Pattern): (m: Matcher)
    ensures Advances(m)
  {
    (s: string, p: nat) => MatchAt(pat, s, p)
  }

  /** `text.match(re)` for the expression `pat` (ip.js:133, 140, 163, 166, 177), `null` read as the empty list. */
  function Matches(pat: Pattern, text: string): (r: seq<string>)
    ensures forall i :: 0 <= i < |r| ==> |r[i]| > 0
    ensures pat == DottedQuad ==> forall i :: 0 <= i < |r| ==> IsDottedQuad(r[i])
    ensures pat == TableCell ==> forall i :: 0 <= i < |r| ==> IsTableCell(r[i])
  {
    MatchShapes(pat, text);
    MatchTextsAll(MatcherOf(pat), text, t => Shaped(pat, t));
    MatchTexts(MatcherOf(pat), text)
  }

  /** The shape of a text the expression `pat` matches. */
  ghost predicate Shaped(pat: Pattern, t: string) {
    && |t| > 0
    && (pat == DottedQuad ==> IsDottedQuad(t))
    && (pat == TableCell ==> IsTableCell(t))
  }

  lemma MatchShapes(pat: Pattern, s: string)
    ensures forall p: nat, e: nat :: p < e <= |s| && MatchAt(pat, s, p) == Some(e) ==> Shaped(pat, s[p..e])
  {
  }

  /**
   * Every match of the dotted-quad expression is a piece of the text that
   * is four groups of 1 to 3 digits with `\b` on both sides, and the matches
   * come left to right without overlapping.
   */
  lemma DottedQuadMatchesSound(text: string)
    ensures var spans := Spans(MatcherOf(DottedQuad), text, 0);
            var r := Matches(DottedQuad, text);
            && |r| == |spans|
            && forall i :: 0 <= i < |r| ==>
                 && spans[i].start < spans[i].end <= |text|
                 && r[i] == text[spans[i].start..spans[i].end]
                 && LeftEdge(text, spans[i].start)
                 && IsDottedQuad(r[i])
                 && RightEdge(text, spans[i].end)
                 && (i + 1 < |r| ==> spans[i].end <= spans[i + 1].start)
  {
    var spans := Spans(MatcherOf(DottedQuad), text, 0);
    MatchTextsOfSpans(MatcherOf(DottedQuad), text);
    forall i | 0 <= i < |spans|
      ensures spans[i].start <= spans[i].end <= |text|
      ensures LeftEdge(text, spans[i].start) && IsDottedQuad(text[spans[i].start..spans[i].end])
      ensures RightEdge(text, spans[i].end)
    {
      assert IsMatch(MatcherOf(DottedQuad), text, spans[i]);
      DottedQuadMatchSpec(text, spans[i].start, spans[i].end);
    }
  }

  lemma DigitsFree(g: string, c: char)
    requires AllDigits(g) && !IsDigit(c)
    ensures Free(g, c)
  {
  }

  lemma {:induction false} JoinFree(parts: seq<string>, sep: char, c: char)
    requires sep != c
    requires forall k :: 0 <= k < |parts| ==> Free(parts[k], c)
    ensures Free(Join(parts, sep), c)
    decreases |parts|
  {
    if |parts| > 1 {
      JoinFree(parts[1..], sep, c);
    }
  }

  /**
   * A dotted quad, split at '.', gives back its four groups of 1 to 3 digits,
   * and only such texts do; none of them is empty or contains a line break.
   */
  lemma DottedQuadSplit(t: string)
    ensures IsDottedQuad(t) <==> var parts := Split(t, '.'); |parts| == 4 && AllGroups(parts, true)
    ensures IsDottedQuad(t) ==> |t| > 0 && Free(t, '\n')
  {
    if IsDottedQuad(t) {
      var gs :| |gs| == 4 && AllGroups(gs, true) && Join(gs, '.') == t;
      forall k | 0 <= k < |gs| ensures Free(gs[k], '.') && Free(gs[k], '\n') {
        DigitsFree(gs[k], '.');
        DigitsFree(gs[k], '\n');
      }
      SplitJoin(gs, '.');
      JoinFree(gs, '.', '\n');
    }
    var parts := Split(t, '.');
    if |parts| == 4 && AllGroups(parts, true) {
      assert Join(parts, '.') == t;
    }
  }
}
