# cf-ip-fetcher in Dafny

A model of `ip.js`, a serverless handler. The handler collects Cloudflare IPv4
addresses from a fixed list of public sources and returns them as plain text,
one address per line. It keeps the last result in a module-level cache for one
minute. The model covers the whole of that file except the HTTP client and what is listed under "## Left out":

- **Text** (`text.dfy`) holds the string operations the handler relies on:
  - `split` and `join`;
  - `includes`;
  - the code-unit order of the default `sort()`.
- **Scan** (`scan.dfy`) is global regular-expression matching as `String.prototype.match` does it with a `/g` expression. The matches are leftmost and do not overlap.
- **Patterns** (`patterns.dfy`) holds the two expressions of `extractIPs`:
  - the `\b`-bounded dotted quad;
  - the `<td …>a.b.c.d</td>` table cell.

  Each is a deterministic matcher, with a lemma that says exactly which texts it accepts.
- **Json** (`json.dfy`) is the parsed JSON value, as far as `extractIPs` reads it. Member lookup follows `JSON.parse`: the last duplicate wins.
- **Routable** (`routable.dfy`) is the address filter as written: string comparisons of the dot-separated pieces, plus one `parseInt`. Beside it stands an independent reference made of the reserved CIDR blocks as numeric ranges.
- **Extract** (`extract.dfy`) is `extractIPs`:
  - the dispatch on the source URL;
  - the two JSON branches, including the `null` element that throws part-way through the `forEach`;
  - the table branch and the generic branch;
  - the filter.
- **Merge** (`merge.dfy`) is `[...new Set(allIPs)].sort()` followed by `join('\n')`.
- **Aggregate** (`aggregate.dfy`) is the loop over the sources. A failed fetch is skipped.
- **ResultCache** (`cache.dfy`) is the handler's decision between the HIT, MISS, HIT-FALLBACK and 500 replies, and its effect on the cache.

`wrappers.dfy` defines `Option` and `Result`.

## Model

| member | source | states |
|---|---|---|
| Text.Split | ip.js:183 | `split('.')` gives at least one piece. No piece contains the separator, and joining the pieces with it gives the text back. |
| Text.SplitJoin | ip.js:56 | Splitting a joined list at the separator gives the list back, when it is non-empty and no element contains the separator. |
| Text.Includes | ip.js:126 | `includes` holds exactly when the needle occurs at some position of the text. |
| Text.LessIrreflexive | ip.js:53 | No string sorts before itself. |
| Text.LessAsymmetric | ip.js:53 | Two strings never each sort before the other. |
| Text.LessTransitive | ip.js:53 | The sort order is transitive. |
| Text.LessConnected | ip.js:53 | Of two different strings, one sorts before the other, so the order is total. |
| Text.TextualNotNumeric | ip.js:53 | The sort compares text, not numbers: "100.1.1.1" comes before "20.1.1.1", and "1.1.1.10" before "1.1.1.2". |
| Scan.Spans | ip.js:177 | A global scan reports only real matches, left to right and without overlap. Every position where a match could start is reported or lies inside a reported match. |
| Scan.LeftmostUnique | ip.js:177 | Any enumeration with those properties is the scan's own result, so a global match has only one outcome. |
| Scan.MatchTexts | ip.js:177 | For any enumeration of spans that meets the global-scan specification (`Leftmost`), `match` returns exactly the texts of those spans, in order. |
| Patterns.GroupsSound | ip.js:123 | When the group matcher accepts a stretch of text, that stretch is n digit groups of the right width joined by '.', and no digit follows it. |
| Patterns.GroupsComplete | ip.js:123 | The group matcher accepts every such stretch followed by a non-digit. |
| Patterns.DottedQuadMatchSpec | ip.js:123 | The dotted-quad expression matches s[p..e] exactly when that text is four groups of 1 to 3 digits with a word boundary on each side. |
| Patterns.TableCellMatchSpec | ip.js:163 | The table-cell expression matches s[p..e] exactly when that text is "<td", attributes without '>', ">", four digit groups joined by '.', and "</td>". |
| Patterns.DottedQuadMatchesSound | ip.js:177 | Every dotted-quad match of a text is a dotted quad lying at its span between word boundaries, and the spans come in order. |
| Patterns.QuadAt | ip.js:123 | A dotted-quad match found at a position ends after it and inside the text. The matched text is four groups of 1 to 3 digits with a word boundary on each side. |
| Patterns.CellAt | ip.js:163 | A table-cell match found at a position ends after it and inside the text. The matched text is a well-formed table cell. |
| Patterns.Matches | ip.js:133-177 | `text.match(re)` gives non-empty matches only. Every match of the address expression is a dotted quad, and every match of the cell expression is a well-formed table cell. |
| Patterns.DottedQuadSplit | ip.js:183 | A text is a dotted quad exactly when `split('.')` gives four groups of 1 to 3 digits. A dotted quad is never empty and has no line break. |
| Json.Get | ip.js:130 | Property access on a parsed object: none when no member has the key. Otherwise it is the value of the last member with that key. |
| Json.GetIsLastAt | ip.js:129-130 | Whenever a member named `key` has no later member of that name, the lookup finds its value. |
| Json.ArrayField | ip.js:130 | `jsonData && Array.isArray(jsonData[key])` holds exactly when the value is an object whose last member named `key` holds an array, and the result is that array's elements. |
| Json.GetLastWins | ip.js:129 | Of two members with the same key, the later one is seen. |
| Routable.ParseInt | ip.js:189 | `parseInt` is NaN exactly when the text does not start with a digit. On an all-digit text it gives the text's decimal value. |
| Routable.Keep | ip.js:182-192 | The callback drops a candidate only when its first piece is a canonical octet of value 0, 10, 127, 169, 172 or 192. `KeepIsNotReserved` relates it to the reserved CIDR blocks. |
| Routable.FilterBy | ip.js:182-192 | `filter` keeps exactly the elements that pass the test, and never adds any. |
| Routable.FilterConcat | ip.js:182-192 | Filtering a concatenation filters each part: the decision is per candidate. |
| Routable.Filter | ip.js:182-192 | The result holds exactly the candidates the callback of ip.js keeps. |
| Routable.KeepByOctets | ip.js:185-190 | On a canonical dotted quad, the callback's string tests come down to tests on the numeric values of the first two octets. |
| Routable.ReservedByOctets | ip.js:184 | An address lies in one of the six reserved CIDR blocks exactly when its first two octets have the values listed in the comment. |
| Routable.KeepIsNotReserved | ip.js:184-190 | On canonical dotted quads, the filter keeps an address exactly when the address lies in none of the reserved CIDR blocks. |
| Routable.LeadingZeroKept | ip.js:185-190 | A first piece with a leading zero, such as "00" or "010", matches none of the compared strings, so the candidate is kept. |
| Routable.WideOctetKept | ip.js:185-190 | A first piece whose value exceeds 255 is kept. |
| Routable.SecondOctetParsed | ip.js:189 | After "172" the second piece is compared by value, so a leading zero does not save it. |
| Routable.ParseLeadingZero | ip.js:189 | `parseInt("016")` is decimal 16, not octal 14, so a second piece "016" after "172" is dropped like "16". |
| Extract.FirstRule | ip.js:126-179 | A first-match lookup in a rule table. When a rule's marker occurs in the URL and no earlier rule's marker does, the result is that rule's format. When no marker occurs, the result is the generic format. A non-generic result is always the format of a rule whose marker occurs. |
| Extract.FormatOf | ip.js:126-175 | The if-chain of `extractIPs` is the first-match lookup in the table of the three host markers, so the first marker that occurs decides the branch. |
| Extract.FormatIsFirstRule | ip.js:126-179 | The format is not the generic one exactly when some host marker occurs in the URL. |
| Extract.ItemMatches | ip.js:132-135 | An element contributes anything only when it is an object whose `ip` member is a string. Such an element contributes exactly the address matches of that string; an empty string is skipped, but it has none. Everything contributed is a dotted quad. |
| Extract.NoMatchesInEmpty | ip.js:132-133 | The empty string has no matches, so skipping a falsy `ip` loses nothing. |
| Extract.FirstNull | ip.js:131-136 | The position of the first `null` element, which is the first place where `item.ip` throws. |
| Extract.CollectItems | ip.js:131-136 | The loop throws exactly when some element is `null`. The addresses pushed are the matches of the elements before it, in order. |
| Extract.CollectedQuads | ip.js:131-136 | Everything the loop pushes is a dotted quad. |
| Extract.JsonCandidates | ip.js:128-142 | An unparsable body is read as text, and a parse without an array under the key gives nothing. Otherwise the matches are those of the elements up to the first `null`, followed by the whole body's matches when a `null` threw. |
| Extract.TableCandidates | ip.js:161-174 | Every candidate of the table branch is a dotted quad. |
| Extract.Candidates | ip.js:126-179 | The first host marker found in the URL selects the branch. An "ipdb.api.030101.xyz" URL reads the array under `data` and a "stock.hostmonit.com" URL the array under `info`. A "wetest.vip" URL reads the table cells, and a URL with no marker the whole body as text. Whatever the branch, every candidate is a dotted quad. |
| Extract.ExtractIPs | ip.js:119-193 | The result holds exactly the candidates that pass the filter, and each is a dotted quad. |
| Extract.TableCandidatesCells | ip.js:163-173 | With table cells present, the candidates are exactly the generic matches inside the cells, each cell is well formed, and the rest of the body is not read. Without cells, the candidates are the generic matches of the whole body. |
| Merge.Dedupe | ip.js:53 | `[...new Set(xs)]` has no repeats and the same elements as `xs`, ordered by first occurrence. |
| Merge.Sort | ip.js:53 | The sort gives an ascending permutation of its input. |
| Merge.SortedUnique | ip.js:53 | There is only one ascending permutation, so every correct sort algorithm gives the same list. |
| Merge.StrictUnique | ip.js:53 | A strictly ascending list is determined by its set of elements. |
| Merge.MergeList | ip.js:53 | The deduplicated, sorted list is strictly ascending and has exactly the input's elements. |
| Merge.MergeListUnique | ip.js:53 | Any strictly ascending list with the input's elements is the merged list. |
| Merge.MergeListSetOnly | ip.js:38-53 | The merge depends only on which addresses occur, not on their order or on how often they occur. |
| Merge.MergeListIdempotent | ip.js:53 | Merging an already merged list changes nothing. |
| Merge.MergeText | ip.js:56 | When no address is empty or holds a line break, the text is empty exactly when there are no addresses. Otherwise splitting it at line breaks gives the merged list back. |
| Aggregate.Contribution | ip.js:40-48 | A source whose fetch rejected adds nothing. Any other source adds exactly the candidates of its body that pass the filter, and each is a dotted quad that passes the filter. |
| Aggregate.CollectAll | ip.js:35-50 | The loop concatenates the sources' contributions in order, and every collected address is a dotted quad that passes the filter. |
| Aggregate.AllIPsConcat | ip.js:38-50 | The list for two runs of sources is the list for the first followed by the list for the second. |
| Aggregate.FailedSourceIgnored | ip.js:46-49 | Removing a source whose fetch failed changes nothing. |
| Aggregate.AllIPs | ip.js:35-50 | An address is collected exactly when some source contributes it, and every collected address is a dotted quad that passes the filter. |
| Aggregate.ResultText | ip.js:53-56 | The refreshed text is empty or strictly ascending lines of dotted quads that pass the filter. It is empty exactly when nothing was collected, and its lines are exactly the addresses some source contributed. |
| ResultCache.Handle | ip.js:10-87 | HIT happens exactly when cached data is present and younger than the TTL. HIT-FALLBACK happens exactly when a refresh fails with data present. 500 happens exactly when a refresh fails with none. Cached replies leave the cache alone. A MISS stores its body with the current time and expires one TTL from now. The TTL never changes. |
| ResultCache.ExpiresIsBoundary | ip.js:14-21 | `X-Cache-Expire` is the instant a later request stops being a HIT. |
| ResultCache.MissThenHit | ip.js:59-60 | After a MISS with a non-empty text, later requests are HITs with that body exactly until the expiry instant. |
| ResultCache.EmptyResultNotServed | ip.js:59-75 | An empty result is stored but never served from the cache. A failing refresh after it gives the 500 reply. |
| ResultCache.FailureKeepsCache | ip.js:73-86 | A failing refresh never changes the cache. |
| ResultCache.FirstRequest | ip.js:4-8 | The first request after loading is never a HIT, and a failing refresh then gives a 500. |
| ResultCache.Request | ip.js:10-87 | A fresh cache is served as a HIT with the cached text and left alone. A request whose collection step throws leaves the cache alone. Unless the cache is fresh, that request is a HIT-FALLBACK with the cached text when there is cached data, and otherwise a 500 with "Error: " and the message. Otherwise a request with a stale cache is a MISS that serves and stores the merged text of the sources at the current time. |
| ResultCache.RequestKeepsValid | ip.js:10-87 | Requests keep the cache's TTL at one minute and its text well formed. Every 200 reply body is empty or one dotted quad that passes the filter per line, strictly ascending. |
| ResultCache.InitialValid | ip.js:4-8 | The cache at load time satisfies that invariant. |

## Left out

- `fetchData` (ip.js:91-116), which covers HTTPS, redirects, status codes and the 10-second timeout. Each source's outcome is an input instead, `Aggregate.Fetch`: the body of the final 200 response, or nothing when the promise rejects.
- The list of sources (ip.js:27-33) is a parameter. The literal at ip.js:31 is missing a comma after it, so as written the file is a syntax error. The model therefore takes any list of URLs.
- `JSON.parse` is a parameter of the extraction. JSON numbers are kept as integers because their values are never read. Properties inherited through the prototype chain are not modelled.
- `Date.now()` is the `now` parameter. `X-Cache-Expire` is the millisecond instant, not its `toISOString()` text.
- The constant `Content-Type` and `Access-Control-Allow-Origin` headers are not modelled, and neither is console logging.
- ResultCache.Handle: a failing refresh stands for an error thrown before the cache update at ip.js:59. Errors thrown after it, while the MISS reply is being written (ip.js:63-71), are not modelled.
- Concurrent invocations sharing the module-level cache are not modelled. Requests are taken one at a time.
- The filter is not the set of reserved ranges on non-canonical text. A first piece with a leading zero or a value above 255 passes it, so "00.1.2.3", "010.0.0.1" and "300.1.1.1" reach the reply. `Routable.KeepIsNotReserved` relates the filter to the reserved CIDR blocks only on canonical dotted quads, and `LeadingZeroKept` and `WideOctetKept` record the pass-through.
- Routable.ParseInt covers digit runs only. Leading whitespace, signs and radix prefixes are not modelled, because the filter only ever sees regular-expression matches made of digits and dots.
- JavaScript strings are sequences of UTF-16 code units, and Dafny strings are sequences of characters. The two agree on the ASCII texts that reach the comparisons and the sort.
- Merge.Sort is an insertion sort, not the engine's algorithm. `Merge.SortedUnique` shows that any correct sort gives the same list.
