/**
 * The request handler of ip.js (lines 10-87) around its module-level cache
 * (lines 4-8): a fresh cache is served as a HIT; otherwise the sources are
 * collected again, the result is stored and served as a MISS; when that
 * throws, a cached result is served as HIT-FALLBACK and, without one, the
 * reply is a 500 with the error message.
 */
module ResultCache {
  import opened Wrappers
  import opened Text
  import opened Json
  import opened Merge
  import opened Aggregate

  /** `cache`: the last result text (`null` until the first refresh), when it was stored, and how long it stays fresh, in milliseconds. */
  datatype Cache = Cache(data: Option<string>, timestamp: int, ttl: int)

  /** One minute. */
  const DefaultTtl: int := 60000

  /** The cache when the module is loaded. */
  const Initial: Cache := Cache(None, 0, DefaultTtl)

  /** `cache.data` is truthy: present and not the empty string. */
  predicate HasData(c: Cache) {
    c.data.Some? && |c.data.value| > 0
  }

  /** The condition of ip.js:14 at time `now`. */
  predicate Fresh(c: Cache, now: int) {
    HasData(c) && now - c.timestamp < c.ttl
  }

  /** The `X-Cache` header of a reply, or its absence on the 500 reply. */
  datatype Status = Hit | Miss | HitFallback | ServerError

  /** A reply: its kind, its body, and the `X-Cache-Expire` instant in milliseconds (`None` on the 500 reply). */
  datatype Reply = Reply(status: Status, body: string, expires: Option<int>)

  /** The HTTP status code of a reply. */
  function Code(s: Status): int {
    if s == ServerError then 500 else 200
  }

  /** The cache after a request, and the reply sent. */
  datatype Outcome = Outcome(cache: Cache, reply: Reply)

  /**
   * One request at time `now`. `refresh` is what the collection step of
   * ip.js:27-56 produces when the cache is not fresh: the result text, or
   * the message of an error it throws.
   */
  function Handle(c: Cache, now: int, refresh: Result<string, string>): (r: Outcome)
    ensures r.reply.status == Hit <==> Fresh(c, now)
    ensures r.reply.status == HitFallback <==> !Fresh(c, now) && refresh.Failure? && HasData(c)
    ensures r.reply.status == ServerError <==> !Fresh(c, now) && refresh.Failure? && !HasData(c)
    ensures r.reply.status in {Hit, HitFallback} ==>
              r.cache == c && r.reply.body == c.data.value && r.reply.expires == Some(c.timestamp + c.ttl)
    ensures r.reply.status == Miss ==>
              && r.cache == Cache(Some(r.reply.body), now, c.ttl) && r.reply.body == refresh.value
              && r.reply.expires == Some(now + c.ttl)
    ensures r.reply.status == ServerError ==>
              r.cache == c && r.reply.expires.None? && r.reply.body == "Error: " + refresh.error
    ensures r.cache.ttl == c.ttl
  {
    if Fresh(c, now) then
      Outcome(c, Reply(Hit, c.data.value, Some(c.timestamp + c.ttl)))
    else
      match refresh
      case Success(text) =>
        Outcome(Cache(Some(text), now, c.ttl), Reply(Miss, text, Some(now + c.ttl)))
      case Failure(message) =>
        if HasData(c) then Outcome(c, Reply(HitFallback, c.data.value, Some(c.timestamp + c.ttl)))
        else Outcome(c, Reply(ServerError, "Error: " + message, None))
  }

  /**
   * `X-Cache-Expire` tells when the cache left behind stops being served as
   * a HIT: a later request is a HIT exactly while it comes before that
   * instant, provided there is something cached.
   */
  lemma ExpiresIsBoundary(c: Cache, now: int, refresh: Result<string, string>, later: int)
    requires Handle(c, now, refresh).reply.status != ServerError
    ensures var r := Handle(c, now, refresh);
            Handle(r.cache, later, refresh).reply.status == Hit <==> HasData(r.cache) && later < r.reply.expires.value
  {
  }

  /**
   * A refresh with a non-empty result is served as a HIT, with the same
   * body, to every request within the time-to-live, whatever the sources do
   * then; from the expiry instant on it is not.
   */
  lemma MissThenHit(c: Cache, now: int, text: string, later: int, next: Result<string, string>)
    requires !Fresh(c, now) && |text| > 0 && now <= later
    ensures var first := Handle(c, now, Success(text));
            var second := Handle(first.cache, later, next);
            && first.reply.status == Miss
            && (later < now + c.ttl <==> second.reply.status == Hit)
            && (later < now + c.ttl ==> second.reply.body == text)
  {
  }

  /**
   * An empty result is stored but never served from the cache: the next
   * request refreshes again, and a failing refresh then gives the 500 reply.
   */
  lemma EmptyResultNotServed(c: Cache, now: int, later: int, message: string)
    requires !Fresh(c, now)
    ensures var first := Handle(c, now, Success(""));
            var second := Handle(first.cache, later, Failure(message));
            && first.cache.data == Some("")
            && second.reply.status == ServerError
            && second.reply.body == "Error: " + message
  {
  }

  /** A failing refresh never changes the cache. */
  lemma FailureKeepsCache(c: Cache, now: int, message: string)
    ensures Handle(c, now, Failure(message)).cache == c
  {
  }

  /** The first request after loading is never a HIT, and fails with a 500 if the refresh throws. */
  lemma FirstRequest(now: int, refresh: Result<string, string>)
    ensures Handle(Initial, now, refresh).reply.status != Hit
    ensures refresh.Failure? ==> Code(Handle(Initial, now, refresh).reply.status) == 500
  {
  }

  /**
   * A whole request: the refresh collects the sources `fs` unless the
   * collection step throws `crash` before the cache is updated.
   */
  function Request(c: Cache, now: int, fs: seq<Fetch>, parse: Parser, crash: Option<string>): (r: Outcome)
    ensures crash.Some? ==> r.cache == c
    ensures Fresh(c, now) ==> r.reply.status == Hit && r.cache == c && r.reply.body == c.data.value
    ensures !Fresh(c, now) && crash.None? ==>
              && r.reply.status == Miss
              && r.reply.body == ResultText(fs, parse)
              && r.cache == Cache(Some(ResultText(fs, parse)), now, c.ttl)
    ensures !Fresh(c, now) && crash.Some? ==>
              && r.reply.status in {HitFallback, ServerError}
              && (r.reply.status == HitFallback <==> HasData(c))
              && (r.reply.status == HitFallback ==> r.reply.body == c.data.value)
              && (r.reply.status == ServerError ==> r.reply.body == "Error: " + crash.value)
  {
    var refresh := if crash.Some? then Failure(crash.value) else Success(ResultText(fs, parse));
    Handle(c, now, refresh)
  }

  /** Every text the cache can hold is a well-formed result, and the time-to-live stays one minute. */
  ghost predicate Valid(c: Cache) {
    c.ttl == DefaultTtl && (c.data.Some? ==> WellFormedResult(c.data.value))
  }

  /**
   * Requests keep the cache valid, and every 200 reply is a well-formed
   * result: one dotted quad that passes the filter per line, strictly ascending, or
   * nothing at all.
   */
  lemma RequestKeepsValid(c: Cache, now: int, fs: seq<Fetch>, parse: Parser, crash: Option<string>)
    requires Valid(c)
    ensures var r := Request(c, now, fs, parse, crash);
            && Valid(r.cache)
            && (Code(r.reply.status) == 200 ==> WellFormedResult(r.reply.body))
  {
    var text := ResultText(fs, parse);
  }

  lemma InitialValid()
    ensures Valid(Initial)
  {
  }
}
