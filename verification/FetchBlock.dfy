/** One block from the cache or, with retries, from the upstream (internal/fetcher/fetcher.go:160-201). */
module FetchBlock {
  import opened Basics
  import opened Reader

  /** One GetRange call and the read of its body: a 200 answer, another status, no answer, or a body that
      may break off. */
  datatype Attempt = RangeIgnored | BadStatus(code: int) | NoAnswer | Got(data: Bytes, broken: bool)

  datatype Fetched = Ok(data: Bytes) | Err(error: Error)

  const ATTEMPTS := 3

  /** The attempts that end the retry loop: a body, even one that broke off after some bytes, or the news
      that the upstream ignores Range. */
  predicate Decisive(a: Attempt) {
    a.RangeIgnored? || (a.Got? && !(a.broken && a.data == []))
  }

  predicate Throttling(a: Attempt) {
    a.BadStatus? && (a.code == 429 || a.code == 503)
  }

  /** What the loop remembers of an attempt that was not decisive. */
  function LastError(a: Attempt): Error {
    if a.BadStatus? then Upstream(a.code) else Transport
  }

  /** A 206 body is a prefix of the requested bytes `off` to `last` (RFC 7233, section 4.1). */
  ghost predicate Honest(file: Bytes, off: nat, last: int, a: Attempt) {
    a.Got? ==> PrefixAt(file, off, a.data) && off + |a.data| <= last + 1
  }

  /** What a successful fetch of the block at `off` gives: the cached block, or file bytes from the block's
      start, none behind the block or `end`. */
  ghost predicate Answers(cached: Option<Bytes>, file: Bytes, off: nat, bs: nat, end: nat, data: Bytes) {
    match cached
    case Some(stored) => data == stored
    case None => PrefixAt(file, off, data) && off + |data| <= Min(off + bs - 1, end) + 1
  }

  /** The block starting at `off`, asked for up to `end`. `tries` counts the upstream calls made and
      `throttled` says whether the sub-source was marked; `cancelledAt` is the attempt, if any, before
      which the context is found cancelled. */
  method FetchBlock(cached: Option<Bytes>, attempts: seq<Attempt>, cancelledAt: Option<nat>,
                    off: nat, bs: nat, end: nat, ghost file: Bytes)
    returns (r: Fetched, tries: nat, throttled: bool)
    requires bs > 0 && off <= end && |attempts| == 3
    requires cached.Some? ==> PrefixAt(file, off, cached.value) && |cached.value| <= bs
    requires forall i :: 0 <= i < ATTEMPTS ==> Honest(file, off, Min(off + bs - 1, end), attempts[i])
    ensures r.Ok? ==> PrefixAt(file, off, r.data) && |r.data| <= bs && Answers(cached, file, off, bs, end, r.data)
    ensures cached.Some? ==> r == Ok(cached.value) && tries == 0 && !throttled
    ensures cached.None? ==>
              && tries <= ATTEMPTS
              && (forall i :: 0 <= i < tries - 1 ==> !Decisive(attempts[i]))
              && (r.Ok? <==> tries > 0 && attempts[tries - 1].Got? && Decisive(attempts[tries - 1]))
              && (r.Ok? ==> r.data == attempts[tries - 1].data)
              && (r == Err(RangeNotSupported) <==> tries > 0 && attempts[tries - 1].RangeIgnored?)
              && (r == Err(Cancelled) <==> cancelledAt == Some(tries) && tries < ATTEMPTS
                                           && (tries > 0 ==> !Decisive(attempts[tries - 1])))
              && (r.Err? && r.error != RangeNotSupported && r.error != Cancelled ==> tries == ATTEMPTS)
              && (throttled <==> exists i :: 0 <= i < tries && Throttling(attempts[i]))
    ensures cached.None? && tries > 0 ==>
              match attempts[tries - 1]
              case RangeIgnored => r == Err(RangeNotSupported)
              case BadStatus(code) => r == Err(if tries == 3 then Upstream(code) else Cancelled)
              case NoAnswer => r == Err(if tries == 3 then Transport else Cancelled)
              case Got(data, broken) =>
                if !broken || data != [] then r == Ok(data) else r == Err(if tries == 3 then Transport else Cancelled)
    ensures cached.None? ==>
              (throttled <==> exists i ::
                 0 <= i < tries && attempts[i].BadStatus? && (attempts[i].code == 429 || attempts[i].code == 503))
    ensures cached.None? ==> tries <= 3 && (r == Err(Cancelled) ==> cancelledAt == Some(tries) && tries < 3)
  {
    tries, throttled := 0, false;
    if cached.Some? {
      return Ok(cached.value), 0, false;
    }
    var lastErr := Transport;
    while tries < ATTEMPTS
      invariant tries <= ATTEMPTS
      invariant forall i :: 0 <= i < tries ==> !Decisive(attempts[i]) && cancelledAt != Some(i)
      invariant throttled <==> exists i :: 0 <= i < tries && Throttling(attempts[i])
      invariant lastErr.Transport? || lastErr.Upstream?
      invariant tries > 0 ==> lastErr == LastError(attempts[tries - 1])
    {
      if cancelledAt == Some(tries) {
        return Err(Cancelled), tries, throttled;
      }
      var a := attempts[tries];
      tries := tries + 1;
      match a {
        case RangeIgnored => return Err(RangeNotSupported), tries, throttled;
        case BadStatus(code) =>
          if code == 429 || code == 503 {
            throttled := true;
            assert Throttling(attempts[tries - 1]);
          }
          lastErr := Upstream(code);
        case NoAnswer => lastErr := Transport;
        case Got(data, broken) =>
          if !(broken && data == []) {
            return Ok(data), tries, throttled;
          }
          lastErr := Transport;
      }
    }
    r := Err(lastErr);
  }
}
