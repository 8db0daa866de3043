/** The sliding-window limiter (src/cinegate/services/rate_limit.py): a bounded table of buckets, least recently seen
    first, against the unbounded history of what was allowed. Times are real numbers; the clock never goes back. */
module RateLimit {
  import opened Wrappers

  datatype Limits = Limits(limit: nat, window: real, maxKeys: nat)

  datatype Entry<K> = Entry(key: K, events: seq<real>)

  datatype Request<K> = Request(key: K, time: real)

  datatype Decision = Decision(allowed: bool, retryAfter: real)

  predicate ValidLimits(c: Limits) {
    c.limit > 0 && c.window > 0.0 && c.maxKeys > 0
  }

  // ---- One check --------------------------------------------------------------------------

  /** What is left of a bucket when the events up to the cutoff have been taken from its front. */
  function Fresh(events: seq<real>, cutoff: real): seq<real> {
    if events != [] && events[0] <= cutoff then Fresh(events[1..], cutoff) else events
  }

  lemma FreshOfNone(cutoff: real)
    ensures Fresh([], cutoff) == []
  {}

  /** The table without the expired buckets at its front; the first bucket that stays is trimmed too. */
  function Purge<K>(es: seq<Entry<K>>, cutoff: real): seq<Entry<K>> {
    if es == [] then []
    else if Fresh(es[0].events, cutoff) == [] then Purge(es[1..], cutoff)
    else [Entry(es[0].key, Fresh(es[0].events, cutoff))] + es[1..]
  }

  /** The newest entries, so few that one more fits. */
  function DropOldest<K>(es: seq<Entry<K>>, maxKeys: nat): seq<Entry<K>>
    requires maxKeys > 0
  {
    if |es| >= maxKeys then es[|es| - maxKeys + 1..] else es
  }

  function Position<K(==)>(es: seq<Entry<K>>, key: K): (p: nat)
    ensures p <= |es| && (p < |es| ==> es[p].key == key) && forall i :: 0 <= i < p ==> es[i].key != key
  {
    if es == [] || es[0].key == key then 0 else 1 + Position(es[1..], key)
  }

  predicate Stored<K(==)>(es: seq<Entry<K>>, key: K) {
    Position(es, key) < |es|
  }

  // The other entries, after what a check of the key does to them.
  function Others<K(==)>(c: Limits, es: seq<Entry<K>>, r: Request<K>): seq<Entry<K>>
    requires ValidLimits(c)
  {
    var p := Position(es, r.key);
    if p < |es| then es[..p] + es[p + 1..] else DropOldest(Purge(es, r.time - c.window), c.maxKeys)
  }

  // The live events of the key.
  function Bucket<K(==)>(c: Limits, es: seq<Entry<K>>, r: Request<K>): seq<real> {
    var p := Position(es, r.key);
    if p < |es| then Fresh(es[p].events, r.time - c.window) else []
  }

  predicate Allows<K(==)>(c: Limits, es: seq<Entry<K>>, r: Request<K>) {
    |Bucket(c, es, r)| < c.limit
  }

  /** The table after a check. */
  function Check<K(==)>(c: Limits, es: seq<Entry<K>>, r: Request<K>): seq<Entry<K>>
    requires ValidLimits(c)
  {
    var bucket := Bucket(c, es, r);
    Others(c, es, r) + [Entry(r.key, if Allows(c, es, r) then bucket + [r.time] else bucket)]
  }

  function RetryAfter<K(==)>(c: Limits, es: seq<Entry<K>>, r: Request<K>): real
    requires ValidLimits(c)
  {
    if Allows(c, es, r) then 0.0
    else
      var wait := c.window - (r.time - Bucket(c, es, r)[0]);
      if wait > 0.001 then wait else 0.001
  }

  // ---- The unbounded history --------------------------------------------------------------

  /** How many events of the key are newer than the cutoff. */
  function Recent<K(==)>(h: seq<Request<K>>, key: K, cutoff: real): nat {
    if h == [] then 0
    else Recent(h[..|h| - 1], key, cutoff)
         + if h[|h| - 1].key == key && h[|h| - 1].time > cutoff then 1 else 0
  }

  /** The sliding window over a full history. */
  predicate HistoryAllows<K(==)>(c: Limits, h: seq<Request<K>>, r: Request<K>) {
    Recent(h, r.key, r.time - c.window) < c.limit
  }

  // The times at which the key was allowed.
  function Times<K(==)>(h: seq<Request<K>>, key: K): seq<real> {
    if h == [] then []
    else Times(h[..|h| - 1], key) + if h[|h| - 1].key == key then [h[|h| - 1].time] else []
  }

  // What the limiter has done so far: its table, what it allowed, and all requests.
  datatype State<K> = State(entries: seq<Entry<K>>, allowed: seq<Request<K>>, requests: seq<Request<K>>)

  function Start<K>(): State<K> {
    State([], [], [])
  }

  function Step<K(==)>(c: Limits, s: State<K>, r: Request<K>): State<K>
    requires ValidLimits(c)
  {
    State(Check(c, s.entries, r),
          if Allows(c, s.entries, r) then s.allowed + [r] else s.allowed,
          s.requests + [r])
  }

  function Run<K(==)>(c: Limits, s: State<K>, rs: seq<Request<K>>): State<K>
    requires ValidLimits(c)
  {
    if rs == [] then s else Step(c, Run(c, s, rs[..|rs| - 1]), rs[|rs| - 1])
  }

  // ---- The limiter ------------------------------------------------------------------------

  class SlidingWindowLimiter<K(==)> {
    const limits: Limits
    var entries: seq<Entry<K>>

    constructor (limit: nat, window: real, maxKeys: nat)
      requires limit > 0 && window > 0.0 && maxKeys > 0
      ensures limits == Limits(limit, window, maxKeys) && entries == []
    {
      limits, entries := Limits(limit, window, maxKeys), [];
    }

    /** Removes the expired entries seen least recently, then the oldest until a new one fits. */
    method EvictIfNeeded(cutoff: real)
      requires ValidLimits(limits)
      modifies this`entries
      ensures entries == DropOldest(Purge(old(entries), cutoff), limits.maxKeys)
    {
      var going := true;
      while going && entries != []
        invariant if going then Purge(old(entries), cutoff) == Purge(entries, cutoff)
                  else Purge(old(entries), cutoff) == entries
        decreases going, |entries|
      {
        var bucket := Trim(entries[0].events, cutoff);
        if bucket == [] {
          entries := entries[1..];
        } else {
          entries := [Entry(entries[0].key, bucket)] + entries[1..];
          going := false;
        }
      }
      ghost var kept := entries;
      while |entries| >= limits.maxKeys
        invariant DropOldest(entries, limits.maxKeys) == DropOldest(kept, limits.maxKeys)
        decreases |entries|
      {
        entries := entries[1..];
      }
    }

    method Trim(events: seq<real>, cutoff: real) returns (bucket: seq<real>)
      ensures bucket == Fresh(events, cutoff)
    {
      bucket := events;
      while bucket != [] && bucket[0] <= cutoff
        invariant Fresh(bucket, cutoff) == Fresh(events, cutoff)
        decreases |bucket|
      {
        bucket := bucket[1..];
      }
    }

    // Takes the key's entry out of the table, or makes room for a new one.
    method TakeOut(key: K, now: real) returns (events: seq<real>)
      requires ValidLimits(limits)
      modifies this`entries
      ensures entries == Others(limits, old(entries), Request(key, now))
      ensures Bucket(limits, old(entries), Request(key, now)) == Fresh(events, now - limits.window)
    {
      hide Purge, DropOldest, Fresh;
      var p := Position(entries, key);
      if p == |entries| {
        EvictIfNeeded(now - limits.window);
        FreshOfNone(now - limits.window);
        events := [];
      } else {
        events := entries[p].events;
        entries := entries[..p] + entries[p + 1..];
      }
    }

    method CheckKey(key: K, now: real) returns (decision: Decision)
      requires ValidLimits(limits)
      modifies this`entries
      ensures entries == Check(limits, old(entries), Request(key, now))
      ensures decision.allowed == Allows(limits, old(entries), Request(key, now))
      ensures decision.retryAfter == RetryAfter(limits, old(entries), Request(key, now))
    {
      hide Others, Bucket, Fresh;
      var events := TakeOut(key, now);
      var bucket := Trim(events, now - limits.window);
      if |bucket| >= limits.limit {
        var wait := limits.window - (now - bucket[0]);
        decision := Decision(false, if wait > 0.001 then wait else 0.001);
      } else {
        bucket := bucket + [now];
        decision := Decision(true, 0.0);
      }
      entries := entries + [Entry(key, bucket)];
    }
  }
}
