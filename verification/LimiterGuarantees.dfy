/** The bounded limiter against the unbounded history of what it allowed. */
module LimiterGuarantees {
  import opened Wrappers
  import opened RateLimit

  ghost predicate Distinct<K>(es: seq<Entry<K>>) {
    forall i, j :: 0 <= i < j < |es| ==> es[i].key != es[j].key
  }

  ghost predicate Ascending(ts: seq<real>, now: real) {
    && (forall i, j :: 0 <= i < j < |ts| ==> ts[i] <= ts[j])
    && forall i :: 0 <= i < |ts| ==> ts[i] <= now
  }

  ghost predicate SuffixOf(a: seq<real>, b: seq<real>) {
    |a| <= |b| && a == b[|b| - |a|..]
  }

  // A bucket holds the latest of the events its key was allowed, at least one and no more than the limit.
  ghost predicate BucketOk<K>(c: Limits, e: Entry<K>, h: seq<Request<K>>) {
    0 < |e.events| <= c.limit && SuffixOf(e.events, Times(h, e.key))
  }

  ghost predicate BucketsOk<K>(c: Limits, es: seq<Entry<K>>, h: seq<Request<K>>) {
    Distinct(es) && forall i :: 0 <= i < |es| ==> BucketOk(c, es[i], h)
  }

  ghost predicate Inv<K(!new)>(c: Limits, s: State<K>, now: real) {
    && |s.entries| <= c.maxKeys
    && BucketsOk(c, s.entries, s.allowed)
    && HistoryOk(s.allowed, now)
  }

  ghost predicate HistoryOk<K(!new)>(h: seq<Request<K>>, now: real) {
    forall key :: Ascending(Times(h, key), now)
  }

  // ---- Buckets ----------------------------------------------------------------------------

  lemma {:induction false} FreshReads(events: seq<real>, cutoff: real)
    ensures SuffixOf(Fresh(events, cutoff), events)
    ensures Fresh(events, cutoff) != [] ==> Fresh(events, cutoff)[0] > cutoff
    ensures forall i :: 0 <= i < |events| - |Fresh(events, cutoff)| ==> events[i] <= cutoff
  {
    if events != [] && events[0] <= cutoff {
      FreshReads(events[1..], cutoff);
      var n := |events| - |Fresh(events, cutoff)|;
      assert forall i :: 0 < i < n ==> events[i] == events[1..][i - 1];
    }
  }

  lemma SuffixJoin(a: seq<real>, b: seq<real>, d: seq<real>)
    requires SuffixOf(a, b) && SuffixOf(b, d)
    ensures SuffixOf(a, d)
  {}

  // A suffix that has lost only expired events has the same live events.
  lemma {:induction false} FreshOfSuffix(a: seq<real>, b: seq<real>, cutoff: real, now: real)
    requires SuffixOf(a, b) && Ascending(b, now) && a != []
    ensures |Fresh(a, cutoff)| <= |Fresh(b, cutoff)|
    ensures Fresh(a, cutoff) == [] ==> Fresh(b, cutoff) == []
    ensures SuffixOf(Fresh(a, cutoff), Fresh(b, cutoff))
    decreases |b|
  {
    if |a| == |b| {
      assert a == b;
    } else {
      assert SuffixOf(a, b[1..]) && Ascending(b[1..], now);
      FreshOfSuffix(a, b[1..], cutoff, now);
      if b[0] > cutoff {
        FreshReads(a, cutoff);
        SuffixJoin(Fresh(a, cutoff), a, b);
        assert a[0] == b[|b| - |a|] >= b[0] > cutoff;
      }
    }
  }

  lemma {:induction false} TimesGrow<K>(h: seq<Request<K>>, r: Request<K>, key: K)
    ensures Times(h + [r], key) == if r.key == key then Times(h, key) + [r.time] else Times(h, key)
  {
    assert (h + [r])[..|h|] == h;
  }

  lemma {:induction false} FreshNone(ts: seq<real>, cutoff: real)
    requires forall i :: 0 <= i < |ts| ==> ts[i] <= cutoff
    ensures Fresh(ts, cutoff) == []
  {
    if ts != [] {
      FreshNone(ts[1..], cutoff);
    }
  }

  /** With times in order, the live events of a key's full history are the ones the window counts. */
  lemma {:induction false} RecentIsFresh<K>(h: seq<Request<K>>, key: K, cutoff: real, now: real)
    requires Ascending(Times(h, key), now)
    ensures Recent(h, key, cutoff) == |Fresh(Times(h, key), cutoff)|
    decreases |h|
  {
    if h != [] {
      var front, last := h[..|h| - 1], h[|h| - 1];
      var ts := Times(front, key);
      assert forall i :: 0 <= i < |ts| ==> ts[i] == Times(h, key)[i];
      RecentIsFresh(front, key, cutoff, now);
      if last.key == key {
        FreshAppend(ts, last.time, cutoff);
        if last.time <= cutoff {
          assert Times(h, key)[|ts|] == last.time;
          FreshNone(ts, cutoff);
        }
      } else {
        assert Times(h, key) == ts;
      }
    }
  }

  lemma {:induction false} FreshAppend(ts: seq<real>, t: real, cutoff: real)
    ensures Fresh(ts + [t], cutoff) == if Fresh(ts, cutoff) == [] then Fresh([t], cutoff) else Fresh(ts, cutoff) + [t]
    decreases |ts|
  {
    if ts == [] {
      assert ts + [t] == [t];
    } else if ts[0] <= cutoff {
      assert (ts + [t])[1..] == ts[1..] + [t];
      FreshAppend(ts[1..], t, cutoff);
    }
  }

  /** Trimming again at a later cutoff is trimming once. */
  lemma {:induction false} FreshTwice(ts: seq<real>, early: real, late: real)
    requires early <= late
    ensures Fresh(Fresh(ts, early), late) == Fresh(ts, late)
  {
    if ts != [] && ts[0] <= early {
      FreshTwice(ts[1..], early, late);
    }
  }

  // ---- The table --------------------------------------------------------------------------

  lemma {:induction false} PurgeSplits<K>(es: seq<Entry<K>>, cutoff: real) returns (q: nat)
    ensures q <= |es| && forall i :: 0 <= i < q ==> Fresh(es[i].events, cutoff) == []
    ensures q < |es| ==> Fresh(es[q].events, cutoff) != []
    ensures Purge(es, cutoff) == if q < |es| then [Entry(es[q].key, Fresh(es[q].events, cutoff))] + es[q + 1..] else []
  {
    hide Fresh;
    q := 0;
    if es != [] && Fresh(es[0].events, cutoff) == [] {
      var rest := es[1..];
      var p := PurgeSplits(rest, cutoff);
      q := p + 1;
      assert forall i :: 0 < i < |es| ==> es[i] == rest[i - 1];
      assert q < |es| ==> rest[p + 1..] == es[q + 1..];
    }
  }

  // The first entry that purging keeps; it is trimmed, the ones after it stay as they are.
  lemma PurgeAt<K>(es: seq<Entry<K>>, cutoff: real) returns (q: nat)
    ensures q <= |es| && |Purge(es, cutoff)| == |es| - q
    ensures forall i :: 0 <= i < q ==> Fresh(es[i].events, cutoff) == []
    ensures forall i :: q < i < |es| ==> Purge(es, cutoff)[i - q] == es[i]
    ensures q < |es| ==> Fresh(es[q].events, cutoff) != []
    ensures q < |es| ==> Purge(es, cutoff)[0] == Entry(es[q].key, Fresh(es[q].events, cutoff))
  {
    hide Fresh, Purge;
    q := PurgeSplits(es, cutoff);
  }

  // A check of a key without entry keeps the entries from some q on, in order: those before it are expired or were
  // dropped to make room.
  lemma OthersAt<K>(c: Limits, es: seq<Entry<K>>, r: Request<K>) returns (q: nat)
    requires ValidLimits(c) && !Stored(es, r.key)
    ensures var o, cutoff := Others(c, es, r), r.time - c.window;
            && q <= |es| && |o| == |es| - q < c.maxKeys
            && (forall i :: 0 <= i < |o| ==>
                  && o[i].key == es[q + i].key
                  && (o[i].events == es[q + i].events
                      || (o[i].events == Fresh(es[q + i].events, cutoff) && o[i].events != [])))
            && (!Forced(c, es, r) ==> forall i :: 0 <= i < q ==> Fresh(es[i].events, cutoff) == [])
  {
    hide Fresh, Purge;
    var cutoff := r.time - c.window;
    var p := PurgeAt(es, cutoff);
    var kept, o := Purge(es, cutoff), Others(c, es, r);
    var d := if |kept| >= c.maxKeys then |kept| - c.maxKeys + 1 else 0;
    q := p + d;
    assert o == kept[d..];
    forall i | 0 <= i < |o|
      ensures o[i].key == es[q + i].key
      ensures o[i].events == es[q + i].events || (o[i].events == Fresh(es[q + i].events, cutoff) && o[i].events != [])
    {
      assert o[i] == kept[d + i];
      if d + i > 0 {
        assert kept[q + i - p] == es[q + i];
      }
    }
  }

  /** Room is made by dropping an entry that is not expired. */
  ghost predicate Forced<K>(c: Limits, es: seq<Entry<K>>, r: Request<K>) {
    !Stored(es, r.key) && |Purge(es, r.time - c.window)| >= c.maxKeys
  }

  // A bucket that has only been trimmed is still the latest part of its history.
  lemma BucketTrimmed<K>(c: Limits, e: Entry<K>, h: seq<Request<K>>, events: seq<real>, cutoff: real)
    requires BucketOk(c, e, h) && (events == e.events || (events == Fresh(e.events, cutoff) && events != []))
    ensures BucketOk(c, Entry(e.key, events), h)
  {
    hide SuffixOf, Times, Fresh;
    FreshReads(e.events, cutoff);
    SuffixShorter(Fresh(e.events, cutoff), e.events);
    if events != e.events {
      SuffixJoin(events, e.events, Times(h, e.key));
    }
  }

  lemma SuffixShorter(a: seq<real>, b: seq<real>)
    requires SuffixOf(a, b)
    ensures |a| <= |b|
  {}

  lemma OthersOk<K>(c: Limits, es: seq<Entry<K>>, h: seq<Request<K>>, r: Request<K>)
    requires ValidLimits(c) && BucketsOk(c, es, h) && |es| <= c.maxKeys
    ensures var o := Others(c, es, r);
            && BucketsOk(c, o, h) && |o| < c.maxKeys
            && forall i :: 0 <= i < |o| ==> o[i].key != r.key
  {
    if Stored(es, r.key) {
      OthersOkStored(c, es, h, r);
    } else {
      OthersOkNew(c, es, h, r);
    }
  }

  lemma OthersOkStored<K>(c: Limits, es: seq<Entry<K>>, h: seq<Request<K>>, r: Request<K>)
    requires ValidLimits(c) && BucketsOk(c, es, h) && Stored(es, r.key)
    ensures var o := Others(c, es, r);
            BucketsOk(c, o, h) && |o| == |es| - 1 && forall i :: 0 <= i < |o| ==> o[i].key != r.key
  {
    hide BucketOk;
    var o, p := Others(c, es, r), Position(es, r.key);
    assert forall i :: 0 <= i < |o| ==> o[i] == es[if i < p then i else i + 1];
  }

  lemma OthersOkNew<K>(c: Limits, es: seq<Entry<K>>, h: seq<Request<K>>, r: Request<K>)
    requires ValidLimits(c) && BucketsOk(c, es, h) && !Stored(es, r.key)
    ensures var o := Others(c, es, r);
            BucketsOk(c, o, h) && |o| < c.maxKeys && forall i :: 0 <= i < |o| ==> o[i].key != r.key
  {
    hide Others, Fresh, BucketOk;
    var o := Others(c, es, r);
    var q := OthersAt(c, es, r);
    forall i | 0 <= i < |o|
      ensures BucketOk(c, o[i], h)
    {
      assert BucketOk(c, es[q + i], h);
      BucketTrimmed(c, es[q + i], h, o[i].events, r.time - c.window);
      assert o[i] == Entry(es[q + i].key, o[i].events);
    }
  }

  lemma BucketOfKey<K>(c: Limits, es: seq<Entry<K>>, h: seq<Request<K>>, r: Request<K>)
    requires ValidLimits(c) && BucketsOk(c, es, h)
    ensures var b := Bucket(c, es, r);
            |b| <= c.limit && SuffixOf(b, Times(h, r.key)) && (b != [] ==> b[0] > r.time - c.window)
  {
    hide SuffixOf, Times, Fresh;
    var p := Position(es, r.key);
    var cutoff := r.time - c.window;
    if p < |es| {
      assert BucketOk(c, es[p], h);
      FreshReads(es[p].events, cutoff);
      SuffixShorter(Fresh(es[p].events, cutoff), es[p].events);
      SuffixJoin(Fresh(es[p].events, cutoff), es[p].events, Times(h, r.key));
    } else {
      NoneIsSuffix(Times(h, r.key));
    }
  }

  lemma NoneIsSuffix(b: seq<real>)
    ensures SuffixOf([], b)
  {}

  lemma HistoryGrows<K(!new)>(h: seq<Request<K>>, now: real, r: Request<K>)
    requires HistoryOk(h, now) && now <= r.time
    ensures HistoryOk(h, r.time) && HistoryOk(h + [r], r.time)
  {
    hide Times;
    forall key
      ensures Ascending(Times(h, key), r.time) && Ascending(Times(h + [r], key), r.time)
    {
      TimesGrow(h, r, key);
      assert Ascending(Times(h, key), now);
    }
  }

  lemma BucketsAppend<K>(c: Limits, o: seq<Entry<K>>, h: seq<Request<K>>, e: Entry<K>)
    requires BucketsOk(c, o, h) && BucketOk(c, e, h) && forall i :: 0 <= i < |o| ==> o[i].key != e.key
    ensures BucketsOk(c, o + [e], h)
  {
    hide BucketOk;
  }

  lemma BucketsLater<K>(c: Limits, o: seq<Entry<K>>, h: seq<Request<K>>, r: Request<K>)
    requires BucketsOk(c, o, h) && forall i :: 0 <= i < |o| ==> o[i].key != r.key
    ensures BucketsOk(c, o, h + [r])
  {
    hide Times;
    forall i | 0 <= i < |o|
      ensures BucketOk(c, o[i], h + [r])
    {
      TimesGrow(h, r, o[i].key);
      assert BucketOk(c, o[i], h);
    }
  }

  /** Every check keeps the table within its size and every bucket the latest part of its key's history. */
  lemma StepKeeps<K(!new)>(c: Limits, s: State<K>, now: real, r: Request<K>)
    requires ValidLimits(c) && Inv(c, s, now) && now <= r.time
    ensures Inv(c, Step(c, s, r), r.time)
  {
    hide Others, Bucket, Times, BucketsOk, HistoryOk;
    OthersOk(c, s.entries, s.allowed, r);
    BucketOfKey(c, s.entries, s.allowed, r);
    HistoryGrows(s.allowed, now, r);
    TimesGrow(s.allowed, r, r.key);
    var t := Step(c, s, r);
    var o := Others(c, s.entries, r);
    BucketsLater(c, o, s.allowed, r);
    BucketsAppend(c, o, t.allowed, t.entries[|o|]);
  }

  lemma StartInv<K(!new)>(c: Limits, now: real)
    ensures Inv(c, Start<K>(), now)
  {}

  // Requests come at times that never go back.
  ghost predicate Timely<K>(rs: seq<Request<K>>) {
    forall i, j :: 0 <= i < j < |rs| ==> rs[i].time <= rs[j].time
  }

  ghost function Clock<K>(rs: seq<Request<K>>): real {
    if rs == [] then 0.0 else rs[|rs| - 1].time
  }

  lemma {:induction false} RunKeeps<K(!new)>(c: Limits, rs: seq<Request<K>>)
    requires ValidLimits(c) && Timely(rs)
    ensures Inv(c, Run(c, Start(), rs), Clock(rs))
    decreases |rs|
  {
    hide Inv, Step;
    if rs == [] {
      StartInv<K>(c, 0.0);
    } else {
      var front := rs[..|rs| - 1];
      if front == [] {
        StartInv<K>(c, rs[0].time);
        StepKeeps(c, Start<K>(), rs[0].time, rs[0]);
      } else {
        RunKeeps(c, front);
        StepKeeps(c, Run(c, Start(), front), Clock(front), rs[|rs| - 1]);
      }
    }
  }

  /** However many keys come, the table never outgrows its bound. */
  lemma TableBounded<K(!new)>(c: Limits, rs: seq<Request<K>>)
    requires ValidLimits(c) && Timely(rs)
    ensures |Run(c, Start(), rs).entries| <= c.maxKeys
  {
    RunKeeps(c, rs);
  }

  /** A request is never blocked that the window over everything allowed so far would let through. */
  lemma NeverBlocksWrongly<K(!new)>(c: Limits, rs: seq<Request<K>>, r: Request<K>)
    requires ValidLimits(c) && Timely(rs + [r])
    ensures var s := Run(c, Start(), rs); HistoryAllows(c, s.allowed, r) ==> Allows(c, s.entries, r)
  {
    assert Timely(rs) by {
      assert forall i :: 0 <= i < |rs| ==> (rs + [r])[i] == rs[i];
    }
    RunKeeps(c, rs);
    hide Run;
    BlocksRightly(c, Run(c, Start(), rs), Clock(rs), r);
  }

  lemma BlocksRightly<K(!new)>(c: Limits, s: State<K>, now: real, r: Request<K>)
    requires ValidLimits(c) && Inv(c, s, now)
    ensures HistoryAllows(c, s.allowed, r) ==> Allows(c, s.entries, r)
  {
    hide SuffixOf, Times, Fresh, Recent;
    var cutoff := r.time - c.window;
    var p := Position(s.entries, r.key);
    if p < |s.entries| {
      assert BucketOk(c, s.entries[p], s.allowed);
      FreshOfSuffix(s.entries[p].events, Times(s.allowed, r.key), cutoff, now);
      RecentIsFresh(s.allowed, r.key, cutoff, now);
    }
  }
}
