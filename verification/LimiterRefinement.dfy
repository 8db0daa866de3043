/** When the bounded limiter is the full sliding window, and what its retry time is worth. */
module LimiterRefinement {
  import opened Wrappers
  import opened RateLimit
  import opened LimiterGuarantees

  // ---- The events stored for a key --------------------------------------------------------

  ghost function Live<K>(es: seq<Entry<K>>, key: K): seq<real> {
    if es == [] then [] else if es[0].key == key then es[0].events else Live(es[1..], key)
  }

  lemma {:induction false} LiveByPosition<K>(es: seq<Entry<K>>, key: K)
    ensures var p := Position(es, key); Live(es, key) == if p < |es| then es[p].events else []
  {
    if es != [] && es[0].key != key {
      LiveByPosition(es[1..], key);
    }
  }

  lemma {:induction false} LiveAppend<K>(es: seq<Entry<K>>, e: Entry<K>, key: K)
    ensures Live(es + [e], key)
            == if Position(es, key) < |es| then Live(es, key) else if e.key == key then e.events else []
  {
    if es == [] {
      assert (es + [e])[1..] == [];
    } else {
      assert (es + [e])[1..] == es[1..] + [e];
      LiveAppend(es[1..], e, key);
    }
  }

  lemma {:induction false} LiveRemoved<K>(es: seq<Entry<K>>, p: nat, key: K)
    requires p < |es| && es[p].key != key
    ensures Live(es[..p] + es[p + 1..], key) == Live(es, key)
  {
    var o := es[..p] + es[p + 1..];
    if p == 0 {
      assert o == es[1..];
    } else {
      assert o[0] == es[0] && o[1..] == es[1..][..p - 1] + es[1..][p..];
      LiveRemoved(es[1..], p - 1, key);
    }
  }

  lemma DistinctLater<K>(es: seq<Entry<K>>)
    requires Distinct(es) && es != []
    ensures Distinct(es[1..]) && Live(es[1..], es[0].key) == []
  {
    LiveByPosition(es[1..], es[0].key);
    var p := Position(es[1..], es[0].key);
    assert forall i :: 0 <= i < |es[1..]| ==> es[1..][i] == es[i + 1];
  }

  lemma {:induction false} LivePurged<K>(es: seq<Entry<K>>, cutoff: real, key: K)
    requires Distinct(es)
    ensures SuffixOf(Live(Purge(es, cutoff), key), Live(es, key))
    ensures Fresh(Live(Purge(es, cutoff), key), cutoff) == Fresh(Live(es, key), cutoff)
  {
    hide Fresh;
    if es != [] {
      DistinctLater(es);
      FreshReads(es[0].events, cutoff);
      FreshTwice(es[0].events, cutoff, cutoff);
      if Fresh(es[0].events, cutoff) == [] {
        LivePurged(es[1..], cutoff, key);
        FreshNone([], cutoff);
      } else {
        assert Purge(es, cutoff)[1..] == es[1..];
      }
    }
  }

  lemma {:induction false} LiveDropped<K>(es: seq<Entry<K>>, q: nat, key: K)
    requires Distinct(es) && q <= |es|
    ensures SuffixOf(Live(es[q..], key), Live(es, key))
  {
    if q > 0 {
      DistinctLater(es);
      LiveDropped(es[1..], q - 1, key);
      assert es[1..][q - 1..] == es[q..];
    } else {
      assert es[q..] == es;
    }
  }

  /** A check of another key can only trim or drop what is stored for a key, and drops nothing live unless it has to. */
  lemma LiveOfOthers<K>(c: Limits, es: seq<Entry<K>>, r: Request<K>, key: K)
    requires ValidLimits(c) && Distinct(es) && key != r.key
    ensures SuffixOf(Live(Check(c, es, r), key), Live(es, key))
    ensures !Forced(c, es, r) ==> Fresh(Live(Check(c, es, r), key), r.time - c.window) == Fresh(Live(es, key),
            r.time - c.window)
  {
    hide Bucket, Fresh, Live, Others, SuffixOf, Forced;
    var o := Others(c, es, r);
    LiveAppend(o, Check(c, es, r)[|o|], key);
    LiveByPosition(o, key);
    LiveOfKept(c, es, r, key);
  }

  lemma LiveOfKept<K>(c: Limits, es: seq<Entry<K>>, r: Request<K>, key: K)
    requires ValidLimits(c) && Distinct(es) && key != r.key
    ensures SuffixOf(Live(Others(c, es, r), key), Live(es, key))
    ensures !Forced(c, es, r) ==> Fresh(Live(Others(c, es, r), key), r.time - c.window) == Fresh(Live(es, key),
            r.time - c.window)
  {
    hide Bucket, Fresh, Live, SuffixOf, Distinct, Purge;
    if Stored(es, r.key) {
      LiveRemoved(es, Position(es, r.key), key);
      SuffixSelf(Live(es, key));
    } else {
      var kept := Purge(es, r.time - c.window);
      LivePurged(es, r.time - c.window, key);
      PurgeDistinct(es, r.time - c.window);
      if |kept| >= c.maxKeys {
        LiveDropped(kept, |kept| - c.maxKeys + 1, key);
        SuffixJoin(Live(Others(c, es, r), key), Live(kept, key), Live(es, key));
      }
    }
  }

  lemma SuffixSelf(a: seq<real>)
    ensures SuffixOf(a, a)
  {}

  lemma PurgeDistinct<K>(es: seq<Entry<K>>, cutoff: real)
    requires Distinct(es)
    ensures Distinct(Purge(es, cutoff))
  {
    var q := PurgeAt(es, cutoff);
    assert forall i :: 0 <= i < |Purge(es, cutoff)| ==> Purge(es, cutoff)[i].key == es[q + i].key;
  }

  // What a check finds and stores for its own key.
  lemma LiveOfKey<K>(c: Limits, es: seq<Entry<K>>, h: seq<Request<K>>, r: Request<K>)
    requires ValidLimits(c) && BucketsOk(c, es, h) && |es| <= c.maxKeys
    ensures Bucket(c, es, r) == Fresh(Live(es, r.key), r.time - c.window)
    ensures Live(Check(c, es, r), r.key) == if Allows(c, es, r) then Bucket(c, es, r) + [r.time] else Bucket(c, es, r)
  {
    BucketIsFresh(c, es, r);
    hide Others, Bucket, Fresh, BucketsOk, Live, Allows;
    OthersOk(c, es, h, r);
    LiveOfNew(Others(c, es, r), Check(c, es, r)[|Others(c, es, r)|]);
  }

  lemma BucketIsFresh<K>(c: Limits, es: seq<Entry<K>>, r: Request<K>)
    ensures Bucket(c, es, r) == Fresh(Live(es, r.key), r.time - c.window)
  {
    hide Fresh, Live;
    LiveByPosition(es, r.key);
    FreshNone([], r.time - c.window);
  }

  lemma LiveOfNew<K>(o: seq<Entry<K>>, e: Entry<K>)
    requires forall i :: 0 <= i < |o| ==> o[i].key != e.key
    ensures Live(o + [e], e.key) == e.events
  {
    hide Live;
    LiveAppend(o, e, e.key);
  }

  // ---- Exactly the full window, as long as nothing live is dropped ------------------------

  /** For every key the live stored events are the live events of its whole history. */
  ghost predicate Complete<K(!new)>(c: Limits, s: State<K>, now: real) {
    forall key :: Fresh(Live(s.entries, key), now - c.window) == Fresh(Times(s.allowed, key), now - c.window)
  }

  lemma CompleteLater<K(!new)>(c: Limits, s: State<K>, now: real, later: real)
    requires Complete(c, s, now) && now <= later
    ensures Complete(c, s, later)
  {
    forall key
      ensures Fresh(Live(s.entries, key), later - c.window) == Fresh(Times(s.allowed, key), later - c.window)
    {
      FreshTwice(Live(s.entries, key), now - c.window, later - c.window);
      FreshTwice(Times(s.allowed, key), now - c.window, later - c.window);
    }
  }

  lemma StepComplete<K(!new)>(c: Limits, s: State<K>, now: real, r: Request<K>)
    requires ValidLimits(c) && Inv(c, s, now) && now <= r.time && Complete(c, s, now) && !Forced(c, s.entries, r)
    ensures Complete(c, Step(c, s, r), r.time)
  {
    CompleteLater(c, s, now, r.time);
    var t := Step(c, s, r);
    forall key
      ensures Fresh(Live(t.entries, key), r.time - c.window) == Fresh(Times(t.allowed, key), r.time - c.window)
    {
      KeyComplete(c, s, now, r, key);
    }
  }

  lemma KeyComplete<K(!new)>(c: Limits, s: State<K>, now: real, r: Request<K>, key: K)
    requires ValidLimits(c) && Inv(c, s, now) && Complete(c, s, r.time) && !Forced(c, s.entries, r)
    ensures Fresh(Live(Step(c, s, r).entries, key), r.time - c.window) == Fresh(Times(Step(c, s, r).allowed, key),
            r.time - c.window)
  {
    hide Fresh, Live, Times, Bucket, Others, Forced, HistoryOk;
    var cutoff := r.time - c.window;
    TimesGrow(s.allowed, r, key);
    if key != r.key {
      LiveOfOthers(c, s.entries, r, key);
    } else {
      LiveOfKey(c, s.entries, s.allowed, r);
      var live, ts := Live(s.entries, key), Times(s.allowed, key);
      FreshTwice(live, cutoff, cutoff);
      FreshAppend(ts, r.time, cutoff);
      FreshAppend(Fresh(live, cutoff), r.time, cutoff);
      FreshTwice(ts, cutoff, cutoff);
    }
  }

  /** With nothing missing, the limiter decides as the full window does. */
  lemma CompleteDecides<K(!new)>(c: Limits, s: State<K>, now: real, r: Request<K>)
    requires ValidLimits(c) && Inv(c, s, now) && now <= r.time && Complete(c, s, now)
    ensures Allows(c, s.entries, r) <==> HistoryAllows(c, s.allowed, r)
  {
    hide Fresh, Live, Times, Others;
    CompleteLater(c, s, now, r.time);
    LiveOfKey(c, s.entries, s.allowed, r);
    RecentIsFresh(s.allowed, r.key, r.time - c.window, now);
  }

  /** The sliding window without bound: what it allows of a series of requests. */
  function Ideal<K(==)>(c: Limits, rs: seq<Request<K>>): seq<Request<K>> {
    if rs == [] then []
    else
      var h, r := Ideal(c, rs[..|rs| - 1]), rs[|rs| - 1];
      if HistoryAllows(c, h, r) then h + [r] else h
  }

  /** In no check of the run was a live entry dropped to make room. */
  ghost predicate NeverForced<K>(c: Limits, rs: seq<Request<K>>)
    requires ValidLimits(c)
  {
    rs == [] || (NeverForced(c, rs[..|rs| - 1]) && !Forced(c, Run(c, Start(), rs[..|rs| - 1]).entries, rs[|rs| - 1]))
  }

  lemma StartComplete<K(!new)>(c: Limits, now: real)
    ensures Complete(c, Start<K>(), now)
  {}

  lemma TimelyFront<K>(rs: seq<Request<K>>)
    requires Timely(rs) && rs != []
    ensures Timely(rs[..|rs| - 1]) && (|rs| > 1 ==> Clock(rs[..|rs| - 1]) <= rs[|rs| - 1].time)
  {
    assert forall i :: 0 <= i < |rs| - 1 ==> rs[..|rs| - 1][i] == rs[i];
  }

  lemma {:induction false} RunComplete<K(!new)>(c: Limits, rs: seq<Request<K>>)
    requires ValidLimits(c) && Timely(rs) && NeverForced(c, rs)
    ensures Complete(c, Run(c, Start(), rs), Clock(rs)) && Run(c, Start(), rs).allowed == Ideal(c, rs)
    decreases |rs|
  {
    hide Inv, Complete, Check, Allows, Forced, HistoryAllows;
    if rs == [] {
      StartComplete<K>(c, 0.0);
    } else {
      var front, r := rs[..|rs| - 1], rs[|rs| - 1];
      var s := Run(c, Start(), front);
      TimelyFront(rs);
      RunComplete(c, front);
      RunKeeps(c, front);
      var now := if front == [] then r.time else Clock(front);
      if front == [] {
        StartComplete<K>(c, now);
        StartInv<K>(c, now);
      }
      StepComplete(c, s, now, r);
      CompleteDecides(c, s, now, r);
    }
  }

  /** As long as no live entry had to be dropped, every decision is that of the unbounded window. */
  lemma IdealUntilForced<K(!new)>(c: Limits, rs: seq<Request<K>>, r: Request<K>)
    requires ValidLimits(c) && Timely(rs + [r]) && NeverForced(c, rs)
    ensures Run(c, Start(), rs).allowed == Ideal(c, rs)
    ensures Allows(c, Run(c, Start(), rs).entries, r) <==> HistoryAllows(c, Ideal(c, rs), r)
  {
    assert (rs + [r])[..|rs|] == rs;
    TimelyFront(rs + [r]);
    RunComplete(c, rs);
    RunKeeps(c, rs);
    hide Complete, Inv, Run;
    var s := Run(c, Start(), rs);
    if rs == [] {
      StartUnfolds<K>(c);
      StartComplete<K>(c, r.time);
      StartInv<K>(c, r.time);
      CompleteDecides(c, s, r.time, r);
    } else {
      CompleteDecides(c, s, Clock(rs), r);
    }
  }

  lemma StartUnfolds<K>(c: Limits)
    requires ValidLimits(c)
    ensures Run(c, Start<K>(), []) == Start<K>()
  {}

  // ---- What dropping a live entry costs ---------------------------------------------------

  // The key whose live entry makes room.
  lemma DroppedKey<K>(c: Limits, es: seq<Entry<K>>, h: seq<Request<K>>, r: Request<K>) returns (key: K)
    requires ValidLimits(c) && BucketsOk(c, es, h) && |es| <= c.maxKeys && Forced(c, es, r)
    ensures key != r.key && Fresh(Live(es, key), r.time - c.window) != [] && Live(Check(c, es, r), key) == []
  {
    hide Fresh, Live, Purge, BucketOk, Bucket;
    var cutoff := r.time - c.window;
    var q := PurgeAt(es, cutoff);
    var kept, o := Purge(es, cutoff), Others(c, es, r);
    PurgeDistinct(es, cutoff);
    key := es[q].key;
    assert kept[0].key == key;
    assert Live(es, key) == es[q].events by {
      LiveAtIndex(es, q);
    }
    var d := |kept| - c.maxKeys + 1;
    assert o == kept[d..];
    assert forall i :: 0 <= i < |o| ==> o[i].key != key by {
      assert forall i :: 0 <= i < |o| ==> o[i] == kept[d + i];
    }
    LiveByPosition(o, key);
    LiveAppend(o, Check(c, es, r)[|o|], key);
  }

  lemma LiveAtIndex<K>(es: seq<Entry<K>>, i: nat)
    requires Distinct(es) && i < |es|
    ensures Live(es, es[i].key) == es[i].events
  {
    hide Live;
    LiveByPosition(es, es[i].key);
  }

  /** The exact condition: a check keeps every live event of every key if and only if no live entry is dropped. */
  lemma StepCompleteExactly<K(!new)>(c: Limits, s: State<K>, now: real, r: Request<K>)
    requires ValidLimits(c) && Inv(c, s, now) && now <= r.time && Complete(c, s, now)
    ensures Complete(c, Step(c, s, r), r.time) <==> !Forced(c, s.entries, r)
  {
    hide Check, Fresh, Live, Times, Forced, HistoryOk, BucketsOk;
    if Forced(c, s.entries, r) {
      CompleteLater(c, s, now, r.time);
      var key := DroppedKey(c, s.entries, s.allowed, r);
      TimesGrow(s.allowed, r, key);
      FreshNone([], r.time - c.window);
      assert Fresh(Live(Step(c, s, r).entries, key), r.time - c.window)
             != Fresh(Times(Step(c, s, r).allowed, key), r.time - c.window);
    } else {
      StepComplete(c, s, now, r);
    }
  }

  /** After every check of the run, every live event of every key is stored. */
  ghost predicate AlwaysComplete<K(!new)>(c: Limits, rs: seq<Request<K>>)
    requires ValidLimits(c)
    decreases |rs|
  {
    rs == [] || (AlwaysComplete(c, rs[..|rs| - 1]) && Complete(c, Run(c, Start(), rs), Clock(rs)))
  }

  /** Over a run nothing live is ever missing if and only if no live entry is ever dropped. */
  lemma {:induction false} RunCompleteExactly<K(!new)>(c: Limits, rs: seq<Request<K>>)
    requires ValidLimits(c) && Timely(rs)
    ensures AlwaysComplete(c, rs) <==> NeverForced(c, rs)
    decreases |rs|
  {
    hide Inv, Complete, Check, Allows, Forced;
    if rs != [] {
      var front, r := rs[..|rs| - 1], rs[|rs| - 1];
      TimelyFront(rs);
      RunCompleteExactly(c, front);
      if AlwaysComplete(c, front) {
        RunComplete(c, front);
        RunKeeps(c, front);
        var now := if front == [] then r.time else Clock(front);
        if front == [] {
          StartComplete<K>(c, now);
          StartInv<K>(c, now);
        }
        StepCompleteExactly(c, Run(c, Start(), front), now, r);
      }
    }
  }

  // Some live events of the key are missing from the table.
  ghost predicate Behind<K(!new)>(c: Limits, s: State<K>, key: K, now: real) {
    && Inv(c, s, now)
    && |Fresh(Live(s.entries, key), now - c.window)| < |Fresh(Times(s.allowed, key), now - c.window)| <= c.limit
  }

  lemma BehindDecides<K(!new)>(c: Limits, s: State<K>, key: K, now: real)
    requires ValidLimits(c) && Behind(c, s, key, now)
    ensures var q := Request(key, now);
            && Allows(c, s.entries, q)
            && Recent(s.allowed, key, now - c.window) == |Fresh(Times(s.allowed, key), now - c.window)|
            && (HistoryAllows(c, s.allowed, q) ==>
                  && Behind(c, Step(c, s, q), key, now)
                  && Recent(Step(c, s, q).allowed, key, now - c.window) == Recent(s.allowed, key, now - c.window) + 1)
  {
    hide Check, Fresh, Live, Times, BucketsOk, Bucket;
    var q, cutoff := Request(key, now), now - c.window;
    LiveOfKey(c, s.entries, s.allowed, q);
    RecentIsFresh(s.allowed, key, cutoff, now);
    if HistoryAllows(c, s.allowed, q) {
      StepKeeps(c, s, now, q);
      OneMoreLive(c, s, now, key);
      OneMoreAllowed(c, s, now, key);
      RecentIsFresh(Step(c, s, q).allowed, key, cutoff, now);
    }
  }

  // What one more request that is let through adds to the stored events, and to the history.
  lemma OneMoreLive<K(!new)>(c: Limits, s: State<K>, now: real, key: K)
    requires ValidLimits(c) && Inv(c, s, now) && Allows(c, s.entries, Request(key, now))
    ensures var t, cutoff := Step(c, s, Request(key, now)), now - c.window;
            |Fresh(Live(t.entries, key), cutoff)| == |Fresh(Live(s.entries, key), cutoff)| + 1
  {
    hide Check, Fresh, Live, BucketsOk, HistoryOk, Bucket, Allows;
    var cutoff := now - c.window;
    LiveOfKey(c, s.entries, s.allowed, Request(key, now));
    FreshTwice(Live(s.entries, key), cutoff, cutoff);
    FreshWith(Fresh(Live(s.entries, key), cutoff), now, cutoff);
  }

  lemma OneMoreAllowed<K(!new)>(c: Limits, s: State<K>, now: real, key: K)
    requires ValidLimits(c) && Allows(c, s.entries, Request(key, now))
    ensures var t, cutoff := Step(c, s, Request(key, now)), now - c.window;
            |Fresh(Times(t.allowed, key), cutoff)| == |Fresh(Times(s.allowed, key), cutoff)| + 1
  {
    hide Check, Fresh, Times, Allows;
    TimesGrow(s.allowed, Request(key, now), key);
    FreshWith(Times(s.allowed, key), now, now - c.window);
  }

  lemma FreshWith(events: seq<real>, t: real, cutoff: real)
    requires t > cutoff
    ensures |Fresh(events + [t], cutoff)| == |Fresh(events, cutoff)| + 1
  {
    FreshAppend(events, t, cutoff);
  }

  // Asking again and again at one moment brings out that events are missing.
  lemma {:induction false} BehindShows<K(!new)>(c: Limits, s: State<K>, key: K, now: real, rs: seq<Request<K>>)
    returns (more: seq<Request<K>>)
    requires ValidLimits(c) && Behind(c, Run(c, s, rs), key, now)
    requires forall r :: r in rs ==> r == Request(key, now)
    ensures forall r :: r in more ==> r == Request(key, now)
    ensures var t := Run(c, s, more);
            Allows(c, t.entries, Request(key, now)) && !HistoryAllows(c, t.allowed, Request(key, now))
    decreases c.limit - Recent(Run(c, s, rs).allowed, key, now - c.window)
  {
    hide Behind, Step, Allows;
    var q := Request(key, now);
    BehindDecides(c, Run(c, s, rs), key, now);
    if HistoryAllows(c, Run(c, s, rs).allowed, q) {
      assert (rs + [q])[..|rs|] == rs;
      more := BehindShows(c, s, key, now, rs + [q]);
    } else {
      more := rs;
    }
  }

  /** Every drop of a live entry can be seen: right after it some requests of the dropped key lead to one that the
      limiter lets through and the window over all it has allowed does not. */
  lemma ForcedShows<K(!new)>(c: Limits, s: State<K>, now: real, r: Request<K>) returns (key: K, more: seq<Request<K>>)
    requires ValidLimits(c) && Inv(c, s, now) && now <= r.time && Complete(c, s, now) && Forced(c, s.entries, r)
    ensures key != r.key && forall o :: o in more ==> o == Request(key, r.time)
    ensures var t, q := Run(c, Step(c, s, r), more), Request(key, r.time);
            Allows(c, t.entries, q) && !HistoryAllows(c, t.allowed, q)
  {
    hide Check, Fresh, Live, Times, Forced, HistoryOk, BucketsOk, Allows, HistoryAllows;
    CompleteLater(c, s, now, r.time);
    key := DroppedKey(c, s.entries, s.allowed, r);
    TimesGrow(s.allowed, r, key);
    StepKeeps(c, s, now, r);
    FreshNone([], r.time - c.window);
    LiveFits(c, s.entries, s.allowed, key, r.time - c.window);
    var none: seq<Request<K>> := [];
    assert Run(c, Step(c, s, r), none) == Step(c, s, r);
    more := BehindShows(c, Step(c, s, r), key, r.time, none);
  }

  // A stored bucket never exceeds the limit.
  lemma LiveFits<K>(c: Limits, es: seq<Entry<K>>, h: seq<Request<K>>, key: K, cutoff: real)
    requires BucketsOk(c, es, h)
    ensures |Fresh(Live(es, key), cutoff)| <= c.limit
  {
    hide Fresh, Live;
    LiveByPosition(es, key);
    FreshReads(Live(es, key), cutoff);
    var p := Position(es, key);
    if p < |es| {
      assert BucketOk(c, es[p], h);
    }
  }

  // ---- Few keys ---------------------------------------------------------------------------

  ghost function Seen<K>(rs: seq<Request<K>>): set<K> {
    set r | r in rs :: r.key
  }

  ghost function Keys<K>(es: seq<Entry<K>>): set<K> {
    set e | e in es :: e.key
  }

  lemma {:induction false} KeysCount<K>(es: seq<Entry<K>>)
    requires Distinct(es)
    ensures |Keys(es)| == |es|
  {
    if es == [] {
      assert Keys(es) == {};
    } else {
      var front, last := es[..|es| - 1], es[|es| - 1];
      KeysCount(front);
      assert Keys(es) == Keys(front) + {last.key};
      assert last.key !in Keys(front);
    }
  }

  lemma KeysOfCheck<K>(c: Limits, es: seq<Entry<K>>, r: Request<K>)
    requires ValidLimits(c)
    ensures Keys(Check(c, es, r)) <= Keys(es) + {r.key}
  {
    hide Bucket, Others;
    var o := Others(c, es, r);
    forall e | e in o
      ensures e.key in Keys(es)
    {
      var i :| 0 <= i < |o| && o[i] == e;
      if Stored(es, r.key) {
        RemovedAt(c, es, r);
        assert o[i] in es;
      } else {
        var q := OthersAt(c, es, r);
        assert es[q + i] in es && o[i].key == es[q + i].key;
      }
    }
  }

  lemma RemovedAt<K>(c: Limits, es: seq<Entry<K>>, r: Request<K>)
    requires ValidLimits(c) && Stored(es, r.key)
    ensures var o, p := Others(c, es, r), Position(es, r.key);
            |o| == |es| - 1 && forall i :: 0 <= i < |o| ==> o[i] == es[if i < p then i else i + 1]
  {}

  lemma {:induction false} RunSeen<K>(c: Limits, rs: seq<Request<K>>)
    requires ValidLimits(c)
    ensures Keys(Run(c, Start(), rs).entries) <= Seen(rs)
    decreases |rs|
  {
    hide Check;
    if rs != [] {
      var front := rs[..|rs| - 1];
      RunSeen(c, front);
      KeysOfCheck(c, Run(c, Start(), front).entries, rs[|rs| - 1]);
      assert rs[|rs| - 1] in rs && forall r :: r in front ==> r in rs;
    }
  }

  /** While no more different keys have come than the table holds, nothing live is ever dropped. */
  lemma {:induction false} FewKeysNeverForced<K(!new)>(c: Limits, rs: seq<Request<K>>)
    requires ValidLimits(c) && Timely(rs) && |Seen(rs)| <= c.maxKeys
    ensures NeverForced(c, rs)
    decreases |rs|
  {
    hide Inv, Run;
    if rs != [] {
      var front, r := rs[..|rs| - 1], rs[|rs| - 1];
      var es := Run(c, Start(), front).entries;
      TimelyFront(rs);
      assert Seen(front) <= Seen(rs) by {
        assert forall o :: o in front ==> o in rs;
      }
      SubsetSize(Seen(front), Seen(rs));
      FewKeysNeverForced(c, front);
      RunSeen(c, front);
      RunKeeps(c, front);
      assert Distinct(es) by {
        DistinctIfInv(c, Run(c, Start(), front), Clock(front));
      }
      NotForced(c, es, rs);
    }
  }

  lemma DistinctIfInv<K(!new)>(c: Limits, s: State<K>, now: real)
    requires Inv(c, s, now)
    ensures Distinct(s.entries)
  {}

  lemma NotForced<K>(c: Limits, es: seq<Entry<K>>, rs: seq<Request<K>>)
    requires ValidLimits(c) && Distinct(es) && rs != [] && |Seen(rs)| <= c.maxKeys && Keys(es) <= Seen(rs)
    ensures !Forced(c, es, rs[|rs| - 1])
  {
    hide Keys, Seen, Distinct, Purge;
    var r := rs[|rs| - 1];
    if !Stored(es, r.key) {
      var q := PurgeAt(es, r.time - c.window);
      KeysCount(es);
      NewKey(es, rs);
      SubsetSize(Keys(es) + {r.key}, Seen(rs));
    }
  }

  lemma NewKey<K>(es: seq<Entry<K>>, rs: seq<Request<K>>)
    requires rs != [] && !Stored(es, rs[|rs| - 1].key)
    ensures rs[|rs| - 1].key !in Keys(es) && rs[|rs| - 1].key in Seen(rs)
  {
    assert rs[|rs| - 1] in rs;
  }

  /** A service whose keys fit the table gets exactly the unbounded sliding window. */
  lemma FewKeysIdeal<K(!new)>(c: Limits, rs: seq<Request<K>>, r: Request<K>)
    requires ValidLimits(c) && Timely(rs + [r]) && |Seen(rs)| <= c.maxKeys
    ensures Allows(c, Run(c, Start(), rs).entries, r) <==> HistoryAllows(c, Ideal(c, rs), r)
  {
    assert (rs + [r])[..|rs|] == rs;
    TimelyFront(rs + [r]);
    FewKeysNeverForced(c, rs);
    IdealUntilForced(c, rs, r);
  }

  // ---- Waiting ----------------------------------------------------------------------------

  /** No check of the key in the run was allowed. */
  ghost predicate NoneAllowed<K>(c: Limits, s: State<K>, rs: seq<Request<K>>, key: K)
    requires ValidLimits(c)
  {
    rs == [] ||
    (NoneAllowed(c, s, rs[..|rs| - 1], key)
     && (rs[|rs| - 1].key == key ==> !Allows(c, Run(c, s, rs[..|rs| - 1]).entries, rs[|rs| - 1])))
  }

  ghost predicate After<K>(now: real, rs: seq<Request<K>>) {
    Timely(rs) && (rs != [] ==> now <= rs[0].time)
  }

  lemma {:induction false} WaitingKeeps<K(!new)>(c: Limits, s: State<K>, now: real, rs: seq<Request<K>>, key: K)
    requires ValidLimits(c) && Inv(c, s, now) && After(now, rs) && NoneAllowed(c, s, rs, key)
    ensures Inv(c, Run(c, s, rs), if rs == [] then now else Clock(rs))
    ensures SuffixOf(Live(Run(c, s, rs).entries, key), Live(s.entries, key))
    decreases |rs|
  {
    hide Check, Allows, Live, BucketsOk, HistoryOk;
    if rs != [] {
      var front, r := rs[..|rs| - 1], rs[|rs| - 1];
      TimelyFront(rs);
      assert front != [] ==> front[0] == rs[0];
      WaitingKeeps(c, s, now, front, key);
      var m := Run(c, s, front);
      var clock := if front == [] then now else Clock(front);
      StepKeeps(c, m, clock, r);
      WaitingStep(c, m, clock, r, key);
      SuffixJoin(Live(Run(c, s, rs).entries, key), Live(m.entries, key), Live(s.entries, key));
    }
  }

  lemma WaitingStep<K(!new)>(c: Limits, s: State<K>, now: real, r: Request<K>, key: K)
    requires ValidLimits(c) && Inv(c, s, now) && (r.key == key ==> !Allows(c, s.entries, r))
    ensures SuffixOf(Live(Check(c, s.entries, r), key), Live(s.entries, key))
  {
    hide Check, Live, BucketOk, HistoryOk, Bucket;
    if r.key == key {
      LiveOfKey(c, s.entries, s.allowed, r);
      FreshReads(Live(s.entries, key), r.time - c.window);
    } else {
      LiveOfOthers(c, s.entries, r, key);
    }
  }

  // A blocked check leaves the full bucket behind.
  lemma BlockedBucket<K(!new)>(c: Limits, s: State<K>, now: real, r: Request<K>)
    requires ValidLimits(c) && Inv(c, s, now) && !Allows(c, s.entries, r)
    ensures var b := Bucket(c, s.entries, r);
            && |b| == c.limit && b[0] > r.time - c.window && Live(Check(c, s.entries, r), r.key) == b
  {
    LiveOfKey(c, s.entries, s.allowed, r);
    BucketOfKey(c, s.entries, s.allowed, r);
  }

  /** Whoever waits as long as he is told is let through, whatever others do meanwhile and however often he is refused.
      */
  lemma RetrySucceeds<K(!new)>(c: Limits, s: State<K>, now: real, r: Request<K>, rs: seq<Request<K>>, later: Request<K>)
    requires ValidLimits(c) && Inv(c, s, now) && now <= r.time && !Allows(c, s.entries, r)
    requires After(r.time, rs) && NoneAllowed(c, Step(c, s, r), rs, r.key) && (rs != [] ==> Clock(rs) <= later.time)
    requires later.key == r.key && later.time >= r.time + RetryAfter(c, s.entries, r)
    ensures Allows(c, Run(c, Step(c, s, r), rs).entries, later)
  {
    hide Check, Others, Live, Inv, Bucket, SuffixOf, After, NoneAllowed, Run;
    BlockedBucket(c, s, now, r);
    StepKeeps(c, s, now, r);
    WaitingKeeps(c, Step(c, s, r), r.time, rs, r.key);
    WaitedEnough(c, Run(c, Step(c, s, r), rs), if rs == [] then r.time else Clock(rs), Bucket(c, s.entries, r), later);
  }

  // What is left of a full bucket whose first event has expired is not full.
  lemma WaitedEnough<K(!new)>(c: Limits, t: State<K>, now: real, b: seq<real>, later: Request<K>)
    requires ValidLimits(c) && Inv(c, t, now) && SuffixOf(Live(t.entries, later.key), b)
    requires |b| == c.limit && b[0] <= later.time - c.window
    ensures Allows(c, t.entries, later)
  {
    hide Check, Live, BucketsOk, HistoryOk, Bucket, Fresh, SuffixOf;
    LiveOfKey(c, t.entries, t.allowed, later);
    FirstExpired(Live(t.entries, later.key), b, later.time - c.window);
  }

  lemma FirstExpired(live: seq<real>, b: seq<real>, cutoff: real)
    requires SuffixOf(live, b) && b != [] && b[0] <= cutoff
    ensures |Fresh(live, cutoff)| < |b|
  {
    if live != [] && |live| == |b| {
      assert live[0] == b[0];
      FreshReads(live[1..], cutoff);
    } else {
      FreshReads(live, cutoff);
    }
  }

  /** And no sooner: a wait longer than a thousandth of a second is never longer than it has to be. */
  lemma RetryIsTight<K(!new)>(c: Limits, s: State<K>, now: real, r: Request<K>, later: Request<K>)
    requires ValidLimits(c) && Inv(c, s, now) && now <= r.time && !Allows(c, s.entries, r)
    requires later.key == r.key && r.time <= later.time < r.time + RetryAfter(c, s.entries, r)
    requires RetryAfter(c, s.entries, r) > 0.001
    ensures !Allows(c, Check(c, s.entries, r), later)
  {
    hide Check, Others, Live, BucketsOk, HistoryOk;
    BlockedBucket(c, s, now, r);
    StepKeeps(c, s, now, r);
    var t := Step(c, s, r);
    LiveOfKey(c, t.entries, t.allowed, later);
  }

  /** Whoever is let through is not told to wait; whoever is not, is told at least a thousandth of a second, and no more
      than that and the window. */
  lemma WaitsOnlyIfBlocked<K(!new)>(c: Limits, s: State<K>, now: real, r: Request<K>)
    requires ValidLimits(c) && Inv(c, s, now) && now <= r.time
    ensures RetryAfter(c, s.entries, r) == 0.0 <==> Allows(c, s.entries, r)
    ensures !Allows(c, s.entries, r) ==> 0.001 <= RetryAfter(c, s.entries, r) <= 0.001 + c.window
  {
    if !Allows(c, s.entries, r) {
      BucketInPast(c, s, now, r);
    }
  }

  lemma BucketInPast<K(!new)>(c: Limits, s: State<K>, now: real, r: Request<K>)
    requires ValidLimits(c) && Inv(c, s, now) && now <= r.time && !Allows(c, s.entries, r)
    ensures Bucket(c, s.entries, r)[0] <= r.time
  {
    hide Fresh;
    var p := Position(s.entries, r.key);
    var e := s.entries[p];
    assert BucketOk(c, e, s.allowed) && Ascending(Times(s.allowed, e.key), now);
    FreshReads(e.events, r.time - c.window);
  }

  // ---- Least recently seen first ----------------------------------------------------------

  ghost function LastSeen<K>(rs: seq<Request<K>>, key: K): int {
    if rs == [] then -1 else if rs[|rs| - 1].key == key then |rs| - 1 else LastSeen(rs[..|rs| - 1], key)
  }

  lemma {:induction false} LastSeenBound<K>(rs: seq<Request<K>>, key: K)
    ensures -1 <= LastSeen(rs, key) < |rs|
  {
    if rs != [] {
      LastSeenBound(rs[..|rs| - 1], key);
    }
  }

  lemma LastSeenStep<K>(rs: seq<Request<K>>, r: Request<K>, key: K)
    ensures LastSeen(rs + [r], key) == if r.key == key then |rs| else LastSeen(rs, key)
  {
    assert (rs + [r])[..|rs|] == rs;
  }

  /** The entries are in the order in which their keys were last seen, and every key without entry was last seen before
      every key with one. */
  ghost predicate MostRecent<K(!new)>(es: seq<Entry<K>>, rs: seq<Request<K>>) {
    && (forall i, j :: 0 <= i < j < |es| ==> LastSeen(rs, es[i].key) < LastSeen(rs, es[j].key))
    && forall i, key :: 0 <= i < |es| && !Stored(es, key) ==> LastSeen(rs, key) < LastSeen(rs, es[i].key)
  }

  // Where the i-th entry that is kept stood before the check.
  function From(stored: bool, p: nat, q: nat, i: nat): nat {
    if stored then if i < p then i else i + 1 else q + i
  }

  lemma KeptFrom<K>(c: Limits, es: seq<Entry<K>>, r: Request<K>) returns (q: nat)
    requires ValidLimits(c)
    ensures q <= |es| && (Stored(es, r.key) ==> q == 0)
    ensures var o, p := Others(c, es, r), Position(es, r.key); |o| == if p < |es| then |es| - 1 else |es| - q
    ensures forall i :: 0 <= i < |Others(c, es, r)| ==>
              var f := From(Stored(es, r.key), Position(es, r.key), q, i);
              f < |es| && Others(c, es, r)[i].key == es[f].key
  {
    hide Others;
    if Stored(es, r.key) {
      RemovedAt(c, es, r);
      q := 0;
    } else {
      q := OthersAt(c, es, r);
    }
  }

  lemma StaysStored<K>(c: Limits, es: seq<Entry<K>>, r: Request<K>, k: nat)
    requires ValidLimits(c) && k < |es| && (!Stored(es, r.key) ==> k >= |es| - |Others(c, es, r)|)
    ensures Stored(Check(c, es, r), es[k].key)
  {
    hide Others, Bucket;
    var o, t, p := Others(c, es, r), Check(c, es, r), Position(es, r.key);
    var q := KeptFrom(c, es, r);
    if p < |es| {
      if k != p {
        var n := if k < p then k else k - 1;
        assert t[n] == o[n];
      } else {
        assert t[|o|].key == r.key;
      }
    } else {
      assert t[k - q] == o[k - q];
    }
  }

  // A key that has lost its entry, or never had one, is older than those that keep theirs.
  lemma GoneIsOlder<K(!new)>(c: Limits, es: seq<Entry<K>>, rs: seq<Request<K>>, r: Request<K>, key: K, i: nat)
    requires ValidLimits(c) && MostRecent(es, rs) && !Stored(Check(c, es, r), key) && i < |Others(c, es, r)|
    ensures LastSeen(rs, key) < LastSeen(rs, Others(c, es, r)[i].key)
  {
    hide Others, Bucket, LastSeen, Check;
    var p, k := Position(es, r.key), Position(es, key);
    var q := KeptFrom(c, es, r);
    var f := From(Stored(es, r.key), p, q, i);
    if k < |es| && (p < |es| || k >= q) {
      StaysStored(c, es, r, k);
    }
    assert f < |es| && Others(c, es, r)[i].key == es[f].key;
  }

  // What is kept was seen when it was, and in the same order.
  lemma KeptSeen<K(!new)>(c: Limits, es: seq<Entry<K>>, rs: seq<Request<K>>, r: Request<K>)
    requires ValidLimits(c) && MostRecent(es, rs)
    ensures var o := Others(c, es, r);
            && (forall i :: 0 <= i < |o| ==> LastSeen(rs + [r], o[i].key) == LastSeen(rs, o[i].key) < |rs|)
            && forall i, j :: 0 <= i < j < |o| ==> LastSeen(rs, o[i].key) < LastSeen(rs, o[j].key)
  {
    hide Others, LastSeen;
    var o, p := Others(c, es, r), Position(es, r.key);
    var q := KeptFrom(c, es, r);
    forall i | 0 <= i < |o|
      ensures LastSeen(rs + [r], o[i].key) == LastSeen(rs, o[i].key) < |rs|
    {
      assert o[i].key == es[From(Stored(es, r.key), p, q, i)].key;
      assert o[i].key != r.key;
      LastSeenStep(rs, r, o[i].key);
      LastSeenBound(rs, o[i].key);
    }
    forall i, j | 0 <= i < j < |o|
      ensures LastSeen(rs, o[i].key) < LastSeen(rs, o[j].key)
    {
      assert o[i].key == es[From(Stored(es, r.key), p, q, i)].key;
      assert o[j].key == es[From(Stored(es, r.key), p, q, j)].key;
    }
  }

  /** Every check leaves the table with exactly the most recently seen keys, oldest first. */
  lemma StepMostRecent<K(!new)>(c: Limits, es: seq<Entry<K>>, rs: seq<Request<K>>, r: Request<K>)
    requires ValidLimits(c) && MostRecent(es, rs)
    ensures MostRecent(Check(c, es, r), rs + [r])
  {
    hide Others, Bucket, LastSeen;
    var o, t := Others(c, es, r), Check(c, es, r);
    KeptSeen(c, es, rs, r);
    assert t[|o|].key == r.key;
    LastSeenStep(rs, r, r.key);
    forall i, j | 0 <= i < j < |t|
      ensures LastSeen(rs + [r], t[i].key) < LastSeen(rs + [r], t[j].key)
    {
      assert t[i] == o[i];
    }
    forall i, key | 0 <= i < |t| && !Stored(t, key)
      ensures LastSeen(rs + [r], key) < LastSeen(rs + [r], t[i].key)
    {
      LastSeenStep(rs, r, key);
      LastSeenBound(rs, key);
      if i < |o| {
        GoneIsOlder(c, es, rs, r, key, i);
      }
    }
  }

  lemma {:induction false} RunMostRecent<K(!new)>(c: Limits, rs: seq<Request<K>>)
    requires ValidLimits(c)
    ensures MostRecent(Run(c, Start(), rs).entries, rs)
    decreases |rs|
  {
    hide Check, MostRecent;
    if rs == [] {
      NoneRecent<K>();
    } else {
      RunMostRecent(c, rs[..|rs| - 1]);
      StepMostRecent(c, Run(c, Start(), rs[..|rs| - 1]).entries, rs[..|rs| - 1], rs[|rs| - 1]);
      assert rs[..|rs| - 1] + [rs[|rs| - 1]] == rs;
    }
  }

  lemma NoneRecent<K(!new)>()
    ensures MostRecent<K>([], [])
  {}

  // ---- What is not promised ---------------------------------------------------------------

  lemma CheckLone<K>(c: Limits, es: seq<Entry<K>>, r: Request<K>)
    requires ValidLimits(c) && Others(c, es, r) == [] && Bucket(c, es, r) == []
    ensures Check(c, es, r) == [Entry(r.key, [r.time])] && Allows(c, es, r)
  {
    assert [] + [r.time] == [r.time];
  }

  const TIGHT := Limits(1, 10.0, 1)

  const FIRST := Request(0, 0.0)

  const OTHER := Request(1, 1.0)

  const AGAIN := Request(0, 2.0)

  const LAST := Request(0, 10.5)

  lemma TablesOfExample()
    ensures Run(TIGHT, Start<int>(), [FIRST]).entries == [Entry(0, [0.0])]
    ensures Run(TIGHT, Start<int>(), [FIRST, OTHER]).entries == [Entry(1, [1.0])]
    ensures Run(TIGHT, Start<int>(), [FIRST, OTHER, AGAIN]).entries == [Entry(0, [2.0])]
  {
    hide Check;
    var none: seq<Entry<int>> := [];
    assert [FIRST][..0] == [] && [FIRST, OTHER][..1] == [FIRST] && [FIRST, OTHER, AGAIN][..2] == [FIRST, OTHER];
    CheckLone(TIGHT, none, FIRST);
    assert Purge([Entry(0, [0.0])], -9.0) == [Entry(0, [0.0])];
    CheckLone(TIGHT, [Entry(0, [0.0])], OTHER);
    assert Purge([Entry(1, [1.0])], -8.0) == [Entry(1, [1.0])];
    CheckLone(TIGHT, [Entry(1, [1.0])], AGAIN);
  }

  lemma IdealOfExample()
    ensures Ideal(TIGHT, [FIRST, OTHER]) == [FIRST, OTHER] == Ideal(TIGHT, [FIRST, OTHER, AGAIN])
    ensures !HistoryAllows(TIGHT, [FIRST, OTHER], AGAIN) && HistoryAllows(TIGHT, [FIRST, OTHER], LAST)
  {
    assert [FIRST][..0] == [] && [FIRST, OTHER][..1] == [FIRST] && [FIRST, OTHER, AGAIN][..2] == [FIRST, OTHER];
    assert Recent([FIRST], 1, -9.0) == 0 && Recent([FIRST], 0, -8.0) == 1 && Recent([FIRST], 0, 0.5) == 0;
    assert Ideal(TIGHT, [FIRST]) == [FIRST];
  }

  /** Once a live entry has been dropped, the limiter can be out of step with the unbounded window in both directions:
      with room for one key and one request in ten seconds, it lets through the third request, and refuses a later one
      that the unbounded window lets through. */
  lemma ForcedDiffers()
    ensures !NeverForced(TIGHT, [FIRST, OTHER])
    ensures Allows(TIGHT, Run(TIGHT, Start(), [FIRST, OTHER]).entries, AGAIN)
            && !HistoryAllows(TIGHT, Ideal(TIGHT, [FIRST, OTHER]), AGAIN)
    ensures !Allows(TIGHT, Run(TIGHT, Start(), [FIRST, OTHER, AGAIN]).entries, LAST)
            && HistoryAllows(TIGHT, Ideal(TIGHT, [FIRST, OTHER, AGAIN]), LAST)
  {
    hide Run, Ideal, Recent;
    TablesOfExample();
    IdealOfExample();
    assert [FIRST, OTHER][..1] == [FIRST];
    assert Purge([Entry(0, [0.0])], -9.0) == [Entry(0, [0.0])];
  }
}
