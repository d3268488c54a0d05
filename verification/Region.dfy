/** The region cache: an entry per host with a lifetime, pruned as its URLs fail. Its meaning is given by the
    history of what was done to it. Times are clock readings in some fixed unit. */
module Region {
  import opened Base

  datatype CachedRegions = CachedRegions(urls: seq<string>, fetchedAt: nat, ttl: nat)

  datatype Cached = Fresh(urls: seq<string>) | Stale(urls: seq<string>) | Miss

  datatype Change =
    | Inserted(host: string, urls: seq<string>, maxAge: Option<nat>, at: nat)
    | MarkedFailed(host: string, url: string)
    | Invalidated(host: string)
    | Cleared

  // ---- What a history says about a host ----

  /** The latest insertion for `host` that nothing has wiped out since. */
  function LastInsert(history: seq<Change>, host: string): (i: Option<nat>)
    ensures i.Some? ==> i.value < |history| && history[i.value].Inserted? && history[i.value].host == host
  {
    if history == [] then None
    else
      var n := |history| - 1;
      match history[n]
      case Inserted(h, _, _, _) => if h == host then Some(n) else LastInsert(history[..n], host)
      case Invalidated(h) => if h == host then None else LastInsert(history[..n], host)
      case Cleared => None
      case MarkedFailed(_, _) => LastInsert(history[..n], host)
  }

  /** The URLs of `host` marked failed after position `i`. */
  function FailedSince(history: seq<Change>, i: nat, host: string): set<string> {
    set j | i < j < |history| && history[j].MarkedFailed? && history[j].host == host :: history[j].url
  }

  /** `urls` in order, minus the failed ones. */
  function Surviving(urls: seq<string>, failed: set<string>): seq<string> {
    if urls == [] then []
    else if urls[0] in failed then Surviving(urls[1..], failed)
    else [urls[0]] + Surviving(urls[1..], failed)
  }

  /** What should be known about `host`: its last inserted list minus the failures since, unless a failure
      left nothing of it. */
  function Remembered(history: seq<Change>, host: string, defaultTtl: nat): Option<CachedRegions> {
    var i := LastInsert(history, host);
    if i.None? then None
    else
      var c := history[i.value];
      var failed := FailedSince(history, i.value, host);
      var urls := Surviving(c.urls, failed);
      if failed != {} && urls == [] then None
      else Some(CachedRegions(urls, c.at, if c.maxAge.Some? then c.maxAge.value else defaultTtl))
  }

  /** How an entry looks at time `now`. The clock difference does not go below zero. */
  function LookAt(entry: Option<CachedRegions>, now: nat): Cached {
    match entry
    case None => Miss
    case Some(e) =>
      var elapsed := if now >= e.fetchedAt then now - e.fetchedAt else 0;
      if elapsed < e.ttl then Fresh(e.urls) else Stale(e.urls)
  }

  // ---- The cache ----

  class RegionCache {
    const defaultTtl: nat
    var entries: map<string, CachedRegions>
    ghost var history: seq<Change>

    ghost function EntryOf(host: string): Option<CachedRegions>
      reads this
    {
      if host in entries then Some(entries[host]) else None
    }

    /** The cache knows, for every host, exactly what its history says. */
    ghost predicate Valid()
      reads this
    {
      forall host :: EntryOf(host) == Remembered(history, host, defaultTtl)
    }

    constructor (defaultTtl: nat)
      ensures Valid() && history == [] && this.defaultTtl == defaultTtl
    {
      this.defaultTtl := defaultTtl;
      entries := map[];
      history := [];
    }

    method Get(host: string, now: nat) returns (r: Cached)
      requires Valid()
      ensures r == LookAt(Remembered(history, host, defaultTtl), now)
    {
      assert EntryOf(host) == Remembered(history, host, defaultTtl);
      if host !in entries {
        return Miss;
      }
      var e := entries[host];
      var elapsed := if now >= e.fetchedAt then now - e.fetchedAt else 0;
      if elapsed < e.ttl {
        return Fresh(e.urls);
      }
      return Stale(e.urls);
    }

    method Insert(host: string, urls: seq<string>, maxAge: Option<nat>, now: nat)
      requires Valid()
      modifies this
      ensures Valid() && history == old(history) + [Inserted(host, urls, maxAge, now)]
    {
      var ttl := if maxAge.Some? then maxAge.value else defaultTtl;
      entries := entries[host := CachedRegions(urls, now, ttl)];
      history := history + [Inserted(host, urls, maxAge, now)];
      forall h
        ensures EntryOf(h) == Remembered(history, h, defaultTtl)
      {
        assert old(EntryOf(h)) == Remembered(old(history), h, defaultTtl);
        AfterChange(old(history), Inserted(host, urls, maxAge, now), h, defaultTtl);
      }
    }

    method MarkFailed(host: string, failedUrl: string)
      requires Valid()
      modifies this
      ensures Valid() && history == old(history) + [MarkedFailed(host, failedUrl)]
    {
      if host in entries {
        var entry := entries[host];
        var urls := Retain(entry.urls, failedUrl);
        if urls == [] {
          entries := entries - {host};
        } else {
          entries := entries[host := entry.(urls := urls)];
        }
      }
      history := history + [MarkedFailed(host, failedUrl)];
      forall h
        ensures EntryOf(h) == Remembered(history, h, defaultTtl)
      {
        assert old(EntryOf(h)) == Remembered(old(history), h, defaultTtl);
        AfterChange(old(history), MarkedFailed(host, failedUrl), h, defaultTtl);
      }
    }

    method Invalidate(host: string)
      requires Valid()
      modifies this
      ensures Valid() && history == old(history) + [Invalidated(host)]
    {
      entries := entries - {host};
      history := history + [Invalidated(host)];
      forall h
        ensures EntryOf(h) == Remembered(history, h, defaultTtl)
      {
        assert old(EntryOf(h)) == Remembered(old(history), h, defaultTtl);
        AfterChange(old(history), Invalidated(host), h, defaultTtl);
      }
    }

    method Clear()
      requires Valid()
      modifies this
      ensures Valid() && history == old(history) + [Cleared]
    {
      entries := map[];
      history := history + [Cleared];
      forall h
        ensures EntryOf(h) == Remembered(history, h, defaultTtl)
      {
        AfterChange(old(history), Cleared, h, defaultTtl);
      }
    }
  }

  /** `Vec::retain`, in one pass. */
  method Retain(urls: seq<string>, failedUrl: string) returns (kept: seq<string>)
    ensures kept == Surviving(urls, {failedUrl})
  {
    kept := [];
    var i := |urls|;
    while i > 0
      invariant 0 <= i <= |urls|
      invariant kept == Surviving(urls[i..], {failedUrl})
    {
      i := i - 1;
      assert urls[i..][1..] == urls[i + 1..];
      if urls[i] != failedUrl {
        kept := [urls[i]] + kept;
      }
    }
    assert urls[0..] == urls;
  }

  // ---- One more change ----

  /** Pruning once more prunes the pruned list. */
  lemma {:induction false} SurvivingTwice(urls: seq<string>, failed: set<string>, more: set<string>)
    ensures Surviving(urls, failed + more) == Surviving(Surviving(urls, failed), more)
  {
    if urls != [] {
      SurvivingTwice(urls[1..], failed, more);
      if urls[0] !in failed {
        assert ([urls[0]] + Surviving(urls[1..], failed))[1..] == Surviving(urls[1..], failed);
      }
    }
  }

  lemma {:induction false} SurvivingAll(urls: seq<string>)
    ensures Surviving(urls, {}) == urls
  {
    if urls != [] {
      SurvivingAll(urls[1..]);
    }
  }

  /** What one change does to what is remembered. */
  function Changed(known: Option<CachedRegions>, c: Change, host: string, defaultTtl: nat): Option<CachedRegions> {
    match c
    case Inserted(h, urls, maxAge, at) =>
      if h == host then Some(CachedRegions(urls, at, if maxAge.Some? then maxAge.value else defaultTtl)) else known
    case MarkedFailed(h, url) =>
      if h != host || known.None? then known
      else
        var urls := Surviving(known.value.urls, {url});
        if urls == [] then None else Some(known.value.(urls := urls))
    case Invalidated(h) => if h == host then None else known
    case Cleared => None
  }

  lemma AfterChange(history: seq<Change>, c: Change, host: string, defaultTtl: nat)
    ensures Remembered(history + [c], host, defaultTtl)
         == Changed(Remembered(history, host, defaultTtl), c, host, defaultTtl)
  {
    var history', n := history + [c], |history|;
    assert history'[..n] == history && history'[n] == c;
    var i := LastInsert(history', host);
    if i.Some? && i.value < n {
      var failed := FailedSince(history, i.value, host);
      assert LastInsert(history, host) == i;
      if c.MarkedFailed? && c.host == host {
        assert FailedSince(history', i.value, host) == failed + {c.url} by {
          assert history'[n].url in FailedSince(history', i.value, host);
          forall u | u in failed
            ensures u in FailedSince(history', i.value, host)
          {
            var j :| i.value < j < n && history[j].MarkedFailed? && history[j].host == host && history[j].url == u;
            assert history'[j] == history[j];
          }
        }
        SurvivingTwice(history[i.value].urls, failed, {c.url});
      } else {
        assert FailedSince(history', i.value, host) == failed by {
          forall u | u in failed
            ensures u in FailedSince(history', i.value, host)
          {
            var j :| i.value < j < n && history[j].MarkedFailed? && history[j].host == host && history[j].url == u;
            assert history'[j] == history[j];
          }
        }
      }
    } else if i.Some? {
      assert FailedSince(history', n, host) == {};
      SurvivingAll(c.urls);
    }
  }

  // ---- What lookups promise ----

  /** Change `c` wipes out what was inserted for `host` before it. */
  predicate Wipes(c: Change, host: string) {
    c == Cleared || c == Invalidated(host) || (c.Inserted? && c.host == host)
  }

  /** Exactly which insertion counts: one for the host that nothing after it wiped out. */
  lemma {:induction false} LastInsertIff(history: seq<Change>, host: string, i: nat)
    ensures LastInsert(history, host) == Some(i)
       <==> && i < |history| && history[i].Inserted? && history[i].host == host
            && forall j | i < j < |history| :: !Wipes(history[j], host)
  {
    if history != [] {
      var n := |history| - 1;
      LastInsertIff(history[..n], host, i);
      assert forall j | 0 <= j < n :: history[..n][j] == history[j];
      if LastInsert(history, host) == Some(i) && i < n {
        assert !Wipes(history[n], host);
      }
    }
  }

  /** And exactly which URLs have failed since: those marked for this host. */
  lemma FailedSinceIff(history: seq<Change>, i: nat, host: string, url: string)
    ensures url in FailedSince(history, i, host)
       <==> exists j | i < j < |history| :: history[j] == MarkedFailed(host, url)
  {
    if j :| i < j < |history| && history[j] == MarkedFailed(host, url) {
      assert history[j].MarkedFailed? && history[j].host == host && history[j].url == url;
    }
  }

  /** Some URL of `host` was marked failed since its insertion at `i`, and by now every one of its URLs was. */
  predicate EmptiedByFailures(history: seq<Change>, i: nat, host: string)
    requires i < |history| && history[i].Inserted?
  {
    var failed := FailedSince(history, i, host);
    failed != {} && forall u | u in history[i].urls :: u in failed
  }

  /** Exactly when a lookup finds nothing. */
  lemma MissIff(history: seq<Change>, host: string, defaultTtl: nat, now: nat)
    ensures LookAt(Remembered(history, host, defaultTtl), now) == Miss
       <==> (LastInsert(history, host).None? || EmptiedByFailures(history, LastInsert(history, host).value, host))
  {
    var i := LastInsert(history, host);
    if i.Some? {
      var urls, failed := history[i.value].urls, FailedSince(history, i.value, host);
      SurvivingMembers(urls, failed);
      if Surviving(urls, failed) != [] {
        assert Surviving(urls, failed)[0] in Surviving(urls, failed);
      }
    }
  }

  lemma {:induction false} SurvivingMembers(urls: seq<string>, failed: set<string>)
    ensures forall u :: u in Surviving(urls, failed) <==> u in urls && u !in failed
  {
    if urls != [] {
      SurvivingMembers(urls[1..], failed);
    }
  }

  predicate Subsequence(xs: seq<string>, ys: seq<string>) {
    if xs == [] then true
    else if ys == [] then false
    else (xs[0] == ys[0] && Subsequence(xs[1..], ys[1..])) || Subsequence(xs, ys[1..])
  }

  lemma {:induction false} SubsequenceTransitive(xs: seq<string>, ys: seq<string>, zs: seq<string>)
    requires Subsequence(xs, ys) && Subsequence(ys, zs)
    ensures Subsequence(xs, zs)
    decreases |ys| + |zs|
  {
    if xs != [] {
      if ys[0] == zs[0] && Subsequence(ys[1..], zs[1..]) {
        if xs[0] == ys[0] && Subsequence(xs[1..], ys[1..]) {
          SubsequenceTransitive(xs[1..], ys[1..], zs[1..]);
        } else {
          SubsequenceTransitive(xs, ys[1..], zs[1..]);
        }
      } else {
        SubsequenceTransitive(xs, ys, zs[1..]);
      }
    }
  }

  lemma {:induction false} SurvivingIsSubsequence(urls: seq<string>, failed: set<string>)
    ensures Subsequence(Surviving(urls, failed), urls)
  {
    if urls != [] {
      SurvivingIsSubsequence(urls[1..], failed);
      if urls[0] !in failed {
        assert ([urls[0]] + Surviving(urls[1..], failed))[1..] == Surviving(urls[1..], failed);
      }
    }
  }

  lemma {:induction false} SubsequenceReflexive(xs: seq<string>)
    ensures Subsequence(xs, xs)
  {
    if xs != [] {
      SubsequenceReflexive(xs[1..]);
    }
  }

  lemma {:induction false} SurvivingCounts(urls: seq<string>, failed: set<string>, u: string)
    ensures multiset(Surviving(urls, failed))[u] == if u in failed then 0 else multiset(urls)[u]
  {
    if urls != [] {
      SurvivingCounts(urls[1..], failed, u);
      assert urls == [urls[0]] + urls[1..];
    }
  }

  /** What a lookup finds, when it finds something: the URLs of the last insertion in their order, each as often as it
      was inserted unless it was marked failed since; fresh strictly before the entry's expiry; and an empty list only
      where one was inserted and nothing was marked since. */
  lemma FoundIs(history: seq<Change>, host: string, defaultTtl: nat, now: nat)
    requires !LookAt(Remembered(history, host, defaultTtl), now).Miss?
    ensures var r, c := LookAt(Remembered(history, host, defaultTtl), now), history[LastInsert(history, host).value];
            var failed := FailedSince(history, LastInsert(history, host).value, host);
            var ttl := if c.maxAge.Some? then c.maxAge.value else defaultTtl;
            && Subsequence(r.urls, c.urls)
            && (forall u :: multiset(r.urls)[u] == if u in failed then 0 else multiset(c.urls)[u])
            && (r.Fresh? <==> ttl > 0 && now < c.at + ttl)
            && (r.urls == [] <==> c.urls == [] && failed == {})
  {
    var c := history[LastInsert(history, host).value];
    var failed := FailedSince(history, LastInsert(history, host).value, host);
    SurvivingIsSubsequence(c.urls, failed);
    SurvivingAll(c.urls);
    forall u
      ensures multiset(Surviving(c.urls, failed))[u] == if u in failed then 0 else multiset(c.urls)[u]
    {
      SurvivingCounts(c.urls, failed, u);
    }
  }

  /** In particular, if only non-empty lists are inserted, no lookup returns an empty list. */
  lemma NeverEmpty(history: seq<Change>, host: string, defaultTtl: nat, now: nat)
    requires forall i | 0 <= i < |history| && history[i].Inserted? :: history[i].urls != []
    ensures var r := LookAt(Remembered(history, host, defaultTtl), now);
            r == Miss || r.urls != []
  {
    var i := LastInsert(history, host);
    if i.Some? {
      SurvivingAll(history[i.value].urls);
    }
  }

  /** And an entry is fresh up to its expiry and not at it; with a lifetime of zero it never is. */
  lemma FreshIff(history: seq<Change>, host: string, defaultTtl: nat, now: nat)
    ensures LookAt(Remembered(history, host, defaultTtl), now).Fresh?
       <==> (&& !LookAt(Remembered(history, host, defaultTtl), now).Miss?
             && var c := history[LastInsert(history, host).value];
                var ttl := if c.maxAge.Some? then c.maxAge.value else defaultTtl;
                ttl > 0 && now < c.at + ttl)
  {
  }

  /** `later` is what can be left of `earlier` without a new insertion: the same age and lifetime, fewer URLs. */
  predicate LeftOf(later: Option<CachedRegions>, earlier: Option<CachedRegions>) {
    later.Some? ==>
      && earlier.Some?
      && later.value.fetchedAt == earlier.value.fetchedAt && later.value.ttl == earlier.value.ttl
      && Subsequence(later.value.urls, earlier.value.urls)
  }

  /** Without an insertion for the host an entry only loses URLs; nothing extends its life or brings it back. */
  lemma {:induction false} OnlyShrinks(history: seq<Change>, more: seq<Change>, host: string, defaultTtl: nat)
    requires forall i | 0 <= i < |more| :: !(more[i].Inserted? && more[i].host == host)
    ensures LeftOf(Remembered(history + more, host, defaultTtl), Remembered(history, host, defaultTtl))
    decreases |more|
  {
    var earlier := Remembered(history, host, defaultTtl);
    if more == [] {
      assert history + more == history;
      if earlier.Some? {
        SubsequenceReflexive(earlier.value.urls);
      }
    } else {
      var n := |more| - 1;
      OnlyShrinks(history, more[..n], host, defaultTtl);
      assert history + more == (history + more[..n]) + [more[n]];
      var known := Remembered(history + more[..n], host, defaultTtl);
      AfterChange(history + more[..n], more[n], host, defaultTtl);
      if known.Some? && more[n].MarkedFailed? {
        SurvivingIsSubsequence(known.value.urls, {more[n].url});
        SubsequenceTransitive(Surviving(known.value.urls, {more[n].url}), known.value.urls, earlier.value.urls);
      }
    }
  }

  /** Once stale, a host stays stale or is missed until the next insertion, and once missed it stays missed. */
  lemma StaleStaysStale(history: seq<Change>, more: seq<Change>, host: string, defaultTtl: nat, now: nat, later: nat)
    requires forall i | 0 <= i < |more| :: !(more[i].Inserted? && more[i].host == host)
    requires now <= later
    ensures var r := LookAt(Remembered(history, host, defaultTtl), now);
            var r' := LookAt(Remembered(history + more, host, defaultTtl), later);
            && (r.Miss? ==> r'.Miss?)
            && (r.Stale? ==> r'.Stale? || r'.Miss?)
            && (!r'.Miss? ==> Subsequence(r'.urls, r.urls))
  {
    OnlyShrinks(history, more, host, defaultTtl);
  }
}
