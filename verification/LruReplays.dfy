/**
 Playing a schedule of sections on the cache as it is built: the runs of `LruThreads` are runs of
 `LruCaches.LruCache`, with the same order of entries, counters and results.
 */
module LruReplays {
  import opened LruCaches
  import opened LruKeys
  import opened LruThreads

  /** One section, by the thread that it names, or a clear. */
  method Play<V>(x: Settings<V>, cache: LruCache<Key, V>, threads: seq<Thread<V>>, a: Act, ghost s: State<V>)
    returns (now: seq<Thread<V>>)
    requires cache.Valid() && 0 < x.maxsize == cache.maxsize && Enabled(x, s, a)
    requires s == State(cache.order, threads, cache.hits, cache.misses)
    modifies cache, cache.ring
    ensures cache.Valid() && forall l :: l in cache.ring ==> l in old(cache.ring) || fresh(l)
    ensures State(cache.order, now, cache.hits, cache.misses) == Next(x, s, a)
  {
    hide cache.Valid;
    match a {
      case Lookup(t, call) =>
        var found := cache.Lookup(KeyOf(call, x.typed, x.fast));
        now := threads[t := if found.Some? then Returned(call, found.value) else Computing(call)];
      case Insert(t) =>
        var call := threads[t].call;
        var value := x.f(call);
        cache.Insert(KeyOf(call, x.typed, x.fast), value);
        now := threads[t := Returned(call, value)];
      case Clear =>
        RootInRing(cache);
        cache.Clear();
        now := threads;
    }
  }

  lemma {:induction false} RootInRing<V>(cache: LruCache<Key, V>)
    requires cache.Valid()
    ensures cache.root in cache.ring
  {
    assert cache.ring[0] == cache.root;
  }

  /**
   Any schedule, played on a cache section by section: the cache and the threads are in the end as the
   state machine has them.
   */
  method Replay<V>(x: Settings<V>, cache: LruCache<Key, V>, threads: seq<Thread<V>>, acts: seq<Act>, ghost s: State<V>)
    returns (end: seq<Thread<V>>)
    requires cache.Valid() && 0 < x.maxsize == cache.maxsize && Schedule(x, s, acts)
    requires s == State(cache.order, threads, cache.hits, cache.misses)
    modifies cache, cache.ring
    ensures cache.Valid() && forall l :: l in cache.ring ==> l in old(cache.ring) || fresh(l)
    ensures State(cache.order, end, cache.hits, cache.misses) == After(x, s, acts)
    decreases |acts|
  {
    hide cache.Valid, Next, Enabled;
    if acts == [] { return threads; }
    var now := Play(x, cache, threads, acts[0], s);
    assert forall i :: 0 <= i < |cache.ring| ==> cache.ring[i] in old(cache.ring) || fresh(cache.ring[i]);
    end := Replay(x, cache, now, acts[1..], Next(x, s, acts[0]));
  }
}
