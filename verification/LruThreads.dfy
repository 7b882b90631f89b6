/**
 Any number of threads calling a function through one bounded LRU cache. A call is a lookup section and,
 on a miss, the user function, run outside the lock, and an insert section; the sections of different
 threads, and clears, interleave in any way. The sections do to the order of entries what
 `LruCaches.LruCache.Lookup`, `Insert` and `Clear` are proved to do.
 */
module LruThreads {
  import opened LruOrder
  import opened LruKeys

  datatype Thread<V> = Idle | Computing(call: Call) | Returned(call: Call, value: V)

  datatype State<V> = State(order: seq<Entry<Key, V>>, threads: seq<Thread<V>>, hits: nat, misses: nat)

  datatype Settings<!V> = Settings(maxsize: nat, typed: bool, fast: set<Obj>, f: Call -> V)

  datatype Act = Lookup(thread: nat, call: Call) | Insert(thread: nat) | Clear

  ghost predicate Enabled<V>(x: Settings<V>, s: State<V>, a: Act) {
    match a
    case Lookup(t, call) => t < |s.threads| && !s.threads[t].Computing? && ValidCall(call)
    case Insert(t) => t < |s.threads| && s.threads[t].Computing?
    case Clear => true
  }

  ghost function Next<V>(x: Settings<V>, s: State<V>, a: Act): State<V>
    requires 0 < x.maxsize && Enabled(x, s, a)
  {
    match a
    case Lookup(t, call) =>
      var key := KeyOf(call, x.typed, x.fast);
      var found := Find(s.order, key);
      if found.Some? then
        s.(order := Touch(s.order, key), threads := s.threads[t := Returned(call, found.value)], hits := s.hits + 1)
      else
        s.(threads := s.threads[t := Computing(call)])
    case Insert(t) =>
      var call := s.threads[t].call;
      var value := x.f(call);
      s.(order := Store(s.order, x.maxsize, KeyOf(call, x.typed, x.fast), value),
         threads := s.threads[t := Returned(call, value)], misses := s.misses + 1)
    case Clear => s.(order := [], hits := 0, misses := 0)
  }

  ghost predicate Init<V>(s: State<V>) {
    s.order == [] && s.hits == 0 && s.misses == 0 && forall t :: 0 <= t < |s.threads| ==> s.threads[t].Idle?
  }

  ghost predicate Schedule<V>(x: Settings<V>, s: State<V>, acts: seq<Act>)
    requires 0 < x.maxsize
    decreases |acts|
  {
    acts != [] ==> Enabled(x, s, acts[0]) && Schedule(x, Next(x, s, acts[0]), acts[1..])
  }

  ghost function After<V>(x: Settings<V>, s: State<V>, acts: seq<Act>): State<V>
    requires 0 < x.maxsize && Schedule(x, s, acts)
    decreases |acts|
  {
    if acts == [] then s else After(x, Next(x, s, acts[0]), acts[1..])
  }

  /** An entry holds the value of the function for every call that has its key. */
  ghost predicate Honest<V(!new)>(x: Settings<V>, e: Entry<Key, V>) {
    forall c :: ValidCall(c) && KeyOf(c, x.typed, x.fast) == e.key ==> e.value == x.f(c)
  }

  ghost predicate ThreadOk<V>(x: Settings<V>, t: Thread<V>) {
    (!t.Idle? ==> ValidCall(t.call)) && (t.Returned? ==> t.value == x.f(t.call))
  }

  ghost predicate Inv<V(!new)>(x: Settings<V>, s: State<V>) {
    && |s.order| <= x.maxsize && NoRepeats(Keys(s.order))
    && (forall e :: e in s.order ==> Honest(x, e))
    && (forall t :: 0 <= t < |s.threads| ==> ThreadOk(x, s.threads[t]))
  }

  lemma {:induction false} LookupInv<V(!new)>(x: Settings<V>, s: State<V>, t: nat, call: Call)
    requires 0 < x.maxsize && Inv(x, s) && Enabled(x, s, Lookup(t, call))
    ensures Inv(x, Next(x, s, Lookup(t, call)))
  {
    var key := KeyOf(call, x.typed, x.fast);
    FindInKeys(s.order, key);
    if Find(s.order, key).Some? {
      var e := Entry(key, Find(s.order, key).value);
      assert Honest(x, e);
      DropAppendNoRepeats(Keys(s.order), key);
      assert Keys(Touch(s.order, key)) == Drop(Keys(s.order), key) + [key];
      DropLength(Keys(s.order), key);
    }
  }

  lemma {:induction false} DropLength<K>(keys: seq<K>, key: K)
    requires key in keys
    ensures |Drop(keys, key)| == |keys| - 1
  {
    if keys[0] != key {
      DropLength(keys[1..], key);
    }
  }

  lemma {:induction false} InsertInv<V(!new)>(x: Settings<V>, s: State<V>, t: nat)
    requires 0 < x.maxsize && Deterministic(x.f, x.typed) && Inv(x, s) && Enabled(x, s, Insert(t))
    ensures Inv(x, Next(x, s, Insert(t)))
  {
    var call := s.threads[t].call;
    var key := KeyOf(call, x.typed, x.fast);
    FindInKeys(s.order, key);
    forall c | ValidCall(c) && KeyOf(c, x.typed, x.fast) == key
      ensures x.f(c) == x.f(call)
    {
      SameKeyIffSameCall(c, call, x.typed, x.fast);
    }
    assert Honest(x, Entry(key, x.f(call)));
    if Find(s.order, key).None? {
      StoreKeys(s.order, x.maxsize, key, x.f(call));
    }
  }

  lemma {:induction false} StoreKeys<V>(o: seq<Entry<Key, V>>, maxsize: nat, key: Key, value: V)
    requires 0 < maxsize && Find(o, key).None? && key !in Keys(o) && NoRepeats(Keys(o)) && |o| <= maxsize
    ensures |Store(o, maxsize, key, value)| <= maxsize && NoRepeats(Keys(Store(o, maxsize, key, value)))
    ensures forall e :: e in Store(o, maxsize, key, value) ==> e in o || e == Entry(key, value)
  {
    var kept := if maxsize <= |o| then Keys(o)[1..] else Keys(o);
    assert Keys(Store(o, maxsize, key, value)) == kept + [key];
    assert forall i :: 0 <= i < |kept| ==> kept[i] in Keys(o);
  }

  /**
   Every result that a thread has returned is the value of the user function on its own arguments, and the
   cache never outgrows its size or holds a key twice: in every interleaving.
   */
  lemma {:induction false} EveryRunIsRight<V(!new)>(x: Settings<V>, s: State<V>, acts: seq<Act>)
    requires 0 < x.maxsize && Deterministic(x.f, x.typed) && Inv(x, s) && Schedule(x, s, acts)
    ensures Inv(x, After(x, s, acts))
    decreases |acts|
  {
    if acts != [] {
      match acts[0] {
        case Lookup(t, call) => LookupInv(x, s, t, call);
        case Insert(t) => InsertInv(x, s, t);
        case Clear =>
      }
      EveryRunIsRight(x, Next(x, s, acts[0]), acts[1..]);
    }
  }

  /** The inserts since the last clear, or all of them and `before` if there is none. */
  function InsertsSince(acts: seq<Act>, before: nat): nat {
    if acts == [] then before
    else InsertsSince(acts[1..], match acts[0] case Clear => 0 case Insert(_) => before + 1 case _ => before)
  }

  function LookupsSince(acts: seq<Act>, before: nat): nat {
    if acts == [] then before
    else LookupsSince(acts[1..], match acts[0] case Clear => 0 case Lookup(_, _) => before + 1 case _ => before)
  }

  /** How many threads are between their lookup and their insert. */
  function Waiting<V>(threads: seq<Thread<V>>): nat {
    if threads == [] then 0 else Waiting(threads[..|threads| - 1]) + if threads[|threads| - 1].Computing? then 1 else 0
  }

  /** How many were at the last clear. */
  ghost function WaitingAtClear<V>(x: Settings<V>, s: State<V>, acts: seq<Act>, before: nat): nat
    requires 0 < x.maxsize && Schedule(x, s, acts)
    decreases |acts|
  {
    if acts == [] then before
    else WaitingAtClear(x, Next(x, s, acts[0]), acts[1..], if acts[0].Clear? then Waiting(s.threads) else before)
  }

  lemma {:induction false} WaitingAfter<V>(threads: seq<Thread<V>>, t: nat, thread: Thread<V>)
    requires t < |threads|
    ensures Waiting(threads[t := thread]) + (if threads[t].Computing? then 1 else 0) == Waiting(threads) + (if thread.Computing? then 1 else 0)
  {
    var n := |threads| - 1;
    if t < n {
      WaitingAfter(threads[..n], t, thread);
      assert threads[t := thread][..n] == threads[..n][t := thread];
    } else {
      assert threads[t := thread][..n] == threads[..n];
    }
  }

  /** One act: a hit counts a lookup, a miss sets its thread to wait, an insert ends the wait and counts. */
  lemma {:induction false} CountersStep<V>(x: Settings<V>, s: State<V>, a: Act)
    requires 0 < x.maxsize && Enabled(x, s, a)
    ensures var e := Next(x, s, a);
            if a.Clear? then e.hits == 0 && e.misses == 0 && e.threads == s.threads
            else
              && e.misses == s.misses + (if a.Insert? then 1 else 0)
              && e.hits + e.misses + Waiting(e.threads) == s.hits + s.misses + Waiting(s.threads) + (if a.Lookup? then 1 else 0)
  {
    if a.Clear? { return; }
    WaitingAfter(s.threads, a.thread, Next(x, s, a).threads[a.thread]);
  }

  lemma {:induction false} CountersFrom<V>(x: Settings<V>, s: State<V>, acts: seq<Act>, inserts: nat, lookups: nat, waiting: nat)
    requires 0 < x.maxsize && Schedule(x, s, acts)
    requires s.misses == inserts && s.hits + s.misses + Waiting(s.threads) == lookups + waiting
    ensures var e := After(x, s, acts);
            && e.misses == InsertsSince(acts, inserts)
            && e.hits + e.misses + Waiting(e.threads) == LookupsSince(acts, lookups) + WaitingAtClear(x, s, acts, waiting)
    decreases |acts|
  {
    hide Next, Enabled, Waiting;
    if acts != [] {
      var e := Next(x, s, acts[0]);
      CountersStep(x, s, acts[0]);
      if acts[0].Clear? {
        CountersFrom(x, e, acts[1..], 0, 0, Waiting(s.threads));
      } else {
        CountersFrom(x, e, acts[1..], e.misses, lookups + (if acts[0].Lookup? then 1 else 0), waiting);
      }
    }
  }

  /**
   The counters, from the acts of the schedule alone: the misses are the inserts since the last clear; and
   each lookup since then was a hit, led to one of these inserts, or its thread still computes, except that
   the threads that were computing at the clear insert without a lookup since.
   */
  lemma {:induction false} CountersSinceClear<V>(x: Settings<V>, s: State<V>, acts: seq<Act>)
    requires 0 < x.maxsize && Init(s) && Schedule(x, s, acts)
    ensures var e := After(x, s, acts);
            && e.misses == InsertsSince(acts, 0)
            && e.hits + e.misses + Waiting(e.threads) == LookupsSince(acts, 0) + WaitingAtClear(x, s, acts, 0)
  {
    NobodyWaits(s.threads);
    CountersFrom(x, s, acts, 0, 0, 0);
  }

  lemma {:induction false} NobodyWaits<V>(threads: seq<Thread<V>>)
    requires forall t :: 0 <= t < |threads| ==> threads[t].Idle?
    ensures Waiting(threads) == 0
  {
    if threads != [] {
      NobodyWaits(threads[..|threads| - 1]);
    }
  }

  lemma {:induction false} CallsReturnTheirValue<V(!new)>(x: Settings<V>, s: State<V>, acts: seq<Act>)
    requires 0 < x.maxsize && Deterministic(x.f, x.typed) && Init(s) && Schedule(x, s, acts)
    ensures var e := After(x, s, acts);
            && (forall t :: 0 <= t < |e.threads| && e.threads[t].Returned? ==> e.threads[t].value == x.f(e.threads[t].call))
            && |e.order| <= x.maxsize && NoRepeats(Keys(e.order))
  {
    EveryRunIsRight(x, s, acts);
  }

  // ---- what is cached, told from the acts alone ---------------------------------------------------

  /**
   The uses since the last clear: hits, and inserts of keys that are not there, where a key is there if it is
   one of the last maxsize keys by their last use. `asked` is the key of each thread's last lookup.
   */
  ghost function Uses<V>(x: Settings<V>, acts: seq<Act>, before: seq<Key>, asked: map<nat, Key>): seq<Key>
    decreases |acts|
  {
    if acts == [] then before
    else match acts[0]
      case Lookup(t, call) =>
        var key := KeyOf(call, x.typed, x.fast);
        Uses(x, acts[1..], if key in Last(Recency(before), x.maxsize) then before + [key] else before, asked[t := key])
      case Insert(t) =>
        Uses(x, acts[1..], if t in asked && asked[t] !in Last(Recency(before), x.maxsize) then before + [asked[t]] else before, asked)
      case Clear => Uses(x, acts[1..], [], asked)
  }

  ghost predicate Asked<V>(x: Settings<V>, threads: seq<Thread<V>>, asked: map<nat, Key>) {
    forall t: nat :: t < |threads| && threads[t].Computing? ==> t in asked && asked[t] == KeyOf(threads[t].call, x.typed, x.fast)
  }

  lemma {:induction false} UsedOnce<K>(uses: seq<K>, maxsize: nat, key: K)
    requires 0 < maxsize
    ensures Last(Recency(uses + [key]), maxsize) == KeysStep(Last(Recency(uses), maxsize), maxsize, key)
  {
    var now := uses + [key];
    assert now[..|now| - 1] == uses;
    RecencyNoRepeats(uses);
    LastOfRecency(Recency(uses), maxsize, key);
  }

  /** The keys after a hit and after an insert. */
  lemma {:induction false} SectionKeys<V>(o: seq<Entry<Key, V>>, maxsize: nat, key: Key, value: V)
    requires 0 < maxsize
    ensures Find(o, key).Some? <==> key in Keys(o)
    ensures key in Keys(o) ==> Keys(Touch(o, key)) == KeysStep(Keys(o), maxsize, key) && Store(o, maxsize, key, value) == o
    ensures key !in Keys(o) ==> Keys(Store(o, maxsize, key, value)) == KeysStep(Keys(o), maxsize, key)
  {
    FindInKeys(o, key);
  }

  lemma {:induction false} UsesFrom<V>(x: Settings<V>, s: State<V>, acts: seq<Act>, before: seq<Key>, asked: map<nat, Key>)
    requires 0 < x.maxsize && Schedule(x, s, acts)
    requires Keys(s.order) == Last(Recency(before), x.maxsize) && Asked(x, s.threads, asked)
    ensures Keys(After(x, s, acts).order) == Last(Recency(Uses(x, acts, before, asked)), x.maxsize)
    decreases |acts|
  {
    hide Last, Recency, KeyOf, Touch, Store, Find, KeysStep, Keys;
    if acts != [] {
      var e := Next(x, s, acts[0]);
      match acts[0] {
        case Lookup(t, call) =>
          var key := KeyOf(call, x.typed, x.fast);
          SectionKeys(s.order, x.maxsize, key, x.f(call));
          UsedOnce(before, x.maxsize, key);
          UsesFrom(x, e, acts[1..], if key in Keys(s.order) then before + [key] else before, asked[t := key]);
        case Insert(t) =>
          var call := s.threads[t].call;
          SectionKeys(s.order, x.maxsize, asked[t], x.f(call));
          UsedOnce(before, x.maxsize, asked[t]);
          UsesFrom(x, e, acts[1..], if asked[t] in Keys(s.order) then before else before + [asked[t]], asked);
        case Clear =>
          NothingUsed<V>(x.maxsize);
          UsesFrom(x, e, acts[1..], [], asked);
      }
    }
  }

  lemma {:induction false} NothingUsed<V>(maxsize: nat)
    ensures Keys<Key, V>([]) == Last(Recency<Key>([]), maxsize)
  {
  }

  /**
   In every interleaving, with any function: the cached keys are the last maxsize by their last use since the
   last clear, in this order. So an insert of a key that another thread has stored meanwhile changes nothing,
   and only a clear or an insert of an absent key into a full cache makes an entry leave.
   */
  lemma {:induction false} CachedAreLastUsed<V>(x: Settings<V>, s: State<V>, acts: seq<Act>)
    requires 0 < x.maxsize && Init(s) && Schedule(x, s, acts)
    ensures Keys(After(x, s, acts).order) == Last(Recency(Uses(x, acts, [], map[])), x.maxsize)
  {
    NothingUsed<V>(x.maxsize);
    UsesFrom(x, s, acts, [], map[]);
  }

  /** An entry stays through every act, with its value, but for a clear and an insert of an absent key into a full cache. */
  lemma {:induction false} EntriesStay<V>(x: Settings<V>, s: State<V>, a: Act, e: Entry<Key, V>)
    requires 0 < x.maxsize && Enabled(x, s, a) && Distinct(s.order) && e in s.order
    ensures e in Next(x, s, a).order <==>
      && !a.Clear?
      && (a.Insert? && x.maxsize <= |s.order| && e == s.order[0] ==> KeyOf(s.threads[a.thread].call, x.typed, x.fast) in Keys(s.order))
    ensures a.Insert? && KeyOf(s.threads[a.thread].call, x.typed, x.fast) in Keys(s.order) ==> Next(x, s, a).order == s.order
  {
    match a {
      case Lookup(t, call) =>
        var key := KeyOf(call, x.typed, x.fast);
        FindInKeys(s.order, key);
        if key in Keys(s.order) {
          var i := FindSomewhere(s.order, key);
          FindAt(s.order, key, i);
          var k :| 0 <= k < |s.order| && s.order[k] == e;
          assert k < i ==> Without(s.order, key)[k] == e;
          assert i < k ==> Without(s.order, key)[k - 1] == e;
        }
      case Insert(t) =>
        var key := KeyOf(s.threads[t].call, x.typed, x.fast);
        FindInKeys(s.order, key);
        if key !in Keys(s.order) {
          StoredEntries(s.order, x.maxsize, key, x.f(s.threads[t].call), e);
        }
      case Clear =>
    }
  }

  lemma {:induction false} StoredEntries<V>(o: seq<Entry<Key, V>>, maxsize: nat, key: Key, value: V, e: Entry<Key, V>)
    requires 0 < maxsize && Find(o, key).None? && key !in Keys(o) && Distinct(o) && e in o
    ensures e in Store(o, maxsize, key, value) <==> (maxsize <= |o| ==> e != o[0])
  {
    var k :| 0 <= k < |o| && o[k] == e;
    assert e.key == Keys(o)[k];
    if maxsize <= |o| {
      assert 0 < k ==> o[1..][k - 1] == e;
    }
  }

  /**
   The condition on the function is also necessary: if it tells two calls apart that the cache does not
   (3 and 3.0, say, unless `typed`), then some run of a single thread returns the wrong value.
   */
  lemma {:induction false} DeterminismIsNeeded<V(!new)>(x: Settings<V>, s: State<V>, c: Call, d: Call) returns (acts: seq<Act>)
    requires 0 < x.maxsize && Init(s) && 0 < |s.threads|
    requires ValidCall(c) && ValidCall(d) && SameCall(c, d, x.typed) && x.f(c) != x.f(d)
    ensures Schedule(x, s, acts)
    ensures 0 < |After(x, s, acts).threads| && After(x, s, acts).threads[0] == Returned(d, x.f(c))
  {
    SameKeyIffSameCall(c, d, x.typed, x.fast);
    acts := [Lookup(0, c), Insert(0), Lookup(0, d)];
    var s1 := Next(x, s, acts[0]);
    var s2 := Next(x, s1, acts[1]);
    var s3 := Next(x, s2, acts[2]);
    assert s3.threads[0] == Returned(d, x.f(c));
    assert acts[1..] == [Insert(0), Lookup(0, d)] && acts[1..][1..] == [Lookup(0, d)] && acts[1..][1..][1..] == [];
    assert Schedule(x, s3, []) && Schedule(x, s2, acts[1..][1..]) && Schedule(x, s1, acts[1..]);
    assert After(x, s2, acts[1..][1..]) == s3 && After(x, s1, acts[1..]) == s3;
  }
}
