/**
 The abstract state of the bounded LRU cache: its entries from the least to the most recently used, and
 what the two locked sections of a call do to them. Then: what is in the cache after any sequence of
 calls, stated by the calls alone, and how that depends on the size of the cache.
 */
module LruOrder {
  import opened Wrappers

  datatype Entry<K, V> = Entry(key: K, value: V)

  function Find<K(==), V>(o: seq<Entry<K, V>>, key: K): Option<V> {
    if o == [] then None else if o[0].key == key then Some(o[0].value) else Find(o[1..], key)
  }

  function Without<K(==), V>(o: seq<Entry<K, V>>, key: K): seq<Entry<K, V>> {
    if o == [] then [] else if o[0].key == key then o[1..] else [o[0]] + Without(o[1..], key)
  }

  ghost predicate Distinct<K, V>(o: seq<Entry<K, V>>) {
    forall i, j :: 0 <= i < j < |o| ==> o[i].key != o[j].key
  }

  /** A hit makes the key the most recently used one. */
  function Touch<K(==), V>(o: seq<Entry<K, V>>, key: K): seq<Entry<K, V>>
    requires Find(o, key).Some?
  {
    Without(o, key) + [Entry(key, Find(o, key).value)]
  }

  /** Storing a result: nothing if the key is there by now; a full cache loses its least recently used entry. */
  function Store<K(==), V>(o: seq<Entry<K, V>>, maxsize: nat, key: K, value: V): seq<Entry<K, V>>
    requires 0 < maxsize
  {
    if Find(o, key).Some? then o
    else (if maxsize <= |o| then o[1..] else o) + [Entry(key, value)]
  }

  lemma {:induction false} FindAt<K, V>(o: seq<Entry<K, V>>, key: K, i: nat)
    requires Distinct(o) && i < |o| && o[i].key == key
    ensures Find(o, key) == Some(o[i].value)
    ensures Without(o, key) == o[..i] + o[i + 1..]
  {
    if i != 0 {
      FindAt(o[1..], key, i - 1);
      assert o[0].key != key;
      assert [o[0]] + (o[1..][..i - 1] + o[1..][i..]) == o[..i] + o[i + 1..];
    }
  }

  lemma {:induction false} FindNowhere<K, V>(o: seq<Entry<K, V>>, key: K)
    requires forall i :: 0 <= i < |o| ==> o[i].key != key
    ensures Find(o, key) == None && Without(o, key) == o
  {
    if o != [] {
      FindNowhere(o[1..], key);
    }
  }

  lemma {:induction false} FindSomewhere<K, V>(o: seq<Entry<K, V>>, key: K) returns (i: nat)
    requires Find(o, key).Some?
    ensures i < |o| && o[i].key == key
  {
    if o[0].key == key {
      i := 0;
    } else {
      i := FindSomewhere(o[1..], key);
      i := i + 1;
    }
  }

  // ---- sequences of calls --------------------------------------------------------------------

  /** One undisturbed call: a hit, or a miss followed by storing the result. */
  function CallStep<K(==), V>(o: seq<Entry<K, V>>, maxsize: nat, f: K -> V, key: K): seq<Entry<K, V>>
    requires 0 < maxsize
  {
    if Find(o, key).Some? then Touch(o, key) else Store(o, maxsize, key, f(key))
  }

  function Run<K(==), V>(maxsize: nat, f: K -> V, calls: seq<K>): seq<Entry<K, V>>
    requires 0 < maxsize
  {
    if calls == [] then []
    else CallStep(Run(maxsize, f, calls[..|calls| - 1]), maxsize, f, calls[|calls| - 1])
  }

  function Hits<K(==), V>(maxsize: nat, f: K -> V, calls: seq<K>): nat
    requires 0 < maxsize
  {
    if calls == [] then 0
    else
      var before := calls[..|calls| - 1];
      Hits(maxsize, f, before) + if Find(Run(maxsize, f, before), calls[|calls| - 1]).Some? then 1 else 0
  }

  /** The distinct keys of the calls, ordered by their last use. This does not mention any cache. */
  function Recency<K(==)>(calls: seq<K>): seq<K> {
    if calls == [] then []
    else Drop(Recency(calls[..|calls| - 1]), calls[|calls| - 1]) + [calls[|calls| - 1]]
  }

  function Drop<K(==)>(keys: seq<K>, key: K): seq<K> {
    if keys == [] then [] else if keys[0] == key then keys[1..] else [keys[0]] + Drop(keys[1..], key)
  }

  function Last<T>(s: seq<T>, n: nat): seq<T> {
    if |s| <= n then s else s[|s| - n..]
  }

  function Keys<K, V>(o: seq<Entry<K, V>>): seq<K> {
    seq(|o|, i requires 0 <= i < |o| => o[i].key)
  }

  ghost predicate NoRepeats<K>(keys: seq<K>) {
    forall i, j :: 0 <= i < j < |keys| ==> keys[i] != keys[j]
  }

  lemma {:induction false} DropAt<K>(keys: seq<K>, key: K, i: nat)
    requires NoRepeats(keys) && i < |keys| && keys[i] == key
    ensures Drop(keys, key) == keys[..i] + keys[i + 1..]
  {
    if i != 0 {
      DropAt(keys[1..], key, i - 1);
      assert keys[0] != key;
      assert [keys[0]] + (keys[1..][..i - 1] + keys[1..][i..]) == keys[..i] + keys[i + 1..];
    }
  }

  lemma {:induction false} DropNothing<K>(keys: seq<K>, key: K)
    requires key !in keys
    ensures Drop(keys, key) == keys
  {
    if keys != [] {
      DropNothing(keys[1..], key);
    }
  }

  lemma {:induction false} DropMembers<K>(keys: seq<K>, key: K)
    requires NoRepeats(keys)
    ensures NoRepeats(Drop(keys, key))
    ensures forall k :: k in Drop(keys, key) <==> k in keys && k != key
  {
    if keys != [] {
      DropMembers(keys[1..], key);
      assert keys[0] !in keys[1..];
    }
  }

  lemma {:induction false} DropAppendNoRepeats<K>(keys: seq<K>, key: K)
    requires NoRepeats(keys)
    ensures NoRepeats(Drop(keys, key) + [key])
    ensures forall k :: k in Drop(keys, key) <==> k in keys && k != key
  {
    DropMembers(keys, key);
    assert forall i :: 0 <= i < |Drop(keys, key)| ==> Drop(keys, key)[i] in Drop(keys, key);
  }

  lemma {:induction false} RecencyNoRepeats<K>(calls: seq<K>)
    ensures NoRepeats(Recency(calls))
  {
    if calls != [] {
      RecencyNoRepeats(calls[..|calls| - 1]);
      DropAppendNoRepeats(Recency(calls[..|calls| - 1]), calls[|calls| - 1]);
    }
  }

  /** What a call does to the keys of the cache, least recently used first. */
  function KeysStep<K(==)>(keys: seq<K>, maxsize: nat, key: K): seq<K>
    requires 0 < maxsize
  {
    if key in keys then Drop(keys, key) + [key] else (if maxsize <= |keys| then keys[1..] else keys) + [key]
  }

  /** Cutting the recency order to the last m keys commutes with a call: the heart of the inclusion theorem. */
  lemma {:induction false} LastOfRecency<K>(r: seq<K>, maxsize: nat, key: K)
    requires 0 < maxsize && NoRepeats(r)
    ensures Last(Drop(r, key) + [key], maxsize) == KeysStep(Last(r, maxsize), maxsize, key)
  {
    if key !in r {
      DropNothing(r, key);
      NeverUsed(r, maxsize, key);
    } else {
      var i :| 0 <= i < |r| && r[i] == key;
      DropAt(r, key, i);
      if |r| - maxsize <= i {
        UsedInside(r, maxsize, i);
      } else {
        UsedOutside(r, maxsize, i);
      }
    }
  }

  lemma {:induction false} NeverUsed<K>(r: seq<K>, maxsize: nat, key: K)
    requires 0 < maxsize && key !in r
    ensures Last(r + [key], maxsize) == KeysStep(Last(r, maxsize), maxsize, key)
  {
    if maxsize <= |r| {
      assert (r + [key])[|r| + 1 - maxsize..] == r[|r| - maxsize..][1..] + [key];
    }
  }

  lemma {:induction false} UsedInside<K>(r: seq<K>, maxsize: nat, i: nat)
    requires 0 < maxsize && NoRepeats(r) && i < |r| && |r| - maxsize <= i
    ensures Last(r[..i] + r[i + 1..] + [r[i]], maxsize) == KeysStep(Last(r, maxsize), maxsize, r[i])
  {
    hide Drop, NoRepeats;
    var d := if |r| <= maxsize then 0 else |r| - maxsize;
    var l, moved := r[d..], r[..i] + r[i + 1..] + [r[i]];
    assert l == Last(r, maxsize) && l[i - d] == r[i];
    assert Last(moved, maxsize) == moved[d..];
    SuffixNoRepeats(r, d);
    DropAt(l, r[i], i - d);
    MovedInSuffix(r, d, i);
  }

  lemma {:induction false} SuffixNoRepeats<K>(r: seq<K>, d: nat)
    requires NoRepeats(r) && d <= |r|
    ensures NoRepeats(r[d..])
  {
  }

  lemma {:induction false} MovedInSuffix<K>(r: seq<K>, d: nat, i: nat)
    requires d <= i < |r|
    ensures (r[..i] + r[i + 1..] + [r[i]])[d..] == r[d..][..i - d] + r[d..][i - d + 1..] + [r[i]]
  {
  }

  lemma {:induction false} UsedOutside<K>(r: seq<K>, maxsize: nat, i: nat)
    requires 0 < maxsize && NoRepeats(r) && i < |r| - maxsize
    ensures Last(r[..i] + r[i + 1..] + [r[i]], maxsize) == KeysStep(Last(r, maxsize), maxsize, r[i])
  {
    var l := r[|r| - maxsize..];
    assert r[i] !in l;
    assert (r[..i] + r[i + 1..] + [r[i]])[|r| - maxsize..] == l[1..] + [r[i]];
  }

  lemma {:induction false} FindInKeys<K, V>(o: seq<Entry<K, V>>, key: K)
    ensures Find(o, key).Some? <==> key in Keys(o)
    ensures Keys(Without(o, key)) == Drop(Keys(o), key)
    ensures forall e :: e in Without(o, key) ==> e in o
    ensures Find(o, key).Some? ==> Entry(key, Find(o, key).value) in o
  {
    if o != [] {
      FindInKeys(o[1..], key);
      assert Keys(o) == [o[0].key] + Keys(o[1..]);
    }
  }

  lemma {:induction false} StepKeys<K, V>(o: seq<Entry<K, V>>, maxsize: nat, f: K -> V, key: K)
    requires 0 < maxsize
    ensures Keys(CallStep(o, maxsize, f, key)) == KeysStep(Keys(o), maxsize, key)
    ensures forall e :: e in CallStep(o, maxsize, f, key) ==> e in o || e == Entry(key, f(key))
  {
    FindInKeys(o, key);
  }

  /**
   The inclusion theorem: after any sequence of calls, a cache of size m holds exactly the m most
   recently used distinct keys (or all of them, when there are fewer), in the order of their last use,
   each with the value of the function.
   */
  lemma {:induction false} CacheIsMostRecent<K, V>(maxsize: nat, f: K -> V, calls: seq<K>)
    requires 0 < maxsize
    ensures Keys(Run(maxsize, f, calls)) == Last(Recency(calls), maxsize)
    ensures forall e :: e in Run(maxsize, f, calls) ==> e.value == f(e.key)
  {
    if calls != [] {
      var before, key := calls[..|calls| - 1], calls[|calls| - 1];
      CacheIsMostRecent(maxsize, f, before);
      RecencyNoRepeats(before);
      StepKeys(Run(maxsize, f, before), maxsize, f, key);
      LastOfRecency(Recency(before), maxsize, key);
    }
  }

  /** A bigger cache holds everything that a smaller one holds, and hits at least as often. */
  lemma {:induction false} BiggerIsBetter<K, V>(small: nat, big: nat, f: K -> V, calls: seq<K>)
    requires 0 < small <= big
    ensures forall k :: k in Keys(Run(small, f, calls)) ==> k in Keys(Run(big, f, calls))
    ensures Hits(small, f, calls) <= Hits(big, f, calls)
  {
    CacheIsMostRecent(small, f, calls);
    CacheIsMostRecent(big, f, calls);
    LastInLast(Recency(calls), small, big);
    if calls != [] {
      var before, key := calls[..|calls| - 1], calls[|calls| - 1];
      BiggerIsBetter(small, big, f, before);
      FindInKeys(Run(small, f, before), key);
      FindInKeys(Run(big, f, before), key);
    }
  }

  lemma {:induction false} LastInLast<T>(s: seq<T>, small: nat, big: nat)
    requires small <= big
    ensures forall x :: x in Last(s, small) ==> x in Last(s, big)
  {
    forall x | x in Last(s, small)
      ensures x in Last(s, big)
    {
      var i :| 0 <= i < |Last(s, small)| && Last(s, small)[i] == x;
      assert Last(s, big)[|Last(s, big)| - |Last(s, small)| + i] == x;
    }
  }

  // ---- the stack distance --------------------------------------------------------------------

  function LastUse<K(==)>(calls: seq<K>, key: K): nat
    requires key in calls
  {
    if calls[|calls| - 1] == key then |calls| - 1 else LastUse(calls[..|calls| - 1], key)
  }

  /** The distinct keys used since the last use of `key`. */
  ghost function Since<K>(calls: seq<K>, key: K): set<K>
    requires key in calls
  {
    set i | LastUse(calls, key) < i < |calls| :: calls[i]
  }

  lemma {:induction false} SinceGrows<K>(calls: seq<K>, key: K)
    requires key in calls && calls[|calls| - 1] != key
    ensures key in calls[..|calls| - 1]
    ensures Since(calls, key) == Since(calls[..|calls| - 1], key) + {calls[|calls| - 1]}
  {
    var before, n := calls[..|calls| - 1], |calls| - 1;
    assert key in before;
    LastUseIsUse(before, key);
    forall x
      ensures x in Since(calls, key) <==> x in Since(before, key) + {calls[n]}
    {
      if x in Since(calls, key) {
        var i :| LastUse(calls, key) < i < |calls| && calls[i] == x;
        assert i == n || before[i] == x;
      }
      if x in Since(before, key) {
        var i :| LastUse(before, key) < i < |before| && before[i] == x;
        assert calls[i] == x;
      }
    }
  }

  lemma {:induction false} LastUseIsUse<K>(calls: seq<K>, key: K)
    requires key in calls
    ensures LastUse(calls, key) < |calls| && calls[LastUse(calls, key)] == key
  {
    if calls[|calls| - 1] != key {
      LastUseIsUse(calls[..|calls| - 1], key);
    }
  }

  ghost function SetOf<K>(s: seq<K>): set<K> {
    set x | x in s
  }

  lemma {:induction false} SetSize<K>(s: seq<K>)
    requires NoRepeats(s)
    ensures |SetOf(s)| == |s|
  {
    if s != [] {
      SetSize(s[1..]);
      assert SetOf(s) == SetOf(s[1..]) + {s[0]};
      assert s[0] !in s[1..];
    }
  }

  /** A key that was used is in the recency order, followed by exactly the keys used since. */
  lemma {:induction false} RecencyPosition<K>(calls: seq<K>, key: K) returns (i: nat)
    requires key in calls
    ensures i < |Recency(calls)| && Recency(calls)[i] == key
    ensures SetOf(Recency(calls)[i + 1..]) == Since(calls, key)
  {
    var before, last := calls[..|calls| - 1], calls[|calls| - 1];
    var r := Recency(before);
    RecencyNoRepeats(before);
    DropAppendNoRepeats(r, last);
    if last == key {
      i := |Drop(r, last)|;
    } else {
      assert key in before;
      var j := RecencyPosition(before, key);
      if last in r {
        var d :| 0 <= d < |r| && r[d] == last;
        DropAt(r, last, d);
        i := if d < j then j - 1 else j;
        TailAfterDrop(r, d, j);
      } else {
        DropNothing(r, last);
        i := j;
        assert (r + [last])[i + 1..] == r[j + 1..] + [last];
      }
      SinceGrows(calls, key);
    }
  }

  lemma {:induction false} TailAfterDrop<K>(r: seq<K>, d: nat, j: nat)
    requires NoRepeats(r) && d < |r| && j < |r| && d != j
    ensures var i := if d < j then j - 1 else j;
            var r' := r[..d] + r[d + 1..] + [r[d]];
            r'[i] == r[j] && SetOf(r'[i + 1..]) == SetOf(r[j + 1..]) + {r[d]}
  {
    var i := if d < j then j - 1 else j;
    var r' := r[..d] + r[d + 1..] + [r[d]];
    if d < j {
      assert r'[i + 1..] == r[j + 1..] + [r[d]];
    } else {
      assert r'[i + 1..] == r[j + 1..d] + r[d + 1..] + [r[d]];
      assert r[j + 1..] == r[j + 1..d] + [r[d]] + r[d + 1..];
    }
  }

  /**
   A key is in a cache of size m after a sequence of calls if and only if it was used, and fewer than m
   other keys were used since its last use.
   */
  lemma {:induction false} CachedIff<K, V>(maxsize: nat, f: K -> V, calls: seq<K>, key: K)
    requires 0 < maxsize
    ensures Find(Run(maxsize, f, calls), key).Some? <==> key in calls && |Since(calls, key)| < maxsize
  {
    CacheIsMostRecent(maxsize, f, calls);
    FindInKeys(Run(maxsize, f, calls), key);
    var r := Recency(calls);
    RecencyNoRepeats(calls);
    if key in calls {
      var i := RecencyPosition(calls, key);
      SetSize(r[i + 1..]);
      InLast(r, maxsize, i);
    } else {
      RecencyOnlyUsed(calls, key);
    }
  }

  lemma {:induction false} InLast<K>(r: seq<K>, n: nat, i: nat)
    requires NoRepeats(r) && i < |r|
    ensures r[i] in Last(r, n) <==> |r| - i <= n
  {
    if |r| - i <= n {
      assert Last(r, n)[i - (|r| - |Last(r, n)|)] == r[i];
    }
  }

  lemma {:induction false} RecencyOnlyUsed<K>(calls: seq<K>, key: K)
    requires key !in calls
    ensures key !in Recency(calls)
  {
    if calls != [] {
      RecencyOnlyUsed(calls[..|calls| - 1], key);
      RecencyNoRepeats(calls[..|calls| - 1]);
      DropAppendNoRepeats(Recency(calls[..|calls| - 1]), calls[|calls| - 1]);
    }
  }
}
