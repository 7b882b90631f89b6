/**
 The bounded LRU cache as it is built: a dictionary from keys to links, and a circular doubly linked list
 of links whose root separates the most from the least recently used entry.
 */
module LruCaches {
  import opened Wrappers
  import opened LruOrder

  class Link<K, V> {
    var prev: Link<K, V>
    var next: Link<K, V>
    var key: Option<K>
    var result: Option<V>

    /** A root alone: it is its own neighbour on both sides. */
    constructor Root()
      ensures prev == this && next == this && key.None? && result.None?
    {
      prev, next, key, result := this, this, None, None;
    }

    constructor (prev: Link<K, V>, next: Link<K, V>, key: K, result: V)
      ensures this.prev == prev && this.next == next && this.key == Some(key) && this.result == Some(result)
    {
      this.prev, this.next, this.key, this.result := prev, next, Some(key), Some(result);
    }
  }

  /** The links of `ring`, in this order, form a circular doubly linked list. */
  ghost predicate Linked<K, V>(ring: seq<Link<K, V>>)
    reads ring
  {
    && (forall i, j :: 0 <= i < j < |ring| ==> ring[i] != ring[j])
    && (forall i {:trigger ring[i].next} :: 0 <= i < |ring| ==> ring[i].next == ring[if i + 1 < |ring| then i + 1 else 0])
    && (forall i {:trigger ring[i].prev} :: 0 <= i < |ring| ==> ring[i].prev == ring[if i == 0 then |ring| - 1 else i - 1])
  }

  /** Take a link out of a list: its neighbours now point to each other. */
  method Unlink<K, V>(link: Link<K, V>, ghost ring: seq<Link<K, V>>, ghost i: nat)
    requires Linked(ring) && 1 <= i < |ring| && ring[i] == link
    modifies ring
    ensures Linked(ring[..i] + ring[i + 1..])
    ensures forall l :: l in ring ==> l.key == old(l.key) && l.result == old(l.result)
  {
    var before, after := link.prev, link.next;
    assert before == ring[i - 1] && after == ring[if i + 1 < |ring| then i + 1 else 0];
    before.next := after;
    after.prev := before;
    RestLinked(ring, ring[..i] + ring[i + 1..], i);
  }

  /** The ring without its i-th link is linked, when all but the two links around that one are as in the ring. */
  lemma {:induction false} RestLinked<K, V>(ring: seq<Link<K, V>>, rest: seq<Link<K, V>>, i: nat)
    requires 1 <= i < |ring| && rest == ring[..i] + ring[i + 1..]
    requires forall j, k :: 0 <= j < k < |ring| ==> ring[j] != ring[k]
    requires forall j {:trigger ring[j].next} :: 0 <= j < |ring| && j != i - 1 && j != i ==> ring[j].next == ring[if j + 1 < |ring| then j + 1 else 0]
    requires forall j {:trigger ring[j].prev} :: 0 <= j < |ring| && j != (if i + 1 < |ring| then i + 1 else 0) && j != i
               ==> ring[j].prev == ring[if j == 0 then |ring| - 1 else j - 1]
    requires ring[i - 1].next == ring[if i + 1 < |ring| then i + 1 else 0]
    requires ring[if i + 1 < |ring| then i + 1 else 0].prev == ring[i - 1]
    ensures Linked(rest)
  {
    assert forall j :: 0 <= j < |rest| ==> rest[j] == ring[if j < i then j else j + 1];
  }

  /** Put a link before the root: at the most recently used end. */
  method Append<K, V>(root: Link<K, V>, link: Link<K, V>, ghost ring: seq<Link<K, V>>)
    requires Linked(ring) && 0 < |ring| && ring[0] == root && link !in ring
    modifies ring, link
    ensures Linked(ring + [link])
    ensures forall l :: l in ring + [link] ==> l.key == old(l.key) && l.result == old(l.result)
  {
    var last := root.prev;
    assert last == ring[|ring| - 1];
    last.next := link;
    root.prev := link;
    link.prev := last;
    link.next := root;
  }

  /** Link i + 1 of the ring holds entry i of the order; the root holds nothing. */
  ghost predicate Holds<K, V>(ring: seq<Link<K, V>>, order: seq<Entry<K, V>>)
    requires |ring| == |order| + 1
    reads ring
  {
    && ring[0].key.None? && ring[0].result.None?
    && forall i :: 0 <= i < |order| ==> ring[i + 1].key == Some(order[i].key) && ring[i + 1].result == Some(order[i].value)
  }

  /** The dictionary maps the keys of the entries, and no others, to the links that hold them. */
  ghost predicate Indexed<K, V>(cache: map<K, Link<K, V>>, ring: seq<Link<K, V>>, order: seq<Entry<K, V>>)
    requires |ring| == |order| + 1
  {
    && |cache| == |order|
    && (forall i :: 0 <= i < |order| ==> order[i].key in cache && cache[order[i].key] == ring[i + 1])
  }

  /** There are as many keys as entries, and the entries have different keys: so each key has its entry. */
  lemma {:induction false} KeyHasEntry<K, V>(cache: map<K, Link<K, V>>, ring: seq<Link<K, V>>, order: seq<Entry<K, V>>, key: K) returns (i: nat)
    requires |ring| == |order| + 1 && Indexed(cache, ring, order) && key in cache
    requires forall i, j :: 0 <= i < j < |ring| ==> ring[i] != ring[j]
    ensures i < |order| && order[i].key == key
  {
    var keys := Keys(order);
    assert NoRepeats(keys) by {
      forall i, j | 0 <= i < j < |keys|
        ensures keys[i] != keys[j]
      {
        assert cache[order[i].key] == ring[i + 1] != ring[j + 1] == cache[order[j].key];
      }
    }
    SetSize(keys);
    assert SetOf(keys) <= cache.Keys;
    SubsetOfSameSize(SetOf(keys), cache.Keys);
    assert key in SetOf(keys);
    i :| 0 <= i < |keys| && keys[i] == key;
  }

  lemma {:induction false} SubsetOfSameSize<T>(a: set<T>, b: set<T>)
    requires a <= b && |a| == |b|
    ensures a == b
  {
    assert |b - a| == |b| - |a|;
  }

  /**
   The whole heap structure: the ring is linked and starts at the root, and it, the dictionary and the
   order tell the same.
   */
  ghost predicate Shape<K, V>(root: Link<K, V>, cache: map<K, Link<K, V>>, ring: seq<Link<K, V>>, order: seq<Entry<K, V>>)
    reads ring
  {
    && |ring| == |order| + 1
    && Linked(ring) && ring[0] == root && Holds(ring, order)
    && Indexed(cache, ring, order)
  }

  ghost function Moved<T>(s: seq<T>, i: nat): seq<T>
    requires i < |s|
  {
    s[..i] + s[i + 1..] + [s[i]]
  }

  lemma {:induction false} MovedAt<T>(s: seq<T>, i: nat, j: nat)
    requires i < |s| && j < |s|
    ensures |Moved(s, i)| == |s|
    ensures Moved(s, i)[j] == s[if j < i then j else if j < |s| - 1 then j + 1 else i]
    ensures s[j] == Moved(s, i)[if j < i then j else if j == i then |s| - 1 else j - 1]
  {
  }

  /** Moving a link to the end moves its entry to the end. */
  lemma {:induction false} MoveToEnd<K, V>(cache: map<K, Link<K, V>>, ring: seq<Link<K, V>>, order: seq<Entry<K, V>>, i: nat)
    requires i < |order| && |ring| == |order| + 1 && Holds(ring, order) && Indexed(cache, ring, order)
    ensures Holds(Moved(ring, i + 1), Moved(order, i)) && Indexed(cache, Moved(ring, i + 1), Moved(order, i))
  {
    forall j | 0 <= j < |order|
      ensures var k := if j < i then j else if j < |order| - 1 then j + 1 else i;
              Moved(order, i)[j] == order[k] && Moved(ring, i + 1)[j + 1] == ring[k + 1]
    {
      MovedAt(order, i, j);
      MovedAt(ring, i + 1, j + 1);
    }
  }

  /** Unlink a link and put it at the most recently used end. */
  method Relink<K, V>(root: Link<K, V>, link: Link<K, V>, ghost ring: seq<Link<K, V>>, ghost i: nat)
    requires Linked(ring) && 1 <= i < |ring| && ring[i] == link && ring[0] == root
    modifies ring
    ensures Linked(Moved(ring, i))
    ensures forall l :: l in ring ==> l.key == old(l.key) && l.result == old(l.result)
  {
    Unlink(link, ring, i);
    Append(root, link, ring[..i] + ring[i + 1..]);
  }

  /** Record the use of a link: the ring and the order move on together. */
  method MoveLink<K, V>(root: Link<K, V>, link: Link<K, V>, ghost cache: map<K, Link<K, V>>,
                        ghost ring: seq<Link<K, V>>, ghost order: seq<Entry<K, V>>, ghost i: nat)
      returns (ghost ring': seq<Link<K, V>>, ghost order': seq<Entry<K, V>>)
    requires Shape(root, cache, ring, order) && i < |order| && ring[i + 1] == link
    modifies ring
    ensures Shape(root, cache, ring', order') && order' == Moved(order, i)
    ensures forall l :: l in ring' ==> l in ring
  {
    Relink(root, link, ring, i + 1);
    MoveToEnd(cache, ring, order, i);
    ring', order' := Moved(ring, i + 1), Moved(order, i);
  }

  /** The dictionary after an eviction that stores `e` in the old root. */
  lemma {:induction false} IndexRotates<K, V>(cache: map<K, Link<K, V>>, ring: seq<Link<K, V>>, order: seq<Entry<K, V>>, e: Entry<K, V>)
    requires 0 < |order| && |ring| == |order| + 1 && Indexed(cache, ring, order) && e.key !in cache
    requires forall i, j :: 0 <= i < j < |ring| ==> ring[i] != ring[j]
    ensures Indexed((cache - {order[0].key})[e.key := ring[0]], ring[1..] + [ring[0]], order[1..] + [e])
  {
    var cache', ring', order' := (cache - {order[0].key})[e.key := ring[0]], ring[1..] + [ring[0]], order[1..] + [e];
    assert (cache - {order[0].key}).Keys == cache.Keys - {order[0].key};
    forall i | 0 <= i < |order'|
      ensures order'[i].key in cache' && cache'[order'[i].key] == ring'[i + 1]
    {
      if i + 1 < |order| {
        assert ring[i + 2] != ring[1];
        assert order'[i] == order[i + 1];
      }
    }
  }

  /** Turning the ring by one link keeps it linked; the new root is empty and the old one holds `e`. */
  lemma {:induction false} RingRotates<K, V>(ring: seq<Link<K, V>>, order: seq<Entry<K, V>>, e: Entry<K, V>)
    requires 0 < |order| && |ring| == |order| + 1 && Linked(ring)
    requires ring[0].key == Some(e.key) && ring[0].result == Some(e.value)
    requires ring[1].key.None? && ring[1].result.None?
    requires forall i :: 1 <= i < |order| ==> ring[i + 1].key == Some(order[i].key) && ring[i + 1].result == Some(order[i].value)
    ensures Linked(ring[1..] + [ring[0]]) && Holds(ring[1..] + [ring[0]], order[1..] + [e])
  {
    var ring', order' := ring[1..] + [ring[0]], order[1..] + [e];
    assert forall i :: 0 <= i < |ring| ==> ring'[i] == ring[if i + 1 < |ring| then i + 1 else 0];
    assert forall i :: 0 <= i < |order| - 1 ==> order'[i] == order[i + 1];
  }

  /** Fill the old root with the new entry and empty the oldest link, which becomes the root. */
  method Reuse<K, V>(oldroot: Link<K, V>, key: K, result: V, ghost ring: seq<Link<K, V>>, ghost order: seq<Entry<K, V>>)
      returns (newroot: Link<K, V>, oldkey: K)
    requires 0 < |order| && |ring| == |order| + 1 && Linked(ring) && ring[0] == oldroot && Holds(ring, order)
    modifies ring
    ensures newroot == ring[1] && oldkey == order[0].key
    ensures Linked(ring[1..] + [oldroot]) && Holds(ring[1..] + [oldroot], order[1..] + [Entry(key, result)])
  {
    assert oldroot.next == ring[1] && ring[1].key == Some(order[0].key);
    oldroot.key, oldroot.result := Some(key), Some(result);
    newroot := oldroot.next;
    oldkey := newroot.key.value;
    newroot.key, newroot.result := None, None;
    RingRotates(ring, order, Entry(key, result));
  }

  /** The ring with a link after its last one is linked, when that link and the two around it point so. */
  lemma {:induction false} HookLinked<K, V>(ring: seq<Link<K, V>>, link: Link<K, V>)
    requires 0 < |ring| && link !in ring && forall j, k :: 0 <= j < k < |ring| ==> ring[j] != ring[k]
    requires forall j {:trigger ring[j].next} :: 0 <= j < |ring| - 1 ==> ring[j].next == ring[j + 1]
    requires forall j {:trigger ring[j].prev} :: 0 < j < |ring| ==> ring[j].prev == ring[j - 1]
    requires ring[|ring| - 1].next == link && ring[0].prev == link && link.prev == ring[|ring| - 1] && link.next == ring[0]
    ensures Linked(ring + [link])
  {
  }

  /** One more link at the end of the ring, its entry at the end of the order, and its key in the dictionary. */
  lemma {:induction false} HoldsMore<K, V>(cache: map<K, Link<K, V>>, ring: seq<Link<K, V>>, order: seq<Entry<K, V>>,
                                             link: Link<K, V>, e: Entry<K, V>)
    requires |ring| == |order| + 1 && Holds(ring, order) && Indexed(cache, ring, order)
    requires e.key !in cache && link.key == Some(e.key) && link.result == Some(e.value)
    ensures Holds(ring + [link], order + [e]) && Indexed(cache[e.key := link], ring + [link], order + [e])
  {
  }

  /** Link a new link between the last link and the root. */
  method Hook<K, V>(last: Link<K, V>, root: Link<K, V>, link: Link<K, V>, ghost ring: seq<Link<K, V>>)
    requires Linked(ring) && 0 < |ring| && ring[0] == root && last == ring[|ring| - 1] && link !in ring
    requires link.prev == last && link.next == root
    modifies ring
    ensures Linked(ring + [link])
    ensures forall l :: l in ring + [link] ==> l.key == old(l.key) && l.result == old(l.result)
  {
    last.next := link;
    root.prev := link;
    HookLinked(ring, link);
  }

  class LruCache<K(==), V> {
    const maxsize: nat
    var cache: map<K, Link<K, V>>
    var hits: nat
    var misses: nat
    var root: Link<K, V>              // nonlocal_root[0]
    ghost var ring: seq<Link<K, V>>   // the root, then the links from least to most recently used
    ghost var order: seq<Entry<K, V>> // the entries, from least to most recently used

    ghost predicate Valid()
      reads this, ring
    {
      |order| <= maxsize && Shape(root, cache, ring, order)
    }

    constructor (maxsize: nat)
      requires 0 < maxsize
      ensures Valid() && fresh(ring) && this.maxsize == maxsize
      ensures order == [] && hits == 0 && misses == 0
    {
      this.maxsize := maxsize;
      cache, hits, misses := map[], 0, 0;
      var r := new Link<K, V>.Root();
      root := r;
      ring := [r];
      order := [];
    }

    /** The dictionary and the list tell the same: its keys are distinct and are the keys of the dictionary. */
    lemma {:induction false} OrderMatchesCache(key: K)
      requires Valid()
      ensures Distinct(order) && |order| <= maxsize
      ensures Find(order, key).Some? <==> key in cache
    {
      if key in cache {
        var i := KeyHasEntry(cache, ring, order, key);
        FindAt(order, key, i);
      } else {
        FindNowhere(order, key);
      }
    }

    /** Where the link of a cached key is in the list, and what a hit makes of the order. */
    lemma {:induction false} Locate(key: K) returns (i: nat)
      requires Valid() && key in cache
      ensures i < |order| && ring[i + 1] == cache[key]
      ensures Find(order, key) == Some(order[i].value) == cache[key].result
      ensures Touch(order, key) == Moved(order, i)
    {
      OrderMatchesCache(key);
      i := KeyHasEntry(cache, ring, order, key);
      FindAt(order, key, i);
    }

    lemma {:induction false} NotCached(key: K)
      requires Valid() && key !in cache
      ensures Find(order, key) == None && |cache| == |order|
    {
      OrderMatchesCache(key);
    }

    /** The first locked section: on a hit, the link moves to the most recently used end of the list. */
    method Lookup(key: K) returns (r: Option<V>)
      requires Valid()
      modifies this`hits, this`ring, this`order, ring
      ensures Valid() && forall l :: l in ring ==> l in old(ring)
      ensures r == Find(old(order), key)
      ensures r.None? ==> order == old(order) && hits == old(hits) && ring == old(ring)
      ensures r.Some? ==> order == Touch(old(order), key) && hits == old(hits) + 1
    {
      if key !in cache {
        NotCached(key);
        return None;
      }
      var link := cache[key];
      ghost var i := Locate(key);
      r := link.result;
      ring, order := MoveLink(root, link, cache, ring, order, i);
      hits := hits + 1;
    }

    /** The second locked section: store a result that has been computed outside the lock. */
    method Insert(key: K, result: V)
      requires Valid() && 0 < maxsize
      modifies this, ring
      ensures Valid() && forall l :: l in ring ==> l in old(ring) || fresh(l)
      ensures order == Store(old(order), maxsize, key, result)
      ensures old(key in cache) ==> order == old(order)
      ensures old(key !in cache) ==> order == (if |old(order)| < maxsize then old(order) else old(order)[1..]) + [Entry(key, result)]
      ensures misses == old(misses) + 1 && hits == old(hits)
    {
      hide Shape, Find, Distinct;
      if key in cache {
        ghost var i := Locate(key);
      } else {
        NotCached(key);
        if |cache| >= maxsize {
          Recycle(key, result);
        } else {
          Grow(key, result);
        }
      }
      misses := misses + 1;
    }

    /** A full cache stores the new entry in the old root, and the oldest link becomes the new, empty root. */
    method Recycle(key: K, result: V)
      requires Valid() && key !in cache && 0 < |order|
      modifies this`root, this`cache, this`ring, this`order, ring
      ensures Valid() && forall l :: l in ring ==> l in old(ring)
      ensures order == old(order)[1..] + [Entry(key, result)]
    {
      var oldroot := root;
      var oldkey;
      IndexRotates(cache, ring, order, Entry(key, result));
      root, oldkey := Reuse(oldroot, key, result, ring, order);
      cache := cache - {oldkey};
      cache := cache[key := oldroot];
      ring := ring[1..] + [oldroot];
      order := order[1..] + [Entry(key, result)];
    }

    /** A cache that is not full puts a new link at the most recently used end. */
    method Grow(key: K, result: V)
      requires Valid() && key !in cache && |order| < maxsize
      modifies this`cache, this`ring, this`order, ring
      ensures Valid() && forall l :: l in ring ==> l in old(ring) || fresh(l)
      ensures order == old(order) + [Entry(key, result)]
    {
      var last := root.prev;
      assert last == ring[|ring| - 1];
      hide Linked, Indexed;
      var link := new Link<K, V>(last, root, key, result);
      Hook(last, root, link, ring);
      HoldsMore(cache, ring, order, link, Entry(key, result));
      cache := cache[key := link];
      ring := ring + [link];
      order := order + [Entry(key, result)];
    }

    method Clear()
      requires Valid()
      modifies this`cache, this`hits, this`misses, this`ring, this`order, root
      ensures Valid() && root == old(root) && ring == [root]
      ensures order == [] && hits == 0 && misses == 0
    {
      cache := map[];
      root.prev, root.next, root.key, root.result := root, root, None, None;
      hits, misses := 0, 0;
      ring, order := [root], [];
    }

    method Info() returns (hits: nat, misses: nat, maxsize: nat, currsize: nat)
      requires Valid()
      ensures hits == this.hits && misses == this.misses && maxsize == this.maxsize
      ensures currsize == |order| <= maxsize
    {
      hits, misses, maxsize, currsize := this.hits, this.misses, this.maxsize, |cache|;
    }

    /** A whole call, undisturbed: look the key up, else compute the value and store it. */
    method Call(f: K -> V, key: K) returns (r: V)
      requires Valid() && 0 < maxsize
      modifies this, ring
      ensures Valid() && forall l :: l in ring ==> l in old(ring) || fresh(l)
      ensures order == CallStep(old(order), maxsize, f, key)
      ensures r == if Find(old(order), key).Some? then Find(old(order), key).value else f(key)
      ensures hits + misses == old(hits + misses) + 1
      ensures hits == old(hits) + if Find(old(order), key).Some? then 1 else 0
    {
      var found := Lookup(key);
      if found.Some? { return found.value; }
      r := f(key);
      Insert(key, r);
    }
  }
}
