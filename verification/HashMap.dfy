/** The open-addressing hash map: linear probing with tombstones, and a rehash that
    rearranges the entries inside one array. */
module HashMap {

  /** One bucket. A tombstone (`Deleted`) does not end a probe, an `Empty` bucket does;
      `Loose` entries exist only while the table is being rehashed. */
  datatype Entry<K, V> = Empty | Deleted | Filled(item: Item<K, V>) | Loose(item: Item<K, V>)

  datatype Item<K, V> = Item(hash: nat, key: K, value: V)

  // ---------------------------------------------------------------- probe sequences

  /** rdxHashValueIndex. */
  function Home(hash: nat, n: nat): (r: nat)
    requires n > 0
    ensures r < n
  {
    hash % n
  }

  lemma HomeExamples()
    ensures Home(17, 5) == 2 && Home(5, 5) == 0 && Home(3, 8) == 3
  {
  }

  /** The bucket `j` steps after `home`, wrapping round. */
  function Probe(home: nat, j: nat, n: nat): (r: nat)
    requires home < n && j < n
    ensures r < n
  {
    if home + j < n then home + j else home + j - n
  }

  /** How many steps after `home` bucket `p` is probed. */
  function Distance(home: nat, p: nat, n: nat): (r: nat)
    requires home < n && p < n
    ensures r < n && Probe(home, r, n) == p
  {
    if p >= home then p - home else p + n - home
  }

  /** Every filled bucket can be reached from its home without crossing an empty bucket. */
  ghost predicate Reachable<K, V>(s: seq<Entry<K, V>>, n: nat)
    requires 0 < n <= |s|
  {
    forall p, j :: 0 <= p < n && s[p].Filled? && 0 <= j < Distance(Home(s[p].item.hash, n), p, n) ==>
      !s[Probe(Home(s[p].item.hash, n), j, n)].Empty?
  }

  lemma ProbeDistance(home: nat, j: nat, n: nat)
    requires home < n && j < n
    ensures Distance(home, Probe(home, j, n), n) == j
  {
  }

  /** The first `n` buckets probed are all filled. */
  ghost predicate Crowded<K, V>(s: seq<Entry<K, V>>, home: nat, n: nat)
    requires home < |s| && n <= |s|
  {
    forall j :: 0 <= j < n ==> s[Probe(home, j, |s|)].Filled?
  }

  /** None of the first `n` buckets probed holds the key. */
  ghost predicate Missed<K, V>(s: seq<Entry<K, V>>, home: nat, key: K, n: nat)
    requires home < |s| && n <= |s|
  {
    forall j :: 0 <= j < n ==> s[Probe(home, j, |s|)].Filled? ==> s[Probe(home, j, |s|)].item.key != key
  }

  lemma MissedNone<K, V>(s: seq<Entry<K, V>>, home: nat, key: K)
    requires home < |s|
    ensures Missed(s, home, key, 0) && Crowded(s, home, 0)
  {
  }

  lemma MissedNext<K, V>(s: seq<Entry<K, V>>, home: nat, key: K, n: nat)
    requires home < |s| && n < |s| && Missed(s, home, key, n)
    requires var e := s[Probe(home, n, |s|)]; e.Filled? ==> e.item.key != key
    ensures Missed(s, home, key, n + 1)
    ensures Crowded(s, home, n) && s[Probe(home, n, |s|)].Filled? ==> Crowded(s, home, n + 1)
  {
  }

  // ---------------------------------------------------------------- contents

  /** The item an entry holds; with `looseOnly`, the item a loose entry holds. */
  ghost function Held<K, V>(e: Entry<K, V>, looseOnly: bool): (r: multiset<Item<K, V>>)
    ensures |r| == if e.Loose? || (e.Filled? && !looseOnly) then 1 else 0
  {
    if e.Loose? || (e.Filled? && !looseOnly) then multiset{e.item} else multiset{}
  }

  /** All items held, with their multiplicity. */
  ghost function Items<K, V>(s: seq<Entry<K, V>>, looseOnly: bool): (r: multiset<Item<K, V>>)
    ensures |r| <= |s|
  {
    if s == [] then multiset{} else Items(s[..|s| - 1], looseOnly) + Held(s[|s| - 1], looseOnly)
  }

  lemma AddBoth<T>(a: multiset<T>, b: multiset<T>, c: multiset<T>, d: multiset<T>, e: multiset<T>)
    requires a + b == c + d
    ensures a + e + b == c + e + d
  {
    assert a + e + b == a + b + e;
    assert c + e + d == c + d + e;
  }

  lemma ItemsLast<K, V>(s: seq<Entry<K, V>>, looseOnly: bool)
    requires s != []
    ensures Items(s, looseOnly) == Items(s[..|s| - 1], looseOnly) + Held(s[|s| - 1], looseOnly)
    ensures |Items(s, looseOnly)| == |Items(s[..|s| - 1], looseOnly)| + |Held(s[|s| - 1], looseOnly)|
  {
    hide Held;
  }

  lemma {:induction false} ItemsUpdate<K, V>(s: seq<Entry<K, V>>, i: nat, e: Entry<K, V>, looseOnly: bool)
    requires i < |s|
    ensures Items(s[i := e], looseOnly) + Held(s[i], looseOnly) == Items(s, looseOnly) + Held(e, looseOnly)
    decreases |s|
  {
    hide Held, Items;
    var t, last := s[i := e], |s| - 1;
    ItemsLast(s, looseOnly);
    ItemsLast(t, looseOnly);
    if i == last {
      assert t[..last] == s[..last];
    } else {
      assert t[..last] == s[..last][i := e];
      ItemsUpdate(s[..last], i, e, looseOnly);
      AddBoth(Items(t[..last], looseOnly), Held(s[i], looseOnly), Items(s[..last], looseOnly), Held(e, looseOnly), Held(s[last], looseOnly));
    }
  }

  lemma {:induction false} HeldIn<K, V>(s: seq<Entry<K, V>>, i: nat, looseOnly: bool)
    requires i < |s|
    ensures Held(s[i], looseOnly) <= Items(s, looseOnly)
    decreases |s|
  {
    if i < |s| - 1 {
      HeldIn(s[..|s| - 1], i, looseOnly);
    }
  }

  /** Two buckets with the same item make it occur twice. */
  lemma {:induction false} HeldTwice<K, V>(s: seq<Entry<K, V>>, i: nat, j: nat)
    requires i < j < |s| && Held(s[i], false) == Held(s[j], false) && |Held(s[i], false)| == 1
    ensures Items(s, false)[s[i].item] >= 2
    decreases |s|
  {
    var front := s[..|s| - 1];
    if j < |s| - 1 {
      HeldTwice(front, i, j);
    } else {
      HeldIn(front, i, false);
    }
  }

  /** Where an item is held. */
  lemma {:induction false} HolderOf<K, V>(s: seq<Entry<K, V>>, x: Item<K, V>) returns (i: nat)
    requires x in Items(s, false)
    ensures i < |s| && x in Held(s[i], false)
    decreases |s|
  {
    var last := |s| - 1;
    if x in Held(s[last], false) {
      i := last;
    } else {
      i := HolderOf(s[..last], x);
    }
  }

  predicate Taken<K, V>(e: Entry<K, V>)
  {
    e.Filled? || e.Loose?
  }

  /** A table whose first `n` buckets are all taken holds as many items. */
  lemma {:induction false} AllTaken<K, V>(s: seq<Entry<K, V>>, n: nat)
    requires n <= |s| && forall p :: 0 <= p < n ==> Taken(s[p])
    ensures |Items(s, false)| >= n
    decreases |s|
  {
    if s != [] {
      hide Items, Held;
      ItemsLast(s, false);
      AllTaken(s[..|s| - 1], if n < |s| then n else n - 1);
    }
  }

  /** A later bucket that is taken too makes one more. */
  lemma {:induction false} TooMany<K, V>(s: seq<Entry<K, V>>, n: nat, i: nat)
    requires n <= i < |s| && Taken(s[i]) && forall p :: 0 <= p < n ==> Taken(s[p])
    ensures |Items(s, false)| > n
    decreases |s|
  {
    hide Items, Held;
    ItemsLast(s, false);
    if i < |s| - 1 {
      TooMany(s[..|s| - 1], n, i);
    } else {
      AllTaken(s[..|s| - 1], n);
    }
  }

  lemma {:induction false} ItemsOfEmpty<K, V>(s: seq<Entry<K, V>>, n: nat)
    requires n <= |s| && forall i :: n <= i < |s| ==> s[i].Empty? || s[i].Deleted?
    ensures Items(s, false) == Items(s[..n], false)
    decreases |s|
  {
    hide Items;
    if n < |s| {
      ItemsLast(s, false);
      ItemsOfEmpty(s[..|s| - 1], n);
      assert s[..|s| - 1][..n] == s[..n];
    } else {
      assert s[..n] == s;
    }
  }

  // ---------------------------------------------------------------- the abstract map

  /** The items are exactly the pairs of the map, each once, with the right hash. */
  ghost predicate Represents<K, V>(items: multiset<Item<K, V>>, m: map<K, V>, hashOf: K -> nat)
  {
    && (forall x :: x in items ==> items[x] == 1 && x.key in m && m[x.key] == x.value && x.hash == hashOf(x.key))
    && (forall k :: k in m ==> Item(hashOf(k), k, m[k]) in items)
  }

  lemma RepresentsAdd<K, V>(items: multiset<Item<K, V>>, m: map<K, V>, hashOf: K -> nat, k: K, v: V)
    requires Represents(items, m, hashOf) && k !in m
    ensures Represents(items + multiset{Item(hashOf(k), k, v)}, m[k := v], hashOf)
  {
  }

  lemma RepresentsRemove<K, V>(items: multiset<Item<K, V>>, m: map<K, V>, hashOf: K -> nat, x: Item<K, V>)
    requires Represents(items, m, hashOf) && x in items
    ensures Represents(items - multiset{x}, m - {x.key}, hashOf)
  {
    var items', m' := items - multiset{x}, m - {x.key};
    forall y | y in items' ensures items'[y] == 1 && y.key in m' && m'[y.key] == y.value && y.hash == hashOf(y.key) {
      assert y in items && y != x;
    }
  }

  lemma RepresentsReplace<K, V>(items: multiset<Item<K, V>>, m: map<K, V>, hashOf: K -> nat, x: Item<K, V>, v: V)
    requires Represents(items, m, hashOf) && x in items
    ensures Represents(items - multiset{x} + multiset{x.(value := v)}, m[x.key := v], hashOf)
  {
    RepresentsRemove(items, m, hashOf, x);
    RepresentsAdd(items - multiset{x}, m - {x.key}, hashOf, x.key, v);
    assert (m - {x.key})[x.key := v] == m[x.key := v];
  }

  // ---------------------------------------------------------------- rehashing in place

  /** In the middle of a rehash to `n` buckets: no tombstones, every filled bucket among the
      first `n` and reachable over filled buckets only, nothing loose before `i` or from
      `oldCount` on. */
  ghost predicate Rehashing<K, V>(s: seq<Entry<K, V>>, n: nat, i: nat, oldCount: nat)
    requires 0 < n <= |s|
  {
    && (forall p :: 0 <= p < |s| ==> !s[p].Deleted?)
    && (forall p :: 0 <= p < |s| && s[p].Filled? ==> p < n)
    && (forall p, j :: 0 <= p < n && s[p].Filled? && 0 <= j < Distance(Home(s[p].item.hash, n), p, n) ==>
          s[Probe(Home(s[p].item.hash, n), j, n)].Filled?)
    && (forall p :: 0 <= p < |s| && (p < i || p >= oldCount) ==> !s[p].Loose?)
  }

  /** While an entry is still loose, some bucket among the first `n` is not filled, if `n`
      buckets are enough for all items. */
  lemma {:induction false} SomeUnfilled<K, V>(s: seq<Entry<K, V>>, n: nat, i: nat) returns (q: nat)
    requires n <= |s| && i < |s| && s[i].Loose? && |Items(s, false)| <= n
    ensures q < n && !s[q].Filled?
  {
    if i < n {
      q := i;
    } else if q' :| 0 <= q' < n && !s[q'].Filled? {
      q := q';
    } else {
      TooMany(s, n, i);
      assert false;
    }
  }

  /** The inner loop of Rehash: the first bucket from the home of `hash` that is not filled. */
  method Unfilled<K, V>(a: array<Entry<K, V>>, hash: nat, n: nat, ghost q: nat) returns (destination: nat)
    requires 0 < n <= a.Length && q < n && !a[q].Filled?
    ensures destination < n && !a[destination].Filled?
    ensures forall j :: 0 <= j < Distance(Home(hash, n), destination, n) ==> a[Probe(Home(hash, n), j, n)].Filled?
  {
    destination := Home(hash, n);
    ghost var steps, limit := 0, Distance(Home(hash, n), q, n);
    while a[destination].Filled?
      invariant steps <= limit && destination == Probe(Home(hash, n), steps, n)
      invariant forall j :: 0 <= j < steps ==> a[Probe(Home(hash, n), j, n)].Filled?
      decreases limit - steps
    {
      destination := destination + 1;
      if destination == n {
        destination := 0;
      }
      steps := steps + 1;
    }
  }

  /** The table after the loose entry at `i` has been filled in at `d`, what was there being
      moved to `i`. */
  function Placed<K, V>(s: seq<Entry<K, V>>, i: nat, d: nat): seq<Entry<K, V>>
    requires i < |s| && d < |s| && s[i].Loose?
  {
    s[i := s[d]][d := Filled(s[i].item)]
  }

  lemma PlacedItems<K, V>(s: seq<Entry<K, V>>, i: nat, d: nat)
    requires i < |s| && d < |s| && s[i].Loose? && !s[d].Filled? && !s[d].Deleted?
    ensures Items(Placed(s, i, d), false) == Items(s, false)
    ensures |Items(Placed(s, i, d), true)| < |Items(s, true)|
  {
    hide Items;
    var t := s[i := s[d]];
    assert t[d] == s[d];
    ItemsUpdate(s, i, s[d], false);
    ItemsUpdate(t, d, Filled(s[i].item), false);
    CancelMoves(Items(s, false), Items(t, false), Items(Placed(s, i, d), false), Held(s[i], false), Held(s[d], false));
    ItemsUpdate(s, i, s[d], true);
    ItemsUpdate(t, d, Filled(s[i].item), true);
    CountMoves(Items(s, true), Items(t, true), Items(Placed(s, i, d), true), Held(s[i], true), Held(s[d], true));
  }

  lemma CancelMoves<T>(s: multiset<T>, t: multiset<T>, p: multiset<T>, hi: multiset<T>, hd: multiset<T>)
    requires t + hi == s + hd && p + hd == t + hi
    ensures p == s
  {
    assert p == p + hd - hd && s == s + hd - hd;
  }

  lemma CountMoves<T>(s: multiset<T>, t: multiset<T>, p: multiset<T>, hi: multiset<T>, hd: multiset<T>)
    requires t + hi == s + hd && p + hd == t && |hi| == 1
    ensures |p| + 1 == |s|
  {
    assert |t + hi| == |s + hd| && |p + hd| == |t|;
  }

  lemma PlacedRehashing<K, V>(s: seq<Entry<K, V>>, n: nat, i: nat, oldCount: nat, d: nat)
    requires 0 < n <= |s| && Rehashing(s, n, i, oldCount) && i < oldCount <= |s| && s[i].Loose?
    requires d < n && !s[d].Filled?
    requires forall j :: 0 <= j < Distance(Home(s[i].item.hash, n), d, n) ==> s[Probe(Home(s[i].item.hash, n), j, n)].Filled?
    ensures Rehashing(Placed(s, i, d), n, i, oldCount)
  {
    var t := Placed(s, i, d);
    assert forall p :: 0 <= p < |s| && s[p].Filled? ==> t[p] == s[p];
    assert forall p :: 0 <= p < |s| && p != i && p != d ==> t[p] == s[p];
    assert t[d] == Filled(s[i].item) && (i != d ==> t[i] == s[d]);
    forall p, j | 0 <= p < n && t[p].Filled? && 0 <= j < Distance(Home(t[p].item.hash, n), p, n)
      ensures t[Probe(Home(t[p].item.hash, n), j, n)].Filled?
    {
      assert p == d || t[p] == s[p];
      assert s[Probe(Home(t[p].item.hash, n), j, n)].Filled?;
    }
  }

  /** The outer loop body of Rehash: as long as bucket `i` holds a loose entry, it is put in
      its place, and what was there comes to bucket `i`. */
  method Settle<K, V>(a: array<Entry<K, V>>, i: nat, oldCount: nat, n: nat)
    requires 0 < n <= a.Length && i < oldCount <= a.Length && Rehashing(a[..], n, i, oldCount)
    requires |Items(a[..], false)| <= n
    modifies a
    ensures Rehashing(a[..], n, i + 1, oldCount) && Items(a[..], false) == Items(old(a[..]), false)
  {
    hide Items, Rehashing;
    while a[i].Loose?
      invariant Rehashing(a[..], n, i, oldCount) && Items(a[..], false) == Items(old(a[..]), false)
      decreases |Items(a[..], true)|
    {
      ghost var s := a[..];
      ghost var q := SomeUnfilled(s, n, i);
      var item := a[i].item;
      var destination := Unfilled(a, item.hash, n, q);
      a[i] := Filled(item);
      a[i], a[destination] := a[destination], a[i];
      assert a[..] == Placed(s, i, destination);
      RehashingFacts(s, n, i, oldCount);
      PlacedItems(s, i, destination);
      PlacedRehashing(s, n, i, oldCount, destination);
    }
    RehashingNext(a[..], n, i, oldCount);
  }

  lemma RehashingFacts<K, V>(s: seq<Entry<K, V>>, n: nat, i: nat, oldCount: nat)
    requires 0 < n <= |s| && Rehashing(s, n, i, oldCount)
    ensures forall p :: 0 <= p < |s| ==> !s[p].Deleted?
  {
  }

  lemma RehashingNext<K, V>(s: seq<Entry<K, V>>, n: nat, i: nat, oldCount: nat)
    requires 0 < n <= |s| && i < |s| && Rehashing(s, n, i, oldCount) && !s[i].Loose?
    ensures Rehashing(s, n, i + 1, oldCount)
  {
  }

  // ---------------------------------------------------------------- the map object

  const LOAD_FACTOR_PERCENTAGE: nat := 80

  ghost predicate NoLoose<K, V>(s: seq<Entry<K, V>>)
  {
    forall p :: 0 <= p < |s| ==> !s[p].Loose?
  }

  /** The table as it is between operations: `m` is what it stands for. */
  ghost predicate Consistent<K, V>(s: seq<Entry<K, V>>, m: map<K, V>, hashOf: K -> nat)
  {
    && NoLoose(s) && (s != [] ==> Reachable(s, |s|))
    && Represents(Items(s, false), m, hashOf)
  }

  /** A key of the map is held by some filled bucket, and probing finds it before any empty one. */
  lemma {:induction false} KeyIsHeld<K, V>(s: seq<Entry<K, V>>, m: map<K, V>, hashOf: K -> nat, key: K) returns (p: nat)
    requires Consistent(s, m, hashOf) && key in m
    ensures p < |s| && s[p] == Filled(Item(hashOf(key), key, m[key]))
    ensures forall j :: 0 <= j < Distance(Home(hashOf(key), |s|), p, |s|) ==> !s[Probe(Home(hashOf(key), |s|), j, |s|)].Empty?
  {
    hide Items;
    p := HolderOf(s, Item(hashOf(key), key, m[key]));
  }

  /** A filled bucket holds a key of the map. */
  lemma {:induction false} HeldIsKey<K, V>(s: seq<Entry<K, V>>, m: map<K, V>, hashOf: K -> nat, p: nat)
    requires Consistent(s, m, hashOf) && p < |s| && s[p].Filled?
    ensures var x := s[p].item;
            x in Items(s, false) && x.key in m && m[x.key] == x.value && x.hash == hashOf(x.key)
  {
    hide Items;
    HeldIn(s, p, false);
  }

  /** Keys are unique: no two buckets hold the same one. */
  lemma {:induction false} KeysAreUnique<K, V>(s: seq<Entry<K, V>>, m: map<K, V>, hashOf: K -> nat, p: nat, q: nat)
    requires Consistent(s, m, hashOf) && p < q < |s| && s[p].Filled? && s[q].Filled?
    ensures s[p].item.key != s[q].item.key
  {
    hide Items;
    HeldIsKey(s, m, hashOf, p);
    HeldIsKey(s, m, hashOf, q);
    if s[p].item == s[q].item {
      HeldTwice(s, p, q);
    }
  }

  /** There are as many keys as items. */
  lemma {:induction false} SizeOfMap<K, V>(items: multiset<Item<K, V>>, m: map<K, V>, hashOf: K -> nat)
    requires Represents(items, m, hashOf)
    ensures |items| == |m|
    decreases |items|
  {
    if m == map[] {
      assert items == multiset{} by {
        if x :| x in items {
          assert false;
        }
      }
    } else {
      var k :| k in m;
      var x := Item(hashOf(k), k, m[k]);
      RepresentsRemove(items, m, hashOf, x);
      SizeOfMap(items - multiset{x}, m - {k}, hashOf);
      assert (m - {k}).Keys == m.Keys - {k};
      assert |items| == |items - multiset{x}| + 1;
    }
  }

  /** One bucket has changed: that of the key, or the first of the probe sequence that was not filled. */
  ghost predicate InsertedAt<K, V>(s: seq<Entry<K, V>>, t: seq<Entry<K, V>>, i: nat, x: Item<K, V>)
  {
    && i < |s| && t == s[i := Filled(x)]
    && if s[i].Filled? then s[i].item.key == x.key && s[i].item.hash == x.hash
       else Crowded(s, Home(x.hash, |s|), Distance(Home(x.hash, |s|), i, |s|))
  }

  class HashTable<K(==), V> {
    const hashOf: K -> nat
    var entries: array<Entry<K, V>>
    var load: nat
    ghost var model: map<K, V>

    /** The representation invariant; an object without an entry array has an array of length 0. */
    ghost predicate Valid()
      reads this, entries
    {
      Consistent(entries[..], model, hashOf) && load == |Items(entries[..], false)|
    }

    constructor (hashOf: K -> nat)
      ensures Valid() && model == map[] && this.hashOf == hashOf && fresh(entries)
    {
      this.hashOf := hashOf;
      entries := new Entry<K, V>[0];
      load := 0;
      model := map[];
    }

    /** FindElementIndex: the bucket of a key; if it is absent, the first bucket of its probe
        sequence where it can be inserted. It needs no empty bucket to stop. */
    method FindElementIndex(key: K, hash: nat) returns (found: bool, index: nat)
      requires Valid() && hash == hashOf(key)
      ensures found <==> key in model
      ensures found ==> index < entries.Length && entries[index] == Filled(Item(hash, key, model[key]))
      ensures !found && load < entries.Length ==>
                && index < entries.Length && !entries[index].Filled?
                && Crowded(entries[..], Home(hash, entries.Length), Distance(Home(hash, entries.Length), index, entries.Length))
    {
      hide Items, Consistent, Missed, Crowded, Distance, Home;
      var numEntries := entries.Length;
      ghost var s := entries[..];
      if numEntries == 0 {
        NotYetFound(s, model, hashOf, key, 0);
        return false, 0;
      }
      var idx := Home(hash, numEntries);
      ghost var home := idx;
      MissedNone(s, home, key);
      var insertableIndex, hitInsertable, n := 0, false, 0;
      while n < numEntries
        invariant 0 <= n <= numEntries && (n < numEntries ==> (if idx == numEntries then 0 else idx) == Probe(home, n, numEntries))
        invariant n == numEntries || idx <= numEntries
        invariant Missed(s, home, key, n)
        invariant if hitInsertable then insertableIndex < numEntries && !s[insertableIndex].Filled?
                                        && Crowded(s, home, Distance(home, insertableIndex, numEntries))
                  else Crowded(s, home, n)
      {
        if idx == numEntries {
          idx := 0;
        }
        var entry := entries[idx];
        if !entry.Filled? {
          if !hitInsertable {
            hitInsertable, insertableIndex := true, idx;
            ProbeDistance(home, n, numEntries);
          }
          if entry.Empty? {
            NotYetFound(s, model, hashOf, key, n);
            return false, insertableIndex;
          }
        } else {
          HeldIsKey(s, model, hashOf, idx);
          if hash == entry.item.hash && key == entry.item.key {
            return true, idx;
          }
        }
        MissedNext(s, home, key, n);
        n, idx := n + 1, idx + 1;
      }
      NotYetFound(s, model, hashOf, key, n);
      if !hitInsertable {
        AllFilled(s, home);
      }
      return false, insertableIndex;
    }

    /** Rehash: the entries of the first `oldCount` buckets are put, within the array, where
        they belong in a table of `newCount` buckets. */
    method Rehash(oldCount: nat, newCount: nat)
      requires 0 < newCount <= entries.Length && oldCount <= entries.Length
      requires NoLoose(entries[..]) && forall p :: oldCount <= p < entries.Length ==> entries[p].Empty?
      requires |Items(entries[..], false)| <= newCount
      modifies entries
      ensures Items(entries[..], false) == old(Items(entries[..], false))
      ensures forall p :: 0 <= p < entries.Length ==> entries[p].Empty? || (entries[p].Filled? && p < newCount)
      ensures Reachable(entries[..], newCount)
    {
      hide Items, Rehashing, Reachable;
      ghost var items := Items(entries[..], false);
      for i := 0 to oldCount
        invariant Items(entries[..], false) == items
        invariant forall p :: 0 <= p < i ==> entries[p].Empty? || entries[p].Loose?
        invariant forall p :: i <= p < entries.Length ==> entries[p] == old(entries[p])
      {
        ghost var s := entries[..];
        if entries[i].Deleted? {
          entries[i] := Empty;
        } else if entries[i].Filled? {
          entries[i] := Loose(entries[i].item);
        }
        assert entries[..] == s[i := entries[i]];
        SameHeld(s, i, entries[i]);
      }
      StartRehashing(entries[..], newCount, oldCount);
      for i := 0 to oldCount
        invariant Rehashing(entries[..], newCount, i, oldCount) && Items(entries[..], false) == items
      {
        Settle(entries, i, oldCount, newCount);
      }
      EndRehashing(entries[..], newCount, oldCount);
    }

    /** EnlargeEntryArray: a longer array with the same buckets and empty ones after them. */
    method EnlargeEntryArray(newCount: nat)
      requires entries.Length <= newCount
      modifies this`entries
      ensures fresh(entries) && entries.Length == newCount
      ensures entries[..old(entries.Length)] == old(entries[..])
      ensures forall p :: old(entries.Length) <= p < newCount ==> entries[p].Empty?
    {
      var oldEntries := entries;
      var newEntries := new Entry<K, V>[newCount](_ => Empty);
      forall i | 0 <= i < oldEntries.Length { newEntries[i] := oldEntries[i]; }
      entries := newEntries;
    }

    /** The beginning of Insert: a table used to its load factor is doubled. */
    method MakeRoom()
      requires Valid()
      modifies this`entries, entries
      ensures Valid() && (entries == old(entries) || fresh(entries))
      ensures load * 100 < 80 * entries.Length
      ensures entries.Length == if load * 100 < 80 * old(entries.Length) then old(entries.Length)
                                else if old(entries.Length) == 0 then 1 else 2 * old(entries.Length)
      ensures load * 100 < 80 * old(entries.Length) ==> entries == old(entries) && entries[..] == old(entries[..])
    {
      hide Items, Represents, Reachable;
      var numEntries := entries.Length;
      LoadFits(entries[..]);
      if load * 100 >= LOAD_FACTOR_PERCENTAGE * numEntries {
        var newCount := if numEntries == 0 then 1 else numEntries * 2;
        ghost var before := entries[..];
        EnlargeEntryArray(newCount);
        assert entries[..][..numEntries] == before;
        ItemsOfEmpty(entries[..], numEntries);
        Rehash(numEntries, newCount);
      }
    }

    /** Insert: adds the pair, or replaces the value of a key that is there. The array grows, to
        twice its length or from none to one bucket, if four fifths of it are in use; otherwise
        one bucket changes. */
    method Insert(key: K, value: V, hash: nat)
      requires Valid() && hash == hashOf(key)
      modifies this, entries
      ensures Valid() && model == old(model)[key := value]
      ensures entries == old(entries) || fresh(entries)
      ensures entries.Length == if old(load) * 100 < 80 * old(entries.Length) then old(entries.Length)
                                else if old(entries.Length) == 0 then 1 else 2 * old(entries.Length)
      ensures old(load) * 100 < 80 * old(entries.Length) ==>
                exists i: nat :: InsertedAt(old(entries[..]), entries[..], i, Item(hash, key, value))
    {
      hide Items, Held, Consistent, Crowded, Distance, Home;
      MakeRoom();
      var found, index := FindElementIndex(key, hash);
      ghost var s := entries[..];
      var x := Item(hash, key, value);
      entries[index] := Filled(x);
      assert entries[..] == s[index := Filled(x)];
      if found {
        ReplacedKeeps(s, model, hashOf, index, value);
        assert InsertedAt(s, entries[..], index, x);
      } else {
        assert InsertedAt(s, entries[..], index, x);
        AddedKeeps(s, model, hashOf, index, x);
        load := load + 1;
      }
      model := model[key := value];
    }

    /** RemoveEntry: a filled bucket becomes a tombstone, whatever the next bucket holds. */
    method RemoveEntry(index: nat)
      requires Valid() && index < entries.Length
      modifies this`load, this`model, entries
      ensures Valid()
      ensures entries[..] == if old(entries[index]).Filled? then old(entries[..])[index := Deleted] else old(entries[..])
      ensures model == if old(entries[index]).Filled? then old(model) - {old(entries[index]).item.key} else old(model)
    {
      hide Items, Represents, Reachable;
      ghost var s := entries[..];
      if entries[index].Filled? {
        var next := if index + 1 == entries.Length then entries[0] else entries[index + 1];
        ghost var x := entries[index].item;
        HeldIsKey(s, model, hashOf, index);
        ItemsUpdate(s, index, Deleted, false);
        entries[index] := if next.Empty? then Empty else Deleted;
        entries[index] := Deleted;
        assert entries[..] == s[index := Deleted];
        RemovedKeeps(s, model, hashOf, index);
        load := load - 1;
        model := model - {x.key};
      }
    }

    /** Balance: a table of which less than two fifths is used is halved. */
    method Balance()
      requires Valid()
      modifies this`entries, entries
      ensures Valid() && (entries == old(entries) || fresh(entries))
      ensures entries.Length == if load > 8 && load < old(entries.Length) * 80 / 200
                                then old(entries.Length) / 2 else old(entries.Length)
      ensures entries.Length == old(entries.Length) ==> entries == old(entries) && entries[..] == old(entries[..])
    {
      hide Items, Represents, Reachable;
      var shrinkThreshold := entries.Length * LOAD_FACTOR_PERCENTAGE / 200;
      if load > 8 && load < shrinkThreshold {
        var newCount := entries.Length / 2;
        Rehash(entries.Length, newCount);
        ghost var s := entries[..];
        var kept := new Entry<K, V>[newCount](i requires 0 <= i < newCount <= entries.Length reads this, entries => entries[i]);
        assert kept[..] == s[..newCount];
        ItemsOfEmpty(s, newCount);
        PrefixReachable(s, newCount);
        entries := kept;
      }
    }
  }

  /** A key not met in the first `n` probes, the probe having ended there, is not in the map. */
  lemma {:induction false} NotYetFound<K, V>(s: seq<Entry<K, V>>, m: map<K, V>, hashOf: K -> nat, key: K, n: nat)
    requires Consistent(s, m, hashOf) && n <= |s|
    requires s != [] ==> var home := Home(hashOf(key), |s|);
               Missed(s, home, key, n) && (n < |s| ==> s[Probe(home, n, |s|)].Empty?)
    ensures key !in m
  {
    hide Items, Represents;
    if key in m {
      var p := KeyIsHeld(s, m, hashOf, key);
      assert false;
    }
  }

  lemma {:induction false} AllFilled<K, V>(s: seq<Entry<K, V>>, home: nat)
    requires home < |s| && Crowded(s, home, |s|)
    ensures |Items(s, false)| >= |s|
  {
    hide Items;
    forall p | 0 <= p < |s| ensures Taken(s[p]) {
      assert s[Probe(home, Distance(home, p, |s|), |s|)].Filled?;
    }
    AllTaken(s, |s|);
  }

  // ---------------------------------------------------------------- what one update keeps

  lemma SameHeld<K, V>(s: seq<Entry<K, V>>, i: nat, e: Entry<K, V>)
    requires i < |s| && Held(s[i], false) == Held(e, false)
    ensures Items(s[i := e], false) == Items(s, false)
  {
    hide Items, Held;
    ItemsUpdate(s, i, e, false);
    var t := Items(s[i := e], false);
    assert t == t + Held(s[i], false) - Held(s[i], false);
  }

  lemma LoadFits<K, V>(s: seq<Entry<K, V>>)
    ensures |Items(s, false)| <= |s|
  {
  }

  lemma StartRehashing<K, V>(s: seq<Entry<K, V>>, n: nat, oldCount: nat)
    requires 0 < n <= |s| && oldCount <= |s|
    requires forall p :: 0 <= p < oldCount ==> s[p].Empty? || s[p].Loose?
    requires forall p :: oldCount <= p < |s| ==> s[p].Empty?
    ensures Rehashing(s, n, 0, oldCount)
  {
  }

  lemma EndRehashing<K, V>(s: seq<Entry<K, V>>, n: nat, oldCount: nat)
    requires 0 < n <= |s| && oldCount <= |s| && Rehashing(s, n, oldCount, oldCount)
    ensures Reachable(s, n) && forall p :: 0 <= p < |s| ==> s[p].Empty? || (s[p].Filled? && p < n)
  {
  }

  lemma PrefixReachable<K, V>(s: seq<Entry<K, V>>, n: nat)
    requires 0 < n <= |s| && Reachable(s, n)
    ensures Reachable(s[..n], n)
  {
  }

  /** Filling the first free bucket of a probe sequence keeps every bucket reachable. */
  lemma FilledReachable<K, V>(s: seq<Entry<K, V>>, i: nat, x: Item<K, V>)
    requires i < |s| && Reachable(s, |s|)
    requires forall j :: 0 <= j < Distance(Home(x.hash, |s|), i, |s|) ==> !s[Probe(Home(x.hash, |s|), j, |s|)].Empty?
    ensures Reachable(s[i := Filled(x)], |s|)
  {
    var t, n := s[i := Filled(x)], |s|;
    forall p, j | 0 <= p < n && t[p].Filled? && 0 <= j < Distance(Home(t[p].item.hash, n), p, n)
      ensures !t[Probe(Home(t[p].item.hash, n), j, n)].Empty?
    {
      assert p == i || t[p] == s[p];
      assert !s[Probe(Home(t[p].item.hash, n), j, n)].Empty?;
    }
  }

  lemma AddedKeeps<K, V>(s: seq<Entry<K, V>>, m: map<K, V>, hashOf: K -> nat, i: nat, x: Item<K, V>)
    requires Consistent(s, m, hashOf) && i < |s| && !s[i].Filled? && x.key !in m && x.hash == hashOf(x.key)
    requires Crowded(s, Home(x.hash, |s|), Distance(Home(x.hash, |s|), i, |s|))
    ensures Consistent(s[i := Filled(x)], m[x.key := x.value], hashOf)
    ensures Items(s[i := Filled(x)], false) == Items(s, false) + multiset{x}
  {
    hide Items, Represents, Reachable;
    FilledReachable(s, i, x);
    ItemsUpdate(s, i, Filled(x), false);
    assert x == Item(hashOf(x.key), x.key, x.value);
    assert Held(s[i], false) == multiset{};
    assert Items(s[i := Filled(x)], false) == Items(s, false) + multiset{x};
    RepresentsAdd(Items(s, false), m, hashOf, x.key, x.value);
  }

  lemma ReplacedKeeps<K, V>(s: seq<Entry<K, V>>, m: map<K, V>, hashOf: K -> nat, i: nat, v: V)
    requires Consistent(s, m, hashOf) && i < |s| && s[i].Filled?
    ensures var x := s[i].item; var t := s[i := Filled(x.(value := v))];
            Consistent(t, m[x.key := v], hashOf) && |Items(t, false)| == |Items(s, false)|
  {
    hide Items, Represents, Reachable;
    var x := s[i].item;
    HeldIsKey(s, m, hashOf, i);
    StillReachable(s, i, Filled(x.(value := v)));
    ItemsUpdate(s, i, Filled(x.(value := v)), false);
    RepresentsReplace(Items(s, false), m, hashOf, x, v);
    var t := Items(s[i := Filled(x.(value := v))], false);
    assert t == t + multiset{x} - multiset{x};
    assert t == Items(s, false) + multiset{x.(value := v)} - multiset{x};
    assert t == Items(s, false) - multiset{x} + multiset{x.(value := v)};
  }

  lemma RemovedKeeps<K, V>(s: seq<Entry<K, V>>, m: map<K, V>, hashOf: K -> nat, i: nat)
    requires Consistent(s, m, hashOf) && i < |s| && s[i].Filled?
    ensures Consistent(s[i := Deleted], m - {s[i].item.key}, hashOf)
    ensures Items(s[i := Deleted], false) == Items(s, false) - multiset{s[i].item}
    ensures |Items(s, false)| >= 1 && |Items(s[i := Deleted], false)| == |Items(s, false)| - 1
  {
    hide Items, Represents, Reachable;
    var x := s[i].item;
    HeldIsKey(s, m, hashOf, i);
    StillReachable(s, i, Deleted);
    ItemsUpdate(s, i, Deleted, false);
    RepresentsRemove(Items(s, false), m, hashOf, x);
    var t := Items(s[i := Deleted], false);
    assert t + multiset{x} == Items(s, false);
    assert t == t + multiset{x} - multiset{x};
    assert |t + multiset{x}| == |t| + 1;
  }

  /** Changing a filled bucket to a tombstone, or to an entry with the same hash, keeps every
      bucket reachable. */
  lemma StillReachable<K, V>(s: seq<Entry<K, V>>, i: nat, e: Entry<K, V>)
    requires i < |s| && Reachable(s, |s|) && s[i].Filled?
    requires e.Deleted? || (e.Filled? && e.item.hash == s[i].item.hash)
    ensures Reachable(s[i := e], |s|)
  {
    var t, n := s[i := e], |s|;
    forall p, j | 0 <= p < n && t[p].Filled? && 0 <= j < Distance(Home(t[p].item.hash, n), p, n)
      ensures !t[Probe(Home(t[p].item.hash, n), j, n)].Empty?
    {
      assert s[p].Filled? && s[p].item.hash == t[p].item.hash;
      assert !s[Probe(Home(s[p].item.hash, n), j, n)].Empty?;
    }
  }
}
