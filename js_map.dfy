/**
 * A JavaScript `Map<string, V>` as the abuse gate uses it: a dictionary plus
 * the order in which its keys were first inserted, which is the order
 * `for (const [key, value] of store)` walks. `set` on a key that is already
 * present keeps that key's position; `delete` removes it from the order.
 * Also here: the bounded sweep `cleanupExpired` (app/lib/abuse.server.ts).
 */
module JsMap {
  import opened Wrappers

  /** Entries visited per sweep (`if (++scanned >= 50) break`). */
  const ScanCap: nat := 50

  predicate Distinct(s: seq<string>) {
    forall i, j :: 0 <= i < j < |s| ==> s[i] != s[j]
  }

  /** `s` with every key of `gone` dropped, relative order kept. */
  function Without(s: seq<string>, gone: set<string>): (r: seq<string>)
    ensures |r| <= |s|
    ensures forall x :: x in r <==> x in s && x !in gone
    ensures Distinct(s) ==> Distinct(r)
  {
    if s == [] then []
    else
      var rest := Without(s[1..], gone);
      if s[0] in gone then rest
      else
        assert Distinct(s) ==> s[0] !in s[1..];
        [s[0]] + rest
  }

  /** Dropping no keys changes nothing. */
  lemma {:induction false} WithoutNothing(s: seq<string>)
    ensures Without(s, {}) == s
  {
    if s != [] {
      WithoutNothing(s[1..]);
      assert [s[0]] + s[1..] == s;
    }
  }

  /** Dropping two key sets one after the other drops their union. */
  lemma {:induction false} WithoutTwice(s: seq<string>, a: set<string>, b: set<string>)
    ensures Without(Without(s, a), b) == Without(s, a + b)
  {
    if s != [] {
      WithoutTwice(s[1..], a, b);
      if s[0] !in a {
        assert Without(s, a)[1..] == Without(s[1..], a);
      }
    }
  }

  /** Dropping keys works piece by piece, so the kept keys stay in their relative order. */
  lemma {:induction false} WithoutAppend(a: seq<string>, b: seq<string>, gone: set<string>)
    ensures Without(a + b, gone) == Without(a, gone) + Without(b, gone)
  {
    if a == [] {
      assert a + b == b;
    } else {
      assert (a + b)[0] == a[0] && (a + b)[1..] == a[1..] + b;
      WithoutAppend(a[1..], b, gone);
    }
  }

  /** Dropping keys none of which occur changes nothing. */
  lemma {:induction false} WithoutAbsent(s: seq<string>, gone: set<string>)
    requires forall i :: 0 <= i < |s| ==> s[i] !in gone
    ensures Without(s, gone) == s
  {
    if s != [] {
      WithoutAbsent(s[1..], gone);
      assert [s[0]] + s[1..] == s;
    }
  }

  lemma MinusTwice<V>(m: map<string, V>, a: set<string>, b: set<string>)
    ensures (m - a) - b == m - (a + b)
  {
  }

  /** The abstract value of a Map: insertion order and contents. */
  datatype Table<V> = Table(order: seq<string>, entries: map<string, V>) {

    /** Each key appears once in the order, and exactly the stored keys appear. */
    ghost predicate Valid() {
      Distinct(order) && forall k :: k in entries <==> k in order
    }

    /** `map.set(k, v)`. */
    function Put(k: string, v: V): (t: Table<V>)
      ensures Valid() ==> t.Valid()
      ensures k in t.entries && t.entries[k] == v
      ensures forall j :: j != k ==> (j in t.entries <==> j in entries)
      ensures forall j :: j != k && j in entries ==> t.entries[j] == entries[j]
      ensures k in entries ==> t.order == order
      ensures k !in entries ==> t.order == order + [k]
    {
      if k in entries then Table(order, entries[k := v])
      else Table(order + [k], entries[k := v])
    }

    /** `map.delete(k)`. */
    function Remove(k: string): (t: Table<V>)
      ensures Valid() ==> t.Valid()
      ensures k !in t.entries && t.entries.Keys == entries.Keys - {k}
      ensures forall j :: j in t.entries ==> t.entries[j] == entries[j]
    {
      Table(Without(order, {k}), entries - {k})
    }

    /**
     * Deleting the key at position `i` of the iteration order closes the gap:
     * the keys before and after it keep their relative order.
     */
    lemma RemoveKeepsOrder(k: string, i: nat)
      requires Valid() && i < |order| && order[i] == k
      ensures Remove(k).order == order[..i] + order[i + 1..]
    {
      assert order == order[..i] + [k] + order[i + 1..];
      WithoutAppend(order[..i] + [k], order[i + 1..], {k});
      WithoutAppend(order[..i], [k], {k});
      WithoutAbsent(order[..i], {k});
      WithoutAbsent(order[i + 1..], {k});
      assert Without([k], {k}) == [];
      assert order[..i] + [] == order[..i];
    }

    /** Deleting a key that is not present leaves the order as it was. */
    lemma RemoveAbsent(k: string)
      requires Valid() && k !in entries
      ensures Remove(k) == this
    {
      WithoutAbsent(order, {k});
      assert entries - {k} == entries;
    }
  }

  function Empty<V>(): (t: Table<V>)
    ensures t.Valid() && t.entries == map[]
  {
    Table([], map[])
  }

  /** Number of entries one sweep visits: the first 50, or all if fewer. */
  function ScanCount<V>(t: Table<V>): (n: nat)
    ensures n <= |t.order| && n <= ScanCap
    ensures n == ScanCap || n == |t.order|
  {
    if |t.order| < ScanCap then |t.order| else ScanCap
  }

  /** The keys among `keys` whose entries have expired at `now`. */
  function ExpiredAmong<V>(keys: seq<string>, entries: map<string, V>, now: int, expiry: V -> int): set<string> {
    set k | k in keys && k in entries && expiry(entries[k]) <= now
  }

  /** `t` with the keys in `gone` deleted. */
  function Pruned<V>(t: Table<V>, gone: set<string>): Table<V> {
    Table(Without(t.order, gone), t.entries - gone)
  }

  /** Deleting one more key from a pruned table prunes that key as well. */
  lemma PrunedRemove<V>(t: Table<V>, gone: set<string>, k: string)
    ensures Pruned(t, gone).Remove(k) == Pruned(t, gone + {k})
  {
    WithoutTwice(t.order, gone, {k});
    MinusTwice(t.entries, gone, {k});
  }

  /**
   * What one call of `cleanupExpired(store, now)` leaves: among the first
   * 50 entries in insertion order, those whose expiry is at or before `now`
   * are deleted; nothing else changes.
   */
  function Sweep<V>(t: Table<V>, now: int, expiry: V -> int): (r: Table<V>)
    ensures t.Valid() ==> r.Valid()
    ensures forall k :: k in r.entries ==> k in t.entries && r.entries[k] == t.entries[k]
    ensures forall k :: k in t.entries && k !in r.entries ==> expiry(t.entries[k]) <= now
    ensures forall k :: k in t.entries && expiry(t.entries[k]) > now ==> k in r.entries
    ensures forall i :: ScanCount(t) <= i < |t.order| && t.order[i] in t.entries ==>
      t.Valid() ==> t.order[i] in r.entries
    ensures forall i :: 0 <= i < ScanCount(t) && t.order[i] in t.entries && expiry(t.entries[t.order[i]]) <= now ==>
      t.order[i] !in r.entries
    ensures r.order == Without(t.order, t.entries.Keys - r.entries.Keys)
  {
    var gone := ExpiredAmong(t.order[..ScanCount(t)], t.entries, now, expiry);
    assert t.Valid() ==> forall i :: ScanCount(t) <= i < |t.order| ==> t.order[i] !in t.order[..ScanCount(t)];
    assert forall i :: 0 <= i < ScanCount(t) ==> t.order[i] in t.order[..ScanCount(t)];
    assert t.entries.Keys - (t.entries - gone).Keys == gone;
    Pruned(t, gone)
  }

  /** A mutable Map object. */
  class Store<V> {
    var order: seq<string>
    var entries: map<string, V>

    function Value(): Table<V>
      reads this
    {
      Table(order, entries)
    }

    ghost predicate Valid()
      reads this
    {
      Value().Valid()
    }

    /** `new Map()` */
    constructor ()
      ensures Valid() && Value() == Empty()
    {
      order, entries := [], map[];
    }

    /** `map.get(k)` */
    function Get(k: string): (r: Option<V>)
      reads this
      ensures r.Some? <==> k in entries
      ensures r.Some? ==> r.value == entries[k]
    {
      Lookup(entries, k)
    }

    /** `map.set(k, v)` */
    method Set(k: string, v: V)
      requires Valid()
      modifies this
      ensures Valid()
      ensures Value() == old(Value()).Put(k, v)
    {
      if k !in entries {
        order := order + [k];
      }
      entries := entries[k := v];
    }

    /** `map.delete(k)` */
    method Delete(k: string)
      requires Valid()
      modifies this
      ensures Valid()
      ensures Value() == old(Value()).Remove(k)
    {
      order := Without(order, {k});
      entries := entries - {k};
    }
  }

  /**
   * `cleanupExpired(store, now)`: walks the entries in insertion order,
   * deleting each one whose expiry is at or before `now`, and stops after
   * the 50th. Deleting the entry the walk stands on does not disturb a
   * JavaScript Map iteration, so walking a copy of the key order visits the
   * same entries.
   */
  method CleanupExpired<V>(store: Store<V>, now: int, expiry: V -> int)
    requires store.Valid()
    modifies store
    ensures store.Valid()
    ensures store.Value() == Sweep(old(store.Value()), now, expiry)
  {
    ghost var t0 := store.Value();
    var keys := store.order;
    var scanned := 0;
    ghost var gone: set<string> := {};
    PrunedNothing(t0);
    while scanned < |keys|
      invariant keys == t0.order && t0.Valid()
      invariant 0 <= scanned <= |keys| && scanned < ScanCap
      invariant gone == ExpiredAmong(keys[..scanned], t0.entries, now, expiry)
      invariant store.Valid() && store.Value() == Pruned(t0, gone)
    {
      var key := keys[scanned];
      ExpiredAmongStep(t0, scanned, now, expiry);
      var value := store.entries[key];
      if expiry(value) <= now {
        store.Delete(key);
        PrunedRemove(t0, gone, key);
        gone := gone + {key};
      }
      scanned := scanned + 1;
      if scanned >= ScanCap {
        assert gone == ExpiredAmong(keys[..scanned], t0.entries, now, expiry);
        assert store.Value() == Pruned(t0, gone);
        break;
      }
    }
    assert scanned == ScanCount(t0);
  }

  lemma PrunedNothing<V>(t: Table<V>)
    ensures Pruned(t, {}) == t
  {
    WithoutNothing(t.order);
    assert t.entries - {} == t.entries;
  }

  /** One more visited key adds itself to the expired set exactly when it has expired. */
  lemma ExpiredAmongStep<V>(t: Table<V>, i: nat, now: int, expiry: V -> int)
    requires t.Valid() && i < |t.order|
    ensures t.order[i] in t.entries
    ensures t.order[i] !in ExpiredAmong(t.order[..i], t.entries, now, expiry)
    ensures ExpiredAmong(t.order[..i + 1], t.entries, now, expiry) ==
      ExpiredAmong(t.order[..i], t.entries, now, expiry) +
      (if expiry(t.entries[t.order[i]]) <= now then {t.order[i]} else {})
  {
    assert t.order[..i + 1] == t.order[..i] + [t.order[i]];
  }
}
