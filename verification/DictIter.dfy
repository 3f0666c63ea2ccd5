/** Safe iteration (dictNext, dictReleaseIterator) while the dictionary is being used. Entries are
    named by their keys; an iterator remembers the entry it returned and the one after it. */
module DictIter {
  import opened Basics
  import opened DictState

  datatype Iter<+K> = Iter(table: nat, index: int, entry: Option<K>, next: Option<K>)

  function NewIter<K>(): Iter<K> {
    Iter(0, -1, None, None)
  }

  predicate Started<K>(it: Iter<K>) {
    it.index != -1 || it.table != 0
  }

  function TableOf<K, V>(s: State<K, V>, table: nat): Table<K, V> {
    if table == 0 then s.ht0 else s.ht1
  }

  /** The part of a chain from the entry with key n on. */
  function From<K(==), V>(chain: seq<Entry<K, V>>, n: K): (r: seq<Entry<K, V>>) {
    if chain == [] then [] else if chain[0].key == n then chain else From(chain[1..], n)
  }

  function AfterKey<K(==), V>(chain: seq<Entry<K, V>>, n: K): Option<K> {
    if |From(chain, n)| > 1 then Some(From(chain, n)[1].key) else None
  }

  /** The first non-empty bucket from position i of a table on, going over to the second table at the
      end of the first one during a rehash. */
  function NextBucket<K, V>(s: State<K, V>, table: nat, i: nat): (r: (nat, nat))
    decreases 2 - table, |TableOf(s, table).buckets| - i
  {
    if i < |TableOf(s, table).buckets| then
      if TableOf(s, table).buckets[i] != [] then (table, i) else NextBucket(s, table, i + 1)
    else if Rehashing(s) && table == 0 then NextBucket(s, 1, 0)
    else (table, i)
  }

  /** dictNext: the dictionary with its iterator count, the iterator, the key of the entry returned. */
  function Next<K(==), V>(s: State<K, V>, it: Iter<K>): (r: (State<K, V>, Iter<K>, Option<K>))
    requires it.index >= -1
  {
    var s' := if Started(it) then s else s.(iterators := s.iterators + 1);
    if it.entry.Some? && it.next.Some? then
      var buckets := TableOf(s, it.table).buckets;
      var chain := if 0 <= it.index < |buckets| then buckets[it.index] else [];
      (s', it.(entry := it.next, next := AfterKey(chain, it.next.value)), it.next)
    else
      var (table, i) := NextBucket(s, it.table, it.index + 1);
      if i < |TableOf(s, table).buckets| && TableOf(s, table).buckets[i] != [] then
        var chain := TableOf(s, table).buckets[i];
        (s', Iter(table, i, Some(chain[0].key), AfterKey(chain, chain[0].key)), Some(chain[0].key))
      else (s', Iter(table, i, None, None), None)
  }

  /** dictReleaseIterator */
  function Release<K, V>(s: State<K, V>, it: Iter<K>): State<K, V> {
    if Started(it) then s.(iterators := s.iterators - 1) else s
  }

  // ---------------------------------------------------------------- what is still ahead

  ghost predicate InRest<K, V>(s: State<K, V>, it: Iter<K>, k: K) {
    && it.entry.Some? && it.next.Some? && 0 <= it.index < |TableOf(s, it.table).buckets|
    && HasKey(From(TableOf(s, it.table).buckets[it.index], it.next.value), k)
  }

  ghost predicate InLaterBucket<K, V>(hash: K -> nat, t: Table<K, V>, i: int, k: K) {
    FindInTable(hash, k, t).Some? && |t.buckets| > 0 && Index(hash, k, t) >= i
  }

  /** Key k stands in bucket i or later, or in the second table when that is still to come. */
  ghost predicate AheadFrom<K, V>(hash: K -> nat, s: State<K, V>, table: nat, i: int, k: K) {
    InLaterBucket(hash, TableOf(s, table), i, k) || (table == 0 && Rehashing(s) && FindInTable(hash, k, s.ht1).Some?)
  }

  /** Key k has not been passed. */
  ghost predicate Ahead<K, V>(hash: K -> nat, s: State<K, V>, it: Iter<K>, k: K) {
    InRest(s, it, k) || AheadFrom(hash, s, it.table, it.index + 1, k)
  }

  ghost predicate ValidIter<K(!new), V>(hash: K -> nat, s: State<K, V>, it: Iter<K>) {
    && it.table <= 1 && it.index >= -1 && (it.table == 1 ==> Rehashing(s))
    && (Started(it) ==> s.iterators > 0)
    && (it.entry.None? ==> it.next.None?)
    && (it.entry.Some? ==> 0 <= it.index < |TableOf(s, it.table).buckets|)
    && (it.next.Some? ==> it.next != it.entry && HasKey(TableOf(s, it.table).buckets[it.index], it.next.value))
  }

  lemma {:induction false} FromIsSuffix<K, V>(chain: seq<Entry<K, V>>, n: K)
    requires Distinct(chain)
    ensures Distinct(From(chain, n)) && (HasKey(chain, n) <==> From(chain, n) != [])
    ensures From(chain, n) != [] ==> From(chain, n)[0].key == n
    ensures forall k :: HasKey(From(chain, n), k) ==> HasKey(chain, k)
    ensures |From(chain, n)| > 1 ==> From(chain, From(chain, n)[1].key) == From(chain, n)[1..]
  {
    if chain != [] && chain[0].key != n {
      FromIsSuffix(chain[1..], n);
      HasKeyTail(chain);
      if |From(chain, n)| > 1 {
        var r := From(chain, n);
        assert HasKey(From(chain[1..], n), r[1].key);
        assert chain[0].key != r[1].key by {
          var i :| 0 <= i < |chain[1..]| && chain[1..][i].key == r[1].key;
        }
      }
    } else if |chain| > 1 {
      assert From(chain, chain[1].key) == From(chain[1..], chain[1].key) == chain[1..];
    }
  }

  lemma HasKeyTail<K, V>(chain: seq<Entry<K, V>>)
    requires chain != []
    ensures forall k :: HasKey(chain, k) <==> chain[0].key == k || HasKey(chain[1..], k)
  {
    forall k ensures HasKey(chain, k) <==> chain[0].key == k || HasKey(chain[1..], k) {
      if HasKey(chain[1..], k) {
        var i :| 0 <= i < |chain[1..]| && chain[1..][i].key == k;
        assert chain[i + 1].key == k;
      }
      if HasKey(chain, k) && chain[0].key != k {
        var i :| 0 <= i < |chain| && chain[i].key == k;
        assert chain[1..][i - 1].key == k;
      }
    }
  }

  /** A key of the second entry of a chain differs from the first, and the rest after it is the rest
      without it. */
  lemma RestAfter<K(!new), V>(chain: seq<Entry<K, V>>, n: K)
    requires Distinct(chain) && HasKey(chain, n)
    ensures var m := AfterKey(chain, n);
      && (m.Some? ==> m.value != n && HasKey(chain, m.value))
      && forall k :: HasKey(From(chain, n), k) <==> k == n || (m.Some? && HasKey(From(chain, m.value), k))
    ensures AfterKey(chain, n).Some? ==> !HasKey(From(chain, AfterKey(chain, n).value), n)
  {
    FromIsSuffix(chain, n);
    var r := From(chain, n);
    HasKeyTail(r);
    if |r| > 1 {
      assert HasKey(r, r[1].key);
      assert From(chain, r[1].key) == r[1..];
      forall i | 0 <= i < |r[1..]| ensures r[1..][i].key != n { assert r[i + 1].key != r[0].key; }
    }
  }

  lemma FoundInChain<K(!new), V>(hash: K -> nat, t: Table<K, V>)
    requires ValidTable(hash, t)
    ensures forall k :: FindInTable(hash, k, t).Some? ==>
      HasKey(t.buckets[Index(hash, k, t)], k) && t.buckets[Index(hash, k, t)] != []
    ensures forall b :: 0 <= b < |t.buckets| ==> Distinct(t.buckets[b])
    ensures forall b, k :: 0 <= b < |t.buckets| && HasKey(t.buckets[b], k) ==>
      FindInTable(hash, k, t).Some? && Index(hash, k, t) == b
  {
    hide Slot;
    forall k | FindInTable(hash, k, t).Some? ensures HasKey(t.buckets[Index(hash, k, t)], k) {
      FindInHasKey(t.buckets[Index(hash, k, t)], k);
    }
    forall b, k | 0 <= b < |t.buckets| && HasKey(t.buckets[b], k)
      ensures FindInTable(hash, k, t).Some? && Index(hash, k, t) == b {
      FindInHasKey(t.buckets[b], k);
      ChainKeys(hash, t, b);
    }
    forall b | 0 <= b < |t.buckets| ensures Distinct(t.buckets[b]) {
      assert ValidChain(hash, t.buckets[b], b, |t.buckets|);
    }
  }

  /** What one call of dictNext does to the keys still ahead. */
  ghost predicate Advances<K(!new), V>(hash: K -> nat, s: State<K, V>, it: Iter<K>, it': Iter<K>, r: Option<K>) {
    && ValidIter(hash, s, it') && Started(it') && it'.entry == r
    && (r.Some? ==> Ahead(hash, s, it, r.value) && !Ahead(hash, s, it', r.value) && Lookup(hash, s, r.value).Some?)
    && (forall k :: r != Some(k) ==> (Ahead(hash, s, it', k) <==> Ahead(hash, s, it, k)))
    && (r.None? ==> forall k :: !Ahead(hash, s, it, k))
  }

  /** Going on in the current chain. */
  lemma NextInChain<K(!new), V>(hash: K -> nat, s: State<K, V>, it: Iter<K>)
    requires Valid(hash, s) && ValidIter(hash, s, it) && it.entry.Some? && it.next.Some?
    ensures Advances(hash, s, it, Next(s, it).1, it.next)
  {
    var t := TableOf(s, it.table);
    var chain := t.buckets[it.index];
    FoundInChain(hash, t);
    RestAfter(chain, it.next.value);
    hide Slot, Index, FindInTable, From, HasKey, Distinct, AfterKey, ValidTable;
  }

  /** Skipping empty buckets, and going over to the second table, passes no key. */
  lemma {:induction false} NextBucketSkips<K(!new), V>(hash: K -> nat, s: State<K, V>, table: nat, i: nat)
    requires ValidTable(hash, s.ht0) && ValidTable(hash, s.ht1) && table <= 1 && (table == 1 ==> Rehashing(s))
    ensures var (t, j) := NextBucket(s, table, i);
      && t <= 1 && (t == 1 ==> Rehashing(s))
      && (j < |TableOf(s, t).buckets| ==> TableOf(s, t).buckets[j] != [])
      && (t == 0 && j >= |s.ht0.buckets| ==> !Rehashing(s))
      && forall k :: AheadFrom(hash, s, t, j, k) <==> AheadFrom(hash, s, table, i, k)
    decreases 2 - table, |TableOf(s, table).buckets| - i
  {
    FoundInChain(hash, s.ht0);
    FoundInChain(hash, s.ht1);
    hide ValidTable, Index, FindInTable, HasKey, Distinct;
    if i < |TableOf(s, table).buckets| {
      if TableOf(s, table).buckets[i] == [] { NextBucketSkips(hash, s, table, i + 1); }
    } else if Rehashing(s) && table == 0 {
      NextBucketSkips(hash, s, 1, 0);
    }
  }

  /** Entering bucket j: its keys come first, then those of later buckets. */
  lemma EnterBucket<K(!new), V>(hash: K -> nat, s: State<K, V>, table: nat, j: nat)
    requires ValidTable(hash, TableOf(s, table)) && (table == 0 ==> Disjoint(hash, s.ht0, s.ht1))
    requires j < |TableOf(s, table).buckets| && TableOf(s, table).buckets[j] != []
    ensures var chain := TableOf(s, table).buckets[j]; var k0 := chain[0].key;
      && Distinct(chain) && HasKey(chain, k0) && From(chain, k0) == chain
      && Lookup(hash, s, k0).Some? && !AheadFrom(hash, s, table, j + 1, k0)
      && forall k :: AheadFrom(hash, s, table, j, k) <==> HasKey(chain, k) || AheadFrom(hash, s, table, j + 1, k)
  {
    FoundInChain(hash, TableOf(s, table));
    var chain := TableOf(s, table).buckets[j];
    assert HasKey(chain, chain[0].key);
    hide ValidTable, Slot, FindInTable, HasKey, Distinct;
  }

  lemma NoneBeyond<K(!new), V>(hash: K -> nat, s: State<K, V>, table: nat, j: nat)
    requires j >= |TableOf(s, table).buckets| && (table == 0 ==> !Rehashing(s))
    ensures forall k :: !AheadFrom(hash, s, table, j, k)
  {}

  /** Going on to the next non-empty bucket. */
  lemma NextInBucket<K(!new), V>(hash: K -> nat, s: State<K, V>, it: Iter<K>)
    requires Valid(hash, s) && ValidIter(hash, s, it) && s.iterators > 0 && !(it.entry.Some? && it.next.Some?)
    ensures Advances(hash, s, it, Next(s, it).1, Next(s, it).2)
  {
    AlwaysDisjoint(hash, s);
    hide Valid, Slot, Index, Lookup, ValidTable, NextBucket, AheadFrom, AfterKey, From, HasKey, Distinct;
    NextBucketSkips(hash, s, it.table, it.index + 1);
    var (table, j) := NextBucket(s, it.table, it.index + 1);
    if j < |TableOf(s, table).buckets| {
      AdvancesInto(hash, s, it, table, j);
    } else {
      NoneBeyond(hash, s, table, j);
      NoneBeyond(hash, s, table, j + 1);
    }
  }

  lemma AdvancesInto<K(!new), V>(hash: K -> nat, s: State<K, V>, it: Iter<K>, table: nat, j: nat)
    requires ValidTable(hash, s.ht0) && ValidTable(hash, s.ht1) && Disjoint(hash, s.ht0, s.ht1) && s.iterators > 0
    requires table <= 1 && (table == 1 ==> Rehashing(s)) && !(it.entry.Some? && it.next.Some?)
    requires j < |TableOf(s, table).buckets| && TableOf(s, table).buckets[j] != []
    requires forall k :: AheadFrom(hash, s, table, j, k) <==> AheadFrom(hash, s, it.table, it.index + 1, k)
    ensures var chain := TableOf(s, table).buckets[j]; var k0 := chain[0].key;
      Advances(hash, s, it, Iter(table, j, Some(k0), AfterKey(chain, k0)), Some(k0))
  {
    hide Slot, Index, Lookup, ValidTable, AheadFrom, AfterKey, From, HasKey, Distinct, FindInTable;
    EnterBucket(hash, s, table, j);
    var chain := TableOf(s, table).buckets[j];
    var k0 := chain[0].key;
    RestAfter(chain, k0);
    var it' := Iter(table, j, Some(k0), AfterKey(chain, k0));
    forall k | k != k0 ensures Ahead(hash, s, it', k) <==> Ahead(hash, s, it, k) {
      assert AheadFrom(hash, s, table, j, k) <==> HasKey(From(chain, k0), k) || AheadFrom(hash, s, table, j + 1, k);
    }
  }

  lemma AlwaysDisjoint<K(!new), V>(hash: K -> nat, s: State<K, V>)
    requires Valid(hash, s)
    ensures Disjoint(hash, s.ht0, s.ht1) && ValidTable(hash, s.ht0) && ValidTable(hash, s.ht1)
  {}

  /** dictNext returns a stored key that was still ahead, takes exactly that key off, and returns NULL
      only when nothing is ahead. */
  lemma NextEffect<K(!new), V>(hash: K -> nat, s: State<K, V>, it: Iter<K>)
    requires Valid(hash, s) && ValidIter(hash, s, it)
    ensures var (s', it', r) := Next(s, it);
      && Valid(hash, s') && s' == s.(iterators := s.iterators + if Started(it) then 0 else 1)
      && Advances(hash, s', it, it', r)
  {
    var s' := if Started(it) then s else s.(iterators := s.iterators + 1);
    if it.entry.Some? && it.next.Some? {
      NextInChain(hash, s, it);
    } else {
      NextInBucket(hash, s', it);
    }
    IterStateOnly(s, s', it);
  }

  lemma IterStateOnly<K, V>(s: State<K, V>, s': State<K, V>, it: Iter<K>)
    requires it.index >= -1 && s'.ht0 == s.ht0 && s'.ht1 == s.ht1 && s'.rehashidx == s.rehashidx
    ensures Next(s', it).1 == Next(s, it).1 && Next(s', it).2 == Next(s, it).2
  {
    SameBuckets(s, s', it.table, it.index + 1);
  }

  lemma {:induction false} SameBuckets<K, V>(s: State<K, V>, s': State<K, V>, table: nat, i: nat)
    requires s'.ht0 == s.ht0 && s'.ht1 == s.ht1 && s'.rehashidx == s.rehashidx
    ensures NextBucket(s', table, i) == NextBucket(s, table, i)
    decreases 2 - table, |TableOf(s, table).buckets| - i
  {
    if i < |TableOf(s, table).buckets| {
      if TableOf(s, table).buckets[i] == [] { SameBuckets(s, s', table, i + 1); }
    } else if Rehashing(s) && table == 0 {
      SameBuckets(s, s', 1, 0);
    }
  }

  // ---------------------------------------------------------------- operations while iterating

  /** The iterator stays usable, and every key other than the changed one is ahead exactly as before. */
  ghost predicate KeepsAhead<K(!new), V>(hash: K -> nat, s: State<K, V>, s': State<K, V>, it: Iter<K>,
                                         changed: Option<K>) {
    && ValidIter(hash, s', it)
    && forall k :: Some(k) != changed ==> (Ahead(hash, s', it, k) <==> Ahead(hash, s, it, k))
  }

  /** Before the first dictNext everything stored is ahead. */
  lemma NotStarted<K(!new), V>(hash: K -> nat, s: State<K, V>, it: Iter<K>)
    requires Valid(hash, s) && !Started(it) && it.entry.None? && it.next.None?
    ensures forall k :: Ahead(hash, s, it, k) <==> Lookup(hash, s, k).Some?
  {
    hide Slot, ValidTable;
  }

  lemma {:induction false} UnlinkRest<K(!new), V>(chain: seq<Entry<K, V>>, k0: K, n: K)
    requires Distinct(chain) && k0 != n
    ensures forall k :: k != k0 ==> (HasKey(From(Unlink(chain, k0), n), k) <==> HasKey(From(chain, n), k))
    ensures HasKey(Unlink(chain, k0), n) <==> HasKey(chain, n)
  {
    if chain != [] {
      HasKeyTail(chain);
      UnlinkRest(chain[1..], k0, n);
      var u := Unlink(chain, k0);
      if chain[0].key == k0 {
        assert u == chain[1..];
      } else {
        assert u[1..] == Unlink(chain[1..], k0);
        HasKeyTail(u);
        if chain[0].key == n { UnlinkKeys(chain[1..], k0); }
      }
    }
  }

  lemma {:induction false} UnlinkKeys<K(!new), V>(chain: seq<Entry<K, V>>, k0: K)
    ensures forall k :: k != k0 ==> (HasKey(Unlink(chain, k0), k) <==> HasKey(chain, k))
  {
    if chain != [] {
      HasKeyTail(chain);
      UnlinkKeys(chain[1..], k0);
      var u := Unlink(chain, k0);
      if chain[0].key != k0 {
        assert u[1..] == Unlink(chain[1..], k0);
        HasKeyTail(u);
      }
    }
  }

  lemma {:induction false} SetRest<K(!new), V>(chain: seq<Entry<K, V>>, k0: K, v: V, n: K)
    ensures forall k :: HasKey(From(SetIn(chain, k0, v), n), k) <==> HasKey(From(chain, n), k)
    ensures forall k :: HasKey(SetIn(chain, k0, v), k) <==> HasKey(chain, k)
  {
    if chain != [] {
      HasKeyTail(chain);
      SetRest(chain[1..], k0, v, n);
      var u := SetIn(chain, k0, v);
      assert u[1..] == if chain[0].key == k0 then chain[1..] else SetIn(chain[1..], k0, v);
      HasKeyTail(u);
    }
  }

  lemma PushRest<K(!new), V>(chain: seq<Entry<K, V>>, e: Entry<K, V>, n: K)
    requires e.key != n
    ensures From([e] + chain, n) == From(chain, n)
    ensures HasKey([e] + chain, n) <==> HasKey(chain, n)
  {
    assert ([e] + chain)[1..] == chain;
    HasKeyTail([e] + chain);
  }

  /** A chain that holds the same keys in the same order, apart from the changed one. */
  ghost predicate SameRests<K(!new), V>(chain: seq<Entry<K, V>>, chain': seq<Entry<K, V>>, changed: Option<K>) {
    && (forall n :: Some(n) != changed ==> (HasKey(chain', n) <==> HasKey(chain, n)))
    && forall n, k :: Some(n) != changed && Some(k) != changed ==>
      (HasKey(From(chain', n), k) <==> HasKey(From(chain, n), k))
  }

  /** A table with the same number of buckets, one chain of which was changed at one key. */
  ghost predicate ChangedAt<K(!new), V>(hash: K -> nat, t: Table<K, V>, t': Table<K, V>, changed: Option<K>) {
    && |t'.buckets| == |t.buckets|
    && (forall b :: 0 <= b < |t.buckets| ==> SameRests(t.buckets[b], t'.buckets[b], changed))
    && forall k :: Some(k) != changed ==> (FindInTable(hash, k, t').Some? <==> FindInTable(hash, k, t).Some?)
  }

  lemma ChangedKeepsAhead<K(!new), V>(hash: K -> nat, s: State<K, V>, s': State<K, V>, it: Iter<K>, changed: Option<K>)
    requires ValidIter(hash, s, it) && (it.next.None? || it.next != changed)
    requires s'.iterators == s.iterators && Rehashing(s') == Rehashing(s)
    requires ChangedAt(hash, s.ht0, s'.ht0, changed) && ChangedAt(hash, s.ht1, s'.ht1, changed)
    ensures KeepsAhead(hash, s, s', it, changed)
  {
    hide Slot, FindInTable, From, HasKey;
    var t, t' := TableOf(s, it.table), TableOf(s', it.table);
    assert ChangedAt(hash, t, t', changed);
    if it.entry.Some? { assert SameRests(t.buckets[it.index], t'.buckets[it.index], changed); }
    forall k | Some(k) != changed ensures Ahead(hash, s', it, k) <==> Ahead(hash, s, it, k) {
      assert InRest(s', it, k) <==> InRest(s, it, k);
      assert AheadFrom(hash, s', it.table, it.index + 1, k) <==> AheadFrom(hash, s, it.table, it.index + 1, k);
    }
  }

  lemma Unchanged<K(!new), V>(hash: K -> nat, t: Table<K, V>, changed: Option<K>)
    ensures ChangedAt(hash, t, t, changed)
  {}

  lemma PutFirstChanges<K(!new), V>(hash: K -> nat, t: Table<K, V>, e: Entry<K, V>)
    requires |t.buckets| > 0 && ValidTable(hash, t) && FindInTable(hash, e.key, t).None?
    ensures ChangedAt(hash, t, PutFirst(hash, t, e), Some(e.key))
  {
    PutFirstEffect(hash, t, e);
    var b := Index(hash, e.key, t);
    forall n | n != e.key
      ensures From([e] + t.buckets[b], n) == From(t.buckets[b], n)
        && (HasKey([e] + t.buckets[b], n) <==> HasKey(t.buckets[b], n))
    {
      PushRest(t.buckets[b], e, n);
    }
    hide ValidTable, FindInTable, Slot, From, HasKey;
  }

  lemma UnlinkChanges<K(!new), V>(hash: K -> nat, t: Table<K, V>, k0: K)
    requires ValidTable(hash, t) && FindInTable(hash, k0, t).Some?
    ensures ChangedAt(hash, t, UpdateChain(hash, t, k0, Unlink(Chain(hash, k0, t), k0)), Some(k0))
  {
    UnlinkInTable(hash, t, k0);
    FoundInChain(hash, t);
    var chain := Chain(hash, k0, t);
    assert SameRests(chain, Unlink(chain, k0), Some(k0)) by {
      forall n | n != k0
        ensures HasKey(Unlink(chain, k0), n) <==> HasKey(chain, n)
        ensures forall k :: k != k0 ==> (HasKey(From(Unlink(chain, k0), n), k) <==> HasKey(From(chain, n), k))
      {
        UnlinkRest(chain, k0, n);
      }
    }
    assert forall c: seq<Entry<K, V>> :: SameRests(c, c, Some(k0));
    hide ValidTable, FindInTable, Slot, SameRests, Unlink;
  }

  lemma SetChanges<K(!new), V>(hash: K -> nat, t: Table<K, V>, k0: K, v: V)
    requires ValidTable(hash, t) && FindInTable(hash, k0, t).Some?
    ensures ChangedAt(hash, t, UpdateChain(hash, t, k0, SetIn(Chain(hash, k0, t), k0, v)), None)
  {
    SetInTable(hash, t, k0, v);
    var chain := Chain(hash, k0, t);
    assert SameRests(chain, SetIn(chain, k0, v), None) by {
      forall n
        ensures HasKey(SetIn(chain, k0, v), n) <==> HasKey(chain, n)
        ensures forall k :: HasKey(From(SetIn(chain, k0, v), n), k) <==> HasKey(From(chain, n), k)
      {
        SetRest(chain, k0, v, n);
      }
    }
    assert forall c: seq<Entry<K, V>> :: SameRests(c, c, None);
    hide ValidTable, FindInTable, Slot, SameRests, SetIn;
  }

  /** A started expansion only adds an empty second table. */
  lemma ExpandKeepsAhead<K(!new), V>(hash: K -> nat, s: State<K, V>, it: Iter<K>, canResize: bool)
    requires Valid(hash, s) && ValidIter(hash, s, it)
    ensures KeepsAhead(hash, s, ExpandIfNeeded(s, canResize).0, it, None)
  {
    ExpandIfNeededEffect(hash, s, canResize);
    var s' := ExpandIfNeeded(s, canResize).0;
    if s' != s {
      FreshTableEmpty<K, V>(hash, if |s.ht0.buckets| == 0 then |s'.ht0.buckets| else |s'.ht1.buckets|);
      TotalZero(s.ht0.buckets);
      hide Valid, ValidTable, Slot, From, HasKey, FindIn, NextPower;
    }
  }

  /** Whatever is done before the first dictNext, all stored keys are ahead. */
  lemma NotStartedKeeps<K(!new), V>(hash: K -> nat, s: State<K, V>, s': State<K, V>, it: Iter<K>, changed: Option<K>)
    requires Valid(hash, s) && Valid(hash, s') && ValidIter(hash, s, it) && !Started(it) && s'.iterators == s.iterators
    requires forall k :: Some(k) != changed ==> (Lookup(hash, s', k).Some? <==> Lookup(hash, s, k).Some?)
    requires it.entry.None?
    ensures KeepsAhead(hash, s, s', it, changed)
  {
    NotStarted(hash, s, it);
    NotStarted(hash, s', it);
    hide Valid, Lookup, Ahead;
  }

  lemma NextIsStored<K(!new), V>(hash: K -> nat, s: State<K, V>, it: Iter<K>)
    requires Valid(hash, s) && ValidIter(hash, s, it)
    ensures it.next.Some? ==> Lookup(hash, s, it.next.value).Some?
  {
    FoundInChain(hash, s.ht0);
    FoundInChain(hash, s.ht1);
    hide Slot, ValidTable, HasKey, Distinct;
  }

  lemma InsertKeeps<K(!new), V>(hash: K -> nat, t: State<K, V>, it: Iter<K>, e: Entry<K, V>)
    requires Valid(hash, t) && ValidIter(hash, t, it) && |t.ht0.buckets| > 0 && Lookup(hash, t, e.key).None?
    ensures KeepsAhead(hash, t, Insert(hash, t, e), it, Some(e.key))
  {
    NextIsStored(hash, t, it);
    hide ValidIter, KeepsAhead, PutFirst, ChangedAt, FindInTable, ValidTable;
    Unchanged(hash, t.ht0, Some(e.key));
    Unchanged(hash, t.ht1, Some(e.key));
    if Rehashing(t) { PutFirstChanges(hash, t.ht1, e); } else { PutFirstChanges(hash, t.ht0, e); }
    ChangedKeepsAhead(hash, t, Insert(hash, t, e), it, Some(e.key));
  }

  lemma KeepsTrans<K(!new), V>(hash: K -> nat, s: State<K, V>, t: State<K, V>, u: State<K, V>, it: Iter<K>,
                               changed: Option<K>)
    requires KeepsAhead(hash, s, t, it, None) && KeepsAhead(hash, t, u, it, changed)
    ensures KeepsAhead(hash, s, u, it, changed)
  {}

  /** While an iterator is started no operation moves a bucket. */
  lemma AddKeeps<K(!new), V>(hash: K -> nat, s: State<K, V>, it: Iter<K>, k: K, v: V, canResize: bool)
    requires Valid(hash, s) && ValidIter(hash, s, it) && (!Started(it) ==> it.entry.None?)
    ensures var (s', added) := AddRaw(hash, s, k, v, canResize);
      KeepsAhead(hash, s, s', it, if added then Some(k) else None)
  {
    AddEffect(hash, s, k, v, canResize);
    var (s', added) := AddRaw(hash, s, k, v, canResize);
    if !Started(it) {
      hide Valid, Lookup, AddRaw, Size;
      NotStartedKeeps(hash, s, s', it, if added then Some(k) else None);
    } else {
      assert MaybeRehash(hash, s) == s;
      hide Lookup, Size, KeepsAhead, Insert, MaybeRehash, ExpandIfNeeded, Valid;
      ExpandIfNeededEffect(hash, s, canResize);
      ExpandKeepsAhead(hash, s, it, canResize);
      var t := ExpandIfNeeded(s, canResize).0;
      assert ValidIter(hash, t, it) by { KeepsValid(hash, s, t, it); }
      if added {
        InsertKeeps(hash, t, it, Entry(k, v));
        KeepsTrans(hash, s, t, s', it, Some(k));
      }
    }
  }

  lemma KeepsValid<K(!new), V>(hash: K -> nat, s: State<K, V>, s': State<K, V>, it: Iter<K>)
    requires KeepsAhead(hash, s, s', it, None)
    ensures ValidIter(hash, s', it)
  {}

  lemma FindKeeps<K(!new), V>(hash: K -> nat, s: State<K, V>, it: Iter<K>)
    requires Valid(hash, s) && ValidIter(hash, s, it) && (!Started(it) ==> it.entry.None?)
    ensures KeepsAhead(hash, s, Find(hash, s), it, None)
  {
    FindEffect(hash, s);
    if !Started(it) {
      hide Valid, Lookup, Find, Size;
      NotStartedKeeps(hash, s, Find(hash, s), it, None);
    } else {
      assert Find(hash, s) == s;
    }
  }

  lemma SetValueKeeps<K(!new), V>(hash: K -> nat, t: State<K, V>, it: Iter<K>, k: K, v: V)
    requires Valid(hash, t) && ValidIter(hash, t, it) && Lookup(hash, t, k).Some?
    ensures KeepsAhead(hash, t, SetValue(hash, t, k, v), it, None)
  {
    hide ValidIter, KeepsAhead, UpdateChain, ChangedAt, FindInTable, ValidTable, SetIn, Chain;
    Unchanged(hash, t.ht0, None);
    Unchanged(hash, t.ht1, None);
    if FindInTable(hash, k, t.ht0).Some? { SetChanges(hash, t.ht0, k, v); } else { SetChanges(hash, t.ht1, k, v); }
    assert it.next.None? || it.next != None;
    ChangedKeepsAhead(hash, t, SetValue(hash, t, k, v), it, None);
  }

  lemma ReplaceKeeps<K(!new), V>(hash: K -> nat, s: State<K, V>, it: Iter<K>, k: K, v: V, canResize: bool)
    requires Valid(hash, s) && ValidIter(hash, s, it) && (!Started(it) ==> it.entry.None?)
    ensures var (s', added) := Replace(hash, s, k, v, canResize);
      KeepsAhead(hash, s, s', it, if added then Some(k) else None)
  {
    hide Valid, Lookup, Size, ValidIter, KeepsAhead, AddRaw, Find, SetValue;
    AddEffect(hash, s, k, v, canResize);
    AddKeeps(hash, s, it, k, v, canResize);
    var (t, added) := AddRaw(hash, s, k, v, canResize);
    if !added {
      KeepsValid(hash, s, t, it);
      FindKeeps(hash, t, it);
      FindEffect(hash, t);
      var u := Find(hash, t);
      KeepsValid(hash, t, u, it);
      SetValueKeeps(hash, u, it, k, v);
      KeepsTrans(hash, s, t, u, it, None);
      KeepsTrans(hash, s, u, SetValue(hash, u, k, v), it, None);
    }
  }

  /** Deleting the entry dictNext has just returned. */
  lemma DeleteKeeps<K(!new), V>(hash: K -> nat, s: State<K, V>, it: Iter<K>)
    requires Valid(hash, s) && ValidIter(hash, s, it) && it.entry.Some? && Started(it)
    ensures KeepsAhead(hash, s, Delete(hash, s, it.entry.value).0, it, it.entry)
  {
    var k := it.entry.value;
    assert Find(hash, s) == s;
    assert it.next.None? || it.next != Some(k);
    hide ValidIter, KeepsAhead, UpdateChain, ChangedAt, FindInTable, ValidTable, Unlink, Chain, Find;
    Unchanged(hash, s.ht0, Some(k));
    Unchanged(hash, s.ht1, Some(k));
    if FindInTable(hash, k, s.ht0).Some? {
      UnlinkChanges(hash, s.ht0, k);
    } else if FindInTable(hash, k, s.ht1).Some? {
      UnlinkChanges(hash, s.ht1, k);
    }
    ChangedKeepsAhead(hash, s, Delete(hash, s, k).0, it, Some(k));
  }

  // ---------------------------------------------------------------- whole iterations

  datatype Step<+K, +V> =
    | NextStep
    | FindStep
    | AddStep(k: K, v: V, canResize: bool)
    | ReplaceStep(k: K, v: V, canResize: bool)
    | DeleteReturned

  /** The dictionary, the iterator, the keys returned so far, and whether NULL has been returned. */
  datatype Config<K, V> = Config(s: State<K, V>, it: Iter<K>, returned: seq<K>, done: bool)

  ghost predicate ValidConfig<K(!new), V>(hash: K -> nat, c: Config<K, V>) {
    Valid(hash, c.s) && ValidIter(hash, c.s, c.it) && (!Started(c.it) ==> c.it.entry.None?)
  }

  ghost function Do<K(!new), V>(hash: K -> nat, c: Config<K, V>, step: Step<K, V>): Config<K, V>
    requires ValidConfig(hash, c)
  {
    match step
    case NextStep =>
      var (s', it', r) := Next(c.s, c.it);
      Config(s', it', if r.Some? then c.returned + [r.value] else c.returned, c.done || r.None?)
    case FindStep => c.(s := Find(hash, c.s))
    case AddStep(k, v, canResize) => c.(s := AddRaw(hash, c.s, k, v, canResize).0)
    case ReplaceStep(k, v, canResize) => c.(s := Replace(hash, c.s, k, v, canResize).0)
    case DeleteReturned => if c.it.entry.Some? then c.(s := Delete(hash, c.s, c.it.entry.value).0) else c
  }

  /** Times returned, plus one while still ahead. */
  ghost function Account<K(!new), V>(hash: K -> nat, c: Config<K, V>, k: K): nat {
    multiset(c.returned)[k] + if Ahead(hash, c.s, c.it, k) then 1 else 0
  }

  lemma NextAccount<K(!new), V>(hash: K -> nat, c: Config<K, V>, k: K)
    requires ValidConfig(hash, c)
    ensures var c' := Do(hash, c, NextStep);
      && ValidConfig(hash, c') && Account(hash, c', k) == Account(hash, c, k)
      && c'.s.iterators == c.s.iterators + (if Started(c.it) then 0 else 1) && Started(c'.it)
      && (c'.done && !c.done ==> multiset(c'.returned)[k] == Account(hash, c, k))
  {
    NextEffect(hash, c.s, c.it);
    var (s', it', r) := Next(c.s, c.it);
    assert Ahead(hash, s', c.it, k) <==> Ahead(hash, c.s, c.it, k);
    hide Valid, ValidIter, Ahead, Next, Lookup;
  }

  /** Every step keeps the account of a key that stays in the dictionary. */
  lemma StepAccount<K(!new), V>(hash: K -> nat, c: Config<K, V>, step: Step<K, V>, k: K)
    requires ValidConfig(hash, c) && Lookup(hash, c.s, k).Some?
    ensures var c' := Do(hash, c, step);
      && ValidConfig(hash, c')
      && (Lookup(hash, c'.s, k).Some? ==> Account(hash, c', k) == Account(hash, c, k))
      && c'.s.iterators == c.s.iterators + (if Started(c'.it) && !Started(c.it) then 1 else 0)
      && (Started(c.it) ==> Started(c'.it))
      && (c'.done && !c.done ==> multiset(c'.returned)[k] == Account(hash, c, k))
      && (c.done ==> c'.done && multiset(c'.returned)[k] >= multiset(c.returned)[k])
  {
    hide Valid, ValidIter, Ahead, Next, Lookup, Find, AddRaw, Replace, Delete, Size;
    match step
    case NextStep => NextAccount(hash, c, k);
    case FindStep =>
      FindEffect(hash, c.s);
      FindKeeps(hash, c.s, c.it);
    case AddStep(k', v, canResize) =>
      AddEffect(hash, c.s, k', v, canResize);
      AddKeeps(hash, c.s, c.it, k', v, canResize);
    case ReplaceStep(k', v, canResize) =>
      ReplaceEffect(hash, c.s, k', v, canResize);
      ReplaceKeeps(hash, c.s, c.it, k', v, canResize);
    case DeleteReturned =>
      if c.it.entry.Some? {
        DeleteEffect(hash, c.s, c.it.entry.value);
        DeleteKeeps(hash, c.s, c.it);
      }
  }

  /** Key k is in the dictionary before and after every step. */
  ghost predicate PresentThroughout<K(!new), V>(hash: K -> nat, c: Config<K, V>, steps: seq<Step<K, V>>, k: K)
    requires ValidConfig(hash, c)
    decreases |steps|
  {
    && Lookup(hash, c.s, k).Some?
    && if steps == [] then true
       else
         StepAccount(hash, c, steps[0], k);
         PresentThroughout(hash, Do(hash, c, steps[0]), steps[1..], k)
  }

  ghost function Run<K(!new), V>(hash: K -> nat, c: Config<K, V>, steps: seq<Step<K, V>>, k: K): Config<K, V>
    requires ValidConfig(hash, c) && PresentThroughout(hash, c, steps, k)
    decreases |steps|
  {
    if steps == [] then c else StepAccount(hash, c, steps[0], k); Run(hash, Do(hash, c, steps[0]), steps[1..], k)
  }

  lemma {:induction false} RunAccount<K(!new), V>(hash: K -> nat, c: Config<K, V>, steps: seq<Step<K, V>>, k: K)
    requires ValidConfig(hash, c) && PresentThroughout(hash, c, steps, k)
    requires Account(hash, c, k) == 1 && (c.done ==> multiset(c.returned)[k] == 1)
    ensures var c' := Run(hash, c, steps, k);
      && ValidConfig(hash, c') && Account(hash, c', k) == 1 && (c'.done ==> multiset(c'.returned)[k] == 1)
      && c'.s.iterators == c.s.iterators + (if Started(c'.it) && !Started(c.it) then 1 else 0)
      && (Started(c.it) ==> Started(c'.it))
    decreases |steps|
  {
    if steps != [] {
      StepAccount(hash, c, steps[0], k);
      hide ValidConfig, Lookup, Ahead, Do;
      RunAccount(hash, Do(hash, c, steps[0]), steps[1..], k);
    }
  }

  /** A safe iteration returns every key that stays in the dictionary exactly once, whatever lookups,
      additions, replacements and deletions of returned entries happen in between, and releasing the
      iterator restores the iterator count. */
  lemma SafeIteration<K(!new), V>(hash: K -> nat, s: State<K, V>, steps: seq<Step<K, V>>, k: K)
    requires Valid(hash, s) && ValidConfig(hash, Config(s, NewIter(), [], false))
    requires PresentThroughout(hash, Config(s, NewIter(), [], false), steps, k)
    ensures var c := Run(hash, Config(s, NewIter(), [], false), steps, k);
      && multiset(c.returned)[k] <= 1 && (c.done ==> multiset(c.returned)[k] == 1)
      && Release(c.s, c.it).iterators == s.iterators
  {
    var c0: Config<K, V> := Config(s, NewIter(), [], false);
    NotStarted(hash, s, c0.it);
    RunAccount(hash, c0, steps, k);
  }
}
