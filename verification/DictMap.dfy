/** The dictionary operations on the finite map a state holds. */
module DictMap {
  import opened Basics
  import opened DictState

  ghost function ChainKeySet<K, V>(chain: seq<Entry<K, V>>): set<K> {
    set i | 0 <= i < |chain| :: chain[i].key
  }

  /** The keys stored anywhere in a table. */
  ghost function StoredKeys<K, V>(buckets: seq<seq<Entry<K, V>>>): set<K> {
    if buckets == [] then {} else ChainKeySet(buckets[0]) + StoredKeys(buckets[1..])
  }

  lemma {:induction false} InStoredKeys<K, V>(buckets: seq<seq<Entry<K, V>>>, k: K)
    ensures k in StoredKeys(buckets) <==> exists b :: 0 <= b < |buckets| && k in ChainKeySet(buckets[b])
  {
    if buckets != [] {
      InStoredKeys(buckets[1..], k);
      if k in StoredKeys(buckets[1..]) {
        var b :| 0 <= b < |buckets[1..]| && k in ChainKeySet(buckets[1..][b]);
        assert k in ChainKeySet(buckets[b + 1]);
      }
      forall b | 0 <= b < |buckets| && k in ChainKeySet(buckets[b]) ensures k in StoredKeys(buckets) {
        if b > 0 { assert k in ChainKeySet(buckets[1..][b - 1]); }
      }
    }
  }

  /** Search by hash finds exactly the keys stored anywhere in a valid table. */
  lemma StoredIsFound<K(!new), V>(hash: K -> nat, t: Table<K, V>, k: K)
    requires ValidTable(hash, t)
    ensures k in StoredKeys(t.buckets) <==> FindInTable(hash, k, t).Some?
  {
    InStoredKeys(t.buckets, k);
    hide Slot;
    if k in StoredKeys(t.buckets) {
      var b :| 0 <= b < |t.buckets| && k in ChainKeySet(t.buckets[b]);
      ChainKeys(hash, t, b);
      FindInHasKey(t.buckets[b], k);
    }
    if FindInTable(hash, k, t).Some? {
      FindInHasKey(Chain(hash, k, t), k);
      assert k in ChainKeySet(t.buckets[Index(hash, k, t)]);
    }
  }

  lemma {:induction false} DistinctChainSize<K, V>(chain: seq<Entry<K, V>>)
    requires Distinct(chain)
    ensures |ChainKeySet(chain)| == |chain|
  {
    if chain != [] {
      DistinctChainSize(chain[1..]);
      assert ChainKeySet(chain) == {chain[0].key} + ChainKeySet(chain[1..]) by {
        forall i | 1 <= i < |chain| ensures chain[i].key in ChainKeySet(chain[1..]) {
          assert chain[1..][i - 1] == chain[i];
        }
      }
    }
  }

  lemma {:induction false} StoredCount<K(!new), V>(hash: K -> nat, buckets: seq<seq<Entry<K, V>>>, base: nat, size: nat)
    requires size > 0 && forall b :: 0 <= b < |buckets| ==> ValidChain(hash, buckets[b], base + b, size)
    ensures |StoredKeys(buckets)| == Total(buckets)
  {
    if buckets != [] {
      var rest := buckets[1..];
      forall b | 0 <= b < |rest| ensures ValidChain(hash, rest[b], base + 1 + b, size) {
        assert ValidChain(hash, buckets[b + 1], base + (b + 1), size);
      }
      StoredCount(hash, rest, base + 1, size);
      assert ValidChain(hash, buckets[0], base + 0, size);
      DistinctChainSize(buckets[0]);
      hide Slot;
      forall k | k in ChainKeySet(buckets[0]) ensures k !in StoredKeys(rest) {
        InStoredKeys(rest, k);
      }
      assert ChainKeySet(buckets[0]) !! StoredKeys(rest);
    }
  }

  /** The finite map held by a state. */
  ghost function Contents<K(!new), V>(hash: K -> nat, s: State<K, V>): (m: map<K, V>)
    requires Valid(hash, s)
    ensures forall k :: k in m <==> Lookup(hash, s, k).Some?
    ensures forall k :: k in m ==> m[k] == Lookup(hash, s, k).value
  {
    assert forall k :: k in StoredKeys(s.ht0.buckets) <==> FindInTable(hash, k, s.ht0).Some? by {
      forall k { StoredIsFound(hash, s.ht0, k); }
    }
    assert forall k :: k in StoredKeys(s.ht1.buckets) <==> FindInTable(hash, k, s.ht1).Some? by {
      forall k { StoredIsFound(hash, s.ht1, k); }
    }
    map k | k in StoredKeys(s.ht0.buckets) + StoredKeys(s.ht1.buckets) :: Lookup(hash, s, k).value
  }

  /** Keys are unique across both tables: dictSize counts the map. */
  lemma SizeIsCardinality<K(!new), V>(hash: K -> nat, s: State<K, V>)
    requires Valid(hash, s)
    ensures |Contents(hash, s)| == Size(s)
  {
    var keys0, keys1 := StoredKeys(s.ht0.buckets), StoredKeys(s.ht1.buckets);
    assert Disjoint(hash, s.ht0, s.ht1);
    StoredKeysOf(hash, s.ht0);
    StoredKeysOf(hash, s.ht1);
    hide Valid, StoredKeys, FindInTable, ValidTable;
    assert |keys0 + keys1| == |keys0| + |keys1|;
    assert Contents(hash, s).Keys == keys0 + keys1;
  }

  lemma StoredKeysOf<K(!new), V>(hash: K -> nat, t: Table<K, V>)
    requires ValidTable(hash, t)
    ensures |StoredKeys(t.buckets)| == t.used
    ensures forall k :: k in StoredKeys(t.buckets) <==> FindInTable(hash, k, t).Some?
  {
    if t.buckets != [] { StoredCount(hash, t.buckets, 0, |t.buckets|); }
    forall k ensures k in StoredKeys(t.buckets) <==> FindInTable(hash, k, t).Some? { StoredIsFound(hash, t, k); }
  }

  lemma SameLookups<K(!new), V>(hash: K -> nat, s: State<K, V>, m: map<K, V>)
    requires Valid(hash, s)
    requires forall k :: Lookup(hash, s, k) == if k in m then Some(m[k]) else None
    ensures Contents(hash, s) == m
  {
    hide Contents, Lookup, Valid;
    var c := Contents(hash, s);
    assert forall k :: k in c <==> k in m;
  }

  /** dictAdd */
  lemma AddRefines<K(!new), V>(hash: K -> nat, s: State<K, V>, k: K, v: V, canResize: bool)
    requires Valid(hash, s)
    ensures var (s', added) := AddRaw(hash, s, k, v, canResize);
      && Valid(hash, s') && added == (k !in Contents(hash, s))
      && Contents(hash, s') == if added then Contents(hash, s)[k := v] else Contents(hash, s)
  {
    AddEffect(hash, s, k, v, canResize);
    var (s', added) := AddRaw(hash, s, k, v, canResize);
    hide Contents, Lookup, Valid, AddRaw;
    SameLookups(hash, s', if added then Contents(hash, s)[k := v] else Contents(hash, s));
  }

  /** dictReplace */
  lemma ReplaceRefines<K(!new), V>(hash: K -> nat, s: State<K, V>, k: K, v: V, canResize: bool)
    requires Valid(hash, s)
    ensures var (s', added) := Replace(hash, s, k, v, canResize);
      && Valid(hash, s') && added == (k !in Contents(hash, s))
      && Contents(hash, s') == Contents(hash, s)[k := v]
  {
    ReplaceEffect(hash, s, k, v, canResize);
    hide Contents, Lookup, Valid, Replace;
    SameLookups(hash, Replace(hash, s, k, v, canResize).0, Contents(hash, s)[k := v]);
  }

  /** dictDelete */
  lemma DeleteRefines<K(!new), V>(hash: K -> nat, s: State<K, V>, k: K)
    requires Valid(hash, s)
    ensures var (s', deleted) := Delete(hash, s, k);
      && Valid(hash, s') && deleted == (k in Contents(hash, s))
      && Contents(hash, s') == Contents(hash, s) - {k}
  {
    DeleteEffect(hash, s, k);
    hide Contents, Lookup, Valid, Delete;
    SameLookups(hash, Delete(hash, s, k).0, Contents(hash, s) - {k});
  }

  /** dictRehash never changes the map, and size + 1 turns always finish it. */
  lemma RehashRefines<K(!new), V>(hash: K -> nat, s: State<K, V>, n: nat)
    requires Valid(hash, s)
    ensures var (s', more) := Rehash(hash, s, n);
      && Valid(hash, s') && Contents(hash, s') == Contents(hash, s)
      && more == Rehashing(s') && (n >= |s.ht0.buckets| + 1 ==> !more)
  {
    RehashEffect(hash, s, n);
    assert Rehashing(s) ==> s.rehashidx >= 0;
    assert !Rehashing(s) ==> !Rehash(hash, s, n).1;
    hide Contents, Lookup, Valid, Rehash;
    SameLookups(hash, Rehash(hash, s, n).0, Contents(hash, s));
  }
}
