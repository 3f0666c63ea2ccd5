/** How often dictScan emits an entry: a call emits only what is stored under its cursor and nothing twice, and an
    iteration over a dictionary that does not change, rehashing or not, emits every entry exactly once. */
module DictScanOnce {
  import opened Basics
  import opened Words
  import opened DictState
  import opened DictScan
  import opened DictScanRuns

  // ---------------------------------------------------------------- one call

  lemma StoredValue<K(!new), V>(hash: K -> nat, t: Table<K, V>, b: nat, e: Entry<K, V>)
    requires ValidTable(hash, t) && b < |t.buckets| && e in t.buckets[b]
    ensures FindInTable(hash, e.key, t) == Some(e.val) && Index(hash, e.key, t) == b
  {
    StoredHere(hash, t, b, e);
    ChainKeys(hash, t, b);
    assert ValidChain(hash, t.buckets[b], b, |t.buckets|);
    var i :| 0 <= i < |t.buckets[b]| && t.buckets[b][i] == e;
    FindInAt(t.buckets[b], i);
  }

  /** An entry in the bucket that k bits of a word name agrees with the word on these bits. */
  lemma BucketWord<K(!new), V>(hash: K -> nat, t: Table<K, V>, k: nat, w: Word, e: Entry<K, V>)
    requires ValidTable(hash, t) && MaskedTable(t, k) && HashFits(hash)
    requires Val(w[..k]) < |t.buckets| && e in t.buckets[Val(w[..k])]
    ensures FindInTable(hash, e.key, t) == Some(e.val) && HashWord(hash(e.key))[..k] == w[..k]
  {
    StoredValue(hash, t, Val(w[..k]), e);
    SlotBits(hash(e.key), k);
    hide HashWord, FindInTable, ValidTable, Val;
    ValInjective(HashWord(hash(e.key))[..k], w[..k]);
  }

  lemma ExpansionWord<K(!new), V>(hash: K -> nat, t: Table<K, V>, v: Word, k0: nat, k1: nat, e: Entry<K, V>)
    requires ValidTable(hash, t) && MaskedTable(t, k1) && HashFits(hash) && k0 <= k1
    requires e in ExpansionEntries(t.buckets, v, k0, k1)
    ensures FindInTable(hash, e.key, t) == Some(e.val)
    ensures var h := HashWord(hash(e.key)); h[..k0] == v[..k0] && Val(h[k0..k1]) >= Val(v[k0..k1])
  {
    hide HashWord, FindInTable, ValidTable, Val, ExpansionEntries, HashFits;
    var g := ExpansionOnly(t.buckets, v, k0, k1, e);
    BucketWord(hash, t, k1, g, e);
    var h := HashWord(hash(e.key));
    SlicesAgree(g, h, k0, k1);
    assert h[..k0] == h[..k1][..k0] == g[..k1][..k0] == g[..k0];
  }

  lemma TablesOfState<K(!new), V>(hash: K -> nat, s: State<K, V>)
    requires Valid(hash, s)
    ensures ValidTable(hash, Smaller(s)) && (Rehashing(s) ==> ValidTable(hash, Larger(s)))
    ensures Rehashing(s) ==> Disjoint(hash, Smaller(s), Larger(s))
    ensures forall k ::
      FindInTable(hash, k, Smaller(s)).Some? ==> Lookup(hash, s, k) == FindInTable(hash, k, Smaller(s))
    ensures Rehashing(s) ==>
      forall k :: FindInTable(hash, k, Larger(s)).Some? ==> Lookup(hash, s, k) == FindInTable(hash, k, Larger(s))
  {
    hide ValidTable, FindInTable, PowerOfTwo;
  }

  /** A call emits only entries that are stored, and of these only some whose hash agrees with the cursor on the
      smaller mask. */
  lemma EmittedIsStored<K(!new), V>(hash: K -> nat, s: State<K, V>, v: Word, e: Entry<K, V>)
    requires Scannable(hash, s) && e in Emitted(hash, s, v)
    ensures Size(s) > 0 && SmallBits(s) <= 64
    ensures Lookup(hash, s, e.key) == Some(e.val) && HashWord(hash(e.key))[..SmallBits(s)] == v[..SmallBits(s)]
  {
    TablesOfState(hash, s);
    hide HashWord, FindInTable, ValidTable, Val, Valid, HashFits, ExpansionEntries, Log, Pow2, Lookup, Disjoint;
    var k0 := SmallBits(s);
    BucketInRange(v, Smaller(s), k0);
    if e in Smaller(s).buckets[Val(v[..k0])] {
      BucketWord(hash, Smaller(s), k0, v, e);
    } else {
      ExpansionWord(hash, Larger(s), v, k0, LargeBits(s), e);
    }
  }

  lemma DistinctAppend<K, V>(a: seq<Entry<K, V>>, b: seq<Entry<K, V>>)
    requires Distinct(a) && Distinct(b) && forall e, f :: e in a && f in b ==> e.key != f.key
    ensures Distinct(a + b)
  {
    var c := a + b;
    forall i, j | 0 <= i < j < |c| ensures c[i].key != c[j].key {
      if i < |a| <= j { assert c[i] in a && c[j] in b; }
    }
  }

  lemma {:induction false} ExpansionDistinct<K(!new), V>(hash: K -> nat, t: Table<K, V>, v: Word, k0: nat, k1: nat)
    requires ValidTable(hash, t) && MaskedTable(t, k1) && HashFits(hash) && k0 <= k1
    ensures Distinct(ExpansionEntries(t.buckets, v, k0, k1))
    decreases Pow2(k1 - k0) - Val(v[k0..k1])
  {
    ValBound(v[..k1]);
    ExpansionAdvances(v, k0, k1);
    var w := NextExpansion(v, k0);
    var b := Val(v[..k1]);
    assert ValidChain(hash, t.buckets[b], b, |t.buckets|);
    if w[k0..k1] != Zeros(k1 - k0) {
      hide NextExpansion, Val, Pow2, HashWord, FindInTable, ValidTable, HashFits, Distinct;
      ExpansionDistinct(hash, t, w, k0, k1);
      var rest := ExpansionEntries(t.buckets, w, k0, k1);
      assert ExpansionEntries(t.buckets, v, k0, k1) == t.buckets[b] + rest;
      forall e, f | e in t.buckets[b] && f in rest ensures e.key != f.key {
        BucketWord(hash, t, k1, v, e);
        ExpansionWord(hash, t, w, k0, k1, f);
        SlicesAgree(HashWord(hash(e.key)), v, k0, k1);
      }
      DistinctAppend(t.buckets[b], rest);
    } else {
      assert ExpansionEntries(t.buckets, v, k0, k1) == t.buckets[b];
    }
  }

  /** A call emits no key twice. */
  lemma EmittedDistinct<K(!new), V>(hash: K -> nat, s: State<K, V>, v: Word)
    requires Scannable(hash, s)
    ensures Distinct(Emitted(hash, s, v))
  {
    if Size(s) > 0 {
      TablesOfState(hash, s);
      var k0 := SmallBits(s);
      BucketInRange(v, Smaller(s), k0);
      var b := Val(v[..k0]);
      var chain := Smaller(s).buckets[b];
      assert ValidChain(hash, chain, b, |Smaller(s).buckets|);
      if Rehashing(s) {
        hide HashWord, FindInTable, ValidTable, Val, Valid, HashFits, ExpansionEntries, Log, Pow2, Lookup, Distinct;
        ExpansionDistinct(hash, Larger(s), v, k0, LargeBits(s));
        var rest := ExpansionEntries(Larger(s).buckets, v, k0, LargeBits(s));
        forall e, f | e in chain && f in rest ensures e.key != f.key {
          BucketWord(hash, Smaller(s), k0, v, e);
          ExpansionWord(hash, Larger(s), v, k0, LargeBits(s), f);
        }
        DistinctAppend(chain, rest);
      } else {
        assert Emitted(hash, s, v) == chain;
      }
    }
  }

  // ---------------------------------------------------------------- all entries

  function Flat<K, V>(buckets: seq<seq<Entry<K, V>>>): (r: seq<Entry<K, V>>)
    ensures |r| == Total(buckets)
  {
    if buckets == [] then [] else buckets[0] + Flat(buckets[1..])
  }

  /** Every entry of both tables. */
  function Stored<K, V>(s: State<K, V>): (r: seq<Entry<K, V>>) {
    Flat(s.ht0.buckets) + Flat(s.ht1.buckets)
  }

  lemma {:induction false} FlatHas<K, V>(buckets: seq<seq<Entry<K, V>>>, e: Entry<K, V>)
    ensures e in Flat(buckets) <==> exists b :: 0 <= b < |buckets| && e in buckets[b]
  {
    if buckets != [] {
      FlatHas(buckets[1..], e);
      if e in Flat(buckets[1..]) {
        var b :| 0 <= b < |buckets[1..]| && e in buckets[1..][b];
        assert e in buckets[b + 1];
      }
      if b :| 0 < b < |buckets| && e in buckets[b] { assert e in buckets[1..][b - 1]; }
    }
  }

  lemma {:induction false} FlatDistinct<K, V>(buckets: seq<seq<Entry<K, V>>>)
    requires forall b :: 0 <= b < |buckets| ==> Distinct(buckets[b])
    requires forall b, c, e, f :: 0 <= b < c < |buckets| && e in buckets[b] && f in buckets[c] ==> e.key != f.key
    ensures Distinct(Flat(buckets))
  {
    if buckets != [] {
      hide Distinct;
      var rest := buckets[1..];
      FlatDistinct(rest);
      forall e, f | e in buckets[0] && f in Flat(rest) ensures e.key != f.key {
        FlatHas(rest, f);
        var c :| 0 <= c < |rest| && f in rest[c];
        assert f in buckets[c + 1];
      }
      DistinctAppend(buckets[0], Flat(rest));
    }
  }

  lemma TableHas<K(!new), V>(hash: K -> nat, t: Table<K, V>, e: Entry<K, V>)
    requires ValidTable(hash, t)
    ensures e in Flat(t.buckets) <==> FindInTable(hash, e.key, t) == Some(e.val)
  {
    FlatHas(t.buckets, e);
    hide Flat;
    if b :| 0 <= b < |t.buckets| && e in t.buckets[b] { StoredValue(hash, t, b, e); }
    if FindInTable(hash, e.key, t) == Some(e.val) {
      FindInStored(Chain(hash, e.key, t), e);
      assert e in t.buckets[Index(hash, e.key, t)];
    }
  }

  lemma TableDistinct<K(!new), V>(hash: K -> nat, t: Table<K, V>)
    requires ValidTable(hash, t)
    ensures Distinct(Flat(t.buckets))
  {
    forall b, c, e, f | 0 <= b < c < |t.buckets| && e in t.buckets[b] && f in t.buckets[c] ensures e.key != f.key {
      StoredValue(hash, t, b, e);
      StoredValue(hash, t, c, f);
    }
    forall b | 0 <= b < |t.buckets| ensures Distinct(t.buckets[b]) {
      assert ValidChain(hash, t.buckets[b], b, |t.buckets|);
    }
    FlatDistinct(t.buckets);
  }

  lemma {:induction false} FindInStored<K, V>(chain: seq<Entry<K, V>>, e: Entry<K, V>)
    requires FindIn(chain, e.key) == Some(e.val)
    ensures e in chain
  {
    if chain[0].key == e.key {
      assert chain[0] == e;
    } else {
      FindInStored(chain[1..], e);
    }
  }

  /** An entry of a valid state is in one table and not the other. */
  lemma LookupParts<K(!new), V>(hash: K -> nat, s: State<K, V>, e: Entry<K, V>)
    requires Valid(hash, s)
    ensures FindInTable(hash, e.key, s.ht0).None? || FindInTable(hash, e.key, s.ht1).None?
    ensures Lookup(hash, s, e.key) == Some(e.val) <==>
      FindInTable(hash, e.key, s.ht0) == Some(e.val) || FindInTable(hash, e.key, s.ht1) == Some(e.val)
  {
    hide ValidTable, PowerOfTwo, Slot;
  }

  lemma StoredParts<K(!new), V>(hash: K -> nat, s: State<K, V>)
    requires Valid(hash, s)
    ensures ValidTable(hash, s.ht0) && ValidTable(hash, s.ht1)
    ensures Stored(s) == Flat(s.ht0.buckets) + Flat(s.ht1.buckets) && |Stored(s)| == Size(s)
  {}

  lemma StillParts<K(!new), V>(hash: K -> nat, s: State<K, V>, vs: seq<Word>)
    requires StillIteration(hash, s, vs)
    ensures |vs| >= 2 && Scannable(hash, s) && Valid(hash, s)
  {
    hide Valid, MaskedTable;
  }

  /** The stored entries are the map. */
  lemma StoredIsLookup<K(!new), V>(hash: K -> nat, s: State<K, V>, e: Entry<K, V>)
    requires Valid(hash, s)
    ensures e in Stored(s) <==> Lookup(hash, s, e.key) == Some(e.val)
  {
    hide *;
    StoredParts(hash, s);
    TableHas(hash, s.ht0, e);
    TableHas(hash, s.ht1, e);
    LookupParts(hash, s, e);
  }

  /** They hold each key once, and there are as many as the counters say. */
  lemma StoredDistinct<K(!new), V>(hash: K -> nat, s: State<K, V>)
    requires Valid(hash, s)
    ensures Distinct(Stored(s)) && |Stored(s)| == Size(s)
  {
    hide *;
    StoredParts(hash, s);
    TableDistinct(hash, s.ht0);
    TableDistinct(hash, s.ht1);
    var a, b := Flat(s.ht0.buckets), Flat(s.ht1.buckets);
    forall e, f | e in a && f in b ensures e.key != f.key {
      TableHas(hash, s.ht0, e);
      TableHas(hash, s.ht1, f);
      LookupParts(hash, s, e);
    }
    DistinctAppend(a, b);
  }

  lemma {:induction false} DistinctCount<K, V>(a: seq<Entry<K, V>>, e: Entry<K, V>)
    requires Distinct(a)
    ensures multiset(a)[e] == if e in a then 1 else 0
  {
    if a != [] {
      DistinctCount(a[1..], e);
      assert a == [a[0]] + a[1..];
      if e in a[1..] {
        var i :| 0 <= i < |a[1..]| && a[1..][i] == e;
        assert a[0].key != a[i + 1].key;
      }
    }
  }

  lemma Included<K, V>(a: seq<Entry<K, V>>, b: seq<Entry<K, V>>)
    requires Distinct(a) && Distinct(b) && forall e :: e in a ==> e in b
    ensures multiset(a) <= multiset(b)
  {
    hide Distinct;
    forall e ensures multiset(a)[e] <= multiset(b)[e] {
      DistinctCount(a, e);
      DistinctCount(b, e);
    }
  }

  lemma SameBag<T>(a: seq<T>, b: seq<T>)
    requires multiset(a) <= multiset(b) && multiset(b) <= multiset(a)
    ensures multiset(a) == multiset(b) && |a| == |b|
  {
    assert multiset(a) == multiset(b);
    assert |multiset(a)| == |a| && |multiset(b)| == |b|;
  }

  /** No call emits an entry more often than it is stored. */
  lemma EmittedIsBounded<K(!new), V>(hash: K -> nat, s: State<K, V>, v: Word)
    requires Scannable(hash, s)
    ensures multiset(Emitted(hash, s, v)) <= multiset(Stored(s))
  {
    assert Valid(hash, s);
    hide *;
    EmittedDistinct(hash, s, v);
    StoredDistinct(hash, s);
    forall e | e in Emitted(hash, s, v) ensures e in Stored(s) {
      EmittedIsStored(hash, s, v, e);
      StoredIsLookup(hash, s, e);
    }
    Included(Emitted(hash, s, v), Stored(s));
  }

  // ---------------------------------------------------------------- an iteration over an unchanged state

  /** The cursors of one iteration over s: from 0 to the first 0. */
  ghost predicate StillIteration<K(!new), V>(hash: K -> nat, s: State<K, V>, vs: seq<Word>) {
    && Scannable(hash, s) && |vs| >= 2
    && vs[0] == Zeros(64) && vs[|vs| - 1] == Zeros(64)
    && (forall i :: 0 < i < |vs| - 1 ==> vs[i] != Zeros(64))
    && forall i :: 0 <= i < |vs| - 1 ==> vs[i + 1] == Cursor(s, vs[i])
  }

  /** What its first n calls emit. */
  function EmittedBy<K(!new), V>(hash: K -> nat, s: State<K, V>, vs: seq<Word>, n: nat): (r: seq<Entry<K, V>>)
    requires Scannable(hash, s) && n <= |vs|
  {
    if n == 0 then [] else EmittedBy(hash, s, vs, n - 1) + Emitted(hash, s, vs[n - 1])
  }

  lemma {:induction false} EmittedByAll<K(!new), V>(hash: K -> nat, s: State<K, V>, vs: seq<Word>, n: nat, i: nat,
                                                    e: Entry<K, V>)
    requires Scannable(hash, s) && i < n <= |vs| && e in Emitted(hash, s, vs[i])
    ensures e in EmittedBy(hash, s, vs, n)
    decreases n
  {
    hide *;
    EmittedByStep(hash, s, vs, n, e);
    if i < n - 1 { EmittedByAll(hash, s, vs, n - 1, i, e); }
  }

  lemma {:induction false} EmittedByOne<K(!new), V>(hash: K -> nat, s: State<K, V>, vs: seq<Word>, n: nat,
                                                    e: Entry<K, V>) returns (i: nat)
    requires Scannable(hash, s) && n <= |vs| && e in EmittedBy(hash, s, vs, n)
    ensures i < n && e in Emitted(hash, s, vs[i])
  {
    hide *;
    NothingEmitted(hash, s, vs);
    EmittedByStep(hash, s, vs, n, e);
    if e in Emitted(hash, s, vs[n - 1]) {
      i := n - 1;
    } else {
      i := EmittedByOne(hash, s, vs, n - 1, e);
    }
  }

  lemma NothingEmitted<K(!new), V>(hash: K -> nat, s: State<K, V>, vs: seq<Word>)
    requires Scannable(hash, s)
    ensures EmittedBy(hash, s, vs, 0) == []
  {}

  lemma EmittedByStep<K(!new), V>(hash: K -> nat, s: State<K, V>, vs: seq<Word>, n: nat, e: Entry<K, V>)
    requires Scannable(hash, s) && 0 < n <= |vs|
    ensures e in EmittedBy(hash, s, vs, n) <==> e in EmittedBy(hash, s, vs, n - 1) || e in Emitted(hash, s, vs[n - 1])
  {
    hide Emitted, Scannable;
  }

  lemma EmittedByParts<K(!new), V>(hash: K -> nat, s: State<K, V>, vs: seq<Word>, n: nat)
    requires Scannable(hash, s) && 0 < n <= |vs|
    ensures EmittedBy(hash, s, vs, n) == EmittedBy(hash, s, vs, n - 1) + Emitted(hash, s, vs[n - 1])
  {
    hide Emitted, Scannable;
  }

  lemma RankGrows(v: Word, k: nat)
    requires k <= 64 && NextCursor(v, k) != Zeros(64)
    ensures Rank(v) < Rank(NextCursor(v, k))
  {
    assert IntervalEnd(v, k) == Times(Rank(v[..k]) + 1, Pow2(64 - k));
    hide *;
    NextCursorRank(v, k);
    ZerosValue(64);
    if Rank(NextCursor(v, k)) == 0 { RankInjective(NextCursor(v, k), Zeros(64)); }
    SplitRank(v, k);
    RankBound(v[k..]);
    Distribute(Rank(v[..k]), 1, Pow2(64 - k));
  }

  lemma {:induction false} RanksGrow<K(!new), V>(hash: K -> nat, s: State<K, V>, vs: seq<Word>, i: nat, j: nat)
    requires StillIteration(hash, s, vs) && Size(s) > 0 && i < j < |vs| - 1
    ensures Rank(vs[i]) < Rank(vs[j])
    decreases j
  {
    assert SmallBits(s) <= 64 && vs[(j - 1) + 1] == Cursor(s, vs[j - 1]);
    hide Rank, NextCursor, Scannable, SmallBits;
    RankGrows(vs[j - 1], SmallBits(s));
    if i < j - 1 { RanksGrow(hash, s, vs, i, j - 1); }
  }

  /** No two calls of the iteration visit the same bucket of the smaller table. */
  lemma PrefixesDiffer<K(!new), V>(hash: K -> nat, s: State<K, V>, vs: seq<Word>, i: nat, j: nat)
    requires StillIteration(hash, s, vs) && Size(s) > 0 && i < j < |vs| - 1 && SmallBits(s) <= 64
    ensures vs[i][..SmallBits(s)] != vs[j][..SmallBits(s)]
  {
    assert vs[i + 1] == Cursor(s, vs[i]) && vs[j + 1] == Cursor(s, vs[j]);
    if j + 1 < |vs| - 1 { RanksGrow(hash, s, vs, i + 1, j + 1); }
    if vs[i][..SmallBits(s)] == vs[j][..SmallBits(s)] { SameCursor(vs[i], vs[j], SmallBits(s)); }
  }

  /** What two calls of the iteration emit has no key in common. */
  lemma CallsApart<K(!new), V>(hash: K -> nat, s: State<K, V>, vs: seq<Word>, i: nat, j: nat, e: Entry<K, V>,
                               f: Entry<K, V>)
    requires StillIteration(hash, s, vs) && i < j < |vs| - 1 && Scannable(hash, s)
    requires e in Emitted(hash, s, vs[i]) && f in Emitted(hash, s, vs[j])
    ensures e.key != f.key
  {
    hide *;
    EmittedIsStored(hash, s, vs[i], e);
    EmittedIsStored(hash, s, vs[j], f);
    PrefixesDiffer(hash, s, vs, i, j);
  }

  lemma {:induction false} RunDistinct<K(!new), V>(hash: K -> nat, s: State<K, V>, vs: seq<Word>, n: nat)
    requires StillIteration(hash, s, vs) && n < |vs| && Scannable(hash, s)
    ensures Distinct(EmittedBy(hash, s, vs, n))
  {
    if n == 0 {
      NothingEmitted(hash, s, vs);
    } else {
      hide *;
      RunDistinct(hash, s, vs, n - 1);
      EmittedDistinct(hash, s, vs[n - 1]);
      var before, now := EmittedBy(hash, s, vs, n - 1), Emitted(hash, s, vs[n - 1]);
      forall e, f | e in before && f in now ensures e.key != f.key {
        var i := EmittedByOne(hash, s, vs, n - 1, e);
        CallsApart(hash, s, vs, i, n - 1, e, f);
      }
      DistinctAppend(before, now);
      EmittedByParts(hash, s, vs, n);
    }
  }

  lemma StoredIsEmitted<K(!new), V>(hash: K -> nat, s: State<K, V>, vs: seq<Word>, e: Entry<K, V>)
    requires StillIteration(hash, s, vs) && Lookup(hash, s, e.key) == Some(e.val)
    ensures e in EmittedBy(hash, s, vs, |vs| - 1)
  {
    hide Emitted, Scannable, Lookup, Cursor, HashWord;
    var n := |vs| - 1;
    var ss := seq(n, _ => s);
    assert Iteration(hash, ss, vs);
    GrowingIterationEmitsEverything(hash, ss, vs, e.key);
    var j :| 0 <= j < |ss| && Holds(Emitted(hash, ss[j], vs[j]), e.key);
    var f :| f in Emitted(hash, s, vs[j]) && f.key == e.key;
    EmittedIsStored(hash, s, vs[j], f);
    EmittedByAll(hash, s, vs, n, j, e);
  }

  lemma RunIsStored<K(!new), V>(hash: K -> nat, s: State<K, V>, vs: seq<Word>, e: Entry<K, V>)
    requires StillIteration(hash, s, vs) && e in EmittedBy(hash, s, vs, |vs| - 1)
    ensures Lookup(hash, s, e.key) == Some(e.val)
  {
    hide *;
    StillParts(hash, s, vs);
    var i := EmittedByOne(hash, s, vs, |vs| - 1, e);
    EmittedIsStored(hash, s, vs[i], e);
  }

  /** An iteration over a dictionary that does not change, in the middle of a rehash or not, emits exactly the stored
      entries, each once. */
  lemma EveryEntryOnce<K(!new), V>(hash: K -> nat, s: State<K, V>, vs: seq<Word>)
    requires StillIteration(hash, s, vs)
    ensures multiset(EmittedBy(hash, s, vs, |vs| - 1)) == multiset(Stored(s))
    ensures |EmittedBy(hash, s, vs, |vs| - 1)| == Size(s)
  {
    hide *;
    StillParts(hash, s, vs);
    var run := EmittedBy(hash, s, vs, |vs| - 1);
    RunDistinct(hash, s, vs, |vs| - 1);
    StoredDistinct(hash, s);
    forall e | e in run ensures e in Stored(s) {
      RunIsStored(hash, s, vs, e);
      StoredIsLookup(hash, s, e);
    }
    forall e | e in Stored(s) ensures e in run {
      StoredIsLookup(hash, s, e);
      StoredIsEmitted(hash, s, vs, e);
    }
    Included(run, Stored(s));
    Included(Stored(s), run);
    SameBag(run, Stored(s));
  }

  // ---------------------------------------------------------------- there is such an iteration

  lemma {:induction false} RepeatNext(v: Word, k: nat, n: nat)
    requires k <= 64
    ensures Repeat(v, k, n + 1) == NextCursor(Repeat(v, k, n), k)
    decreases n
  {
    hide NextCursor;
    if n > 0 { RepeatNext(NextCursor(v, k), k, n - 1); }
  }

  /** Before it wraps, every call moves the cursor to the next bucket of the smaller table in reversed order. */
  lemma {:induction false} RepeatRank(v: Word, k: nat, n: nat)
    requires k <= 64 && Rank(v[..k]) + n < Pow2(k)
    ensures Rank(Repeat(v, k, n)[..k]) == Rank(v[..k]) + n
    decreases n
  {
    if n > 0 {
      PrefixIncrement(v[..k]);
      NextCursorBits(v, k);
      var w := NextCursor(v, k);
      hide Rank, Pow2, NextCursor;
      RepeatRank(w, k, n - 1);
    }
  }

  lemma ZeroRank(k: nat)
    requires k <= 64
    ensures Rank(Zeros(64)[..k]) == 0
  {
    assert Zeros(64)[..k] == Zeros(k);
    ZerosValue(k);
  }

  /** From cursor 0 the calls on an unchanged dictionary come back to 0 for the first time after as many as the smaller
      table has buckets. */
  lemma IterationExists<K(!new), V>(hash: K -> nat, s: State<K, V>) returns (vs: seq<Word>)
    requires Scannable(hash, s) && Size(s) > 0
    ensures StillIteration(hash, s, vs) && |vs| - 1 == |Smaller(s).buckets|
  {
    hide *;
    var k := SmallBits(s);
    CallParts(hash, s);
    vs := seq(Pow2(k) + 1, n requires 0 <= n <= Pow2(k) => Repeat(Zeros(64), k, n));
    ZeroRank(k);
    CursorEnds(Zeros(64), k);
    RepeatNone(Zeros(64), k);
    forall i | 0 < i < |vs| - 1 ensures vs[i] != Zeros(64) { RepeatRank(Zeros(64), k, i); }
    forall i | 0 <= i < |vs| - 1 ensures vs[i + 1] == NextCursor(vs[i], k) { RepeatNext(Zeros(64), k, i); }
    StillFrom(hash, s, vs);
  }

  lemma RepeatNone(v: Word, k: nat)
    requires k <= 64
    ensures Repeat(v, k, 0) == v
  {}

  lemma CallParts<K(!new), V>(hash: K -> nat, s: State<K, V>)
    requires Scannable(hash, s) && Size(s) > 0
    ensures SmallBits(s) <= 64 && |Smaller(s).buckets| == Pow2(SmallBits(s))
  {}

  lemma StillFrom<K(!new), V>(hash: K -> nat, s: State<K, V>, vs: seq<Word>)
    requires Scannable(hash, s) && Size(s) > 0 && |vs| >= 2 && SmallBits(s) <= 64
    requires vs[0] == Zeros(64) && vs[|vs| - 1] == Zeros(64) && forall i :: 0 < i < |vs| - 1 ==> vs[i] != Zeros(64)
    requires forall i :: 0 <= i < |vs| - 1 ==> vs[i + 1] == NextCursor(vs[i], SmallBits(s))
    ensures StillIteration(hash, s, vs)
  {
    hide Scannable, NextCursor, Size, SmallBits;
  }
}
