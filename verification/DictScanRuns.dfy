/** What a whole dictScan iteration guarantees while the dictionary changes between calls. */
module DictScanRuns {
  import opened Words
  import opened DictState
  import opened DictScan

  ghost predicate Holds<K, V>(entries: seq<Entry<K, V>>, k: K) {
    exists e :: e in entries && e.key == k
  }

  ghost function KeyRank<K>(hash: K -> nat, k: K): nat {
    Rank(HashWord(hash(k)))
  }

  /** The cursor's bits between the two masks, empty when no rehash is in progress. */
  ghost function ExtraBits<K, V>(s: State<K, V>, v: Word): seq<bool>
    requires SmallBits(s) <= LargeBits(s) <= 64
  {
    v[SmallBits(s)..LargeBits(s)]
  }

  lemma FoundInBucket<K(!new), V>(hash: K -> nat, t: Table<K, V>, kb: nat, k: K)
    requires MaskedTable(t, kb) && hash(k) < Pow2(64) && FindInTable(hash, k, t).Some?
    ensures Val(HashWord(hash(k))[..kb]) < |t.buckets|
    ensures Holds(t.buckets[Val(HashWord(hash(k))[..kb])], k)
  {
    SlotBits(hash(k), kb);
    var chain := t.buckets[Slot(hash(k), |t.buckets|)];
    FindInHasKey(chain, k);
    var i :| 0 <= i < |chain| && chain[i].key == k;
    assert chain[i] in chain;
  }

  lemma {:induction false} RankPrefix(e: seq<bool>, f: seq<bool>, c: nat)
    requires |e| == |f| && Rank(e) <= Rank(f) && c <= |e|
    ensures Rank(e[..c]) <= Rank(f[..c])
  {
    assert e == e[..c] + e[c..] && f == f[..c] + f[c..];
    var m := Pow2(|e| - c);
    hide Rank, Pow2;
    RankAppend(e[..c], e[c..]);
    RankAppend(f[..c], f[c..]);
    RankBound(f[c..]);
    QuotientOrder(Rank(e[..c]), Rank(f[..c]), m, Rank(e[c..]), Rank(f[c..]));
  }

  lemma QuotientOrder(p: nat, q: nat, m: nat, a: nat, b: nat)
    requires b < m && p * m + a <= q * m + b
    ensures p <= q
  {
    Distribute(p - q, q, m);
    AtLeastOneMultiple(p - q, m);
  }

  lemma NonEmptyWhenFound<K(!new), V>(hash: K -> nat, s: State<K, V>, k: K)
    requires Valid(hash, s) && Lookup(hash, s, k).Some?
    ensures Size(s) > 0
  {
    TotalZero(s.ht0.buckets);
    TotalZero(s.ht1.buckets);
  }

  /** One call emits every stored key from the cursor's rank to the end of its interval, provided the
      cursor's bits above the smaller mask are ones followed by zeros. */
  lemma CallCovers<K(!new), V>(hash: K -> nat, s: State<K, V>, v: Word, k: K)
    requires Scannable(hash, s) && Lookup(hash, s, k).Some?
    requires Size(s) > 0 ==> OnesThenZeros(ExtraBits(s, v))
    requires SmallBits(s) <= 64 && Rank(v) <= KeyRank(hash, k) < IntervalEnd(v, SmallBits(s))
    ensures Holds(Emitted(hash, s, v), k)
  {
    NonEmptyWhenFound(hash, s, k);
    hide KeyRank, Holds, Valid, Log, Emitted, IntervalEnd, Rank, Pow2, OnesThenZeros, HashWord;
    assert KeyRank(hash, k) == Rank(HashWord(hash(k))) by { KeyRankIs(hash, k); }
    IntervalPrefix(v, HashWord(hash(k)), SmallBits(s));
    if FindInTable(hash, k, Smaller(s)).Some? {
      SmallerCovers(hash, s, v, k);
    } else {
      LargerCovers(hash, s, v, k);
    }
  }

  lemma KeyRankIs<K>(hash: K -> nat, k: K)
    ensures KeyRank(hash, k) == Rank(HashWord(hash(k)))
  {}

  lemma SmallerCovers<K(!new), V>(hash: K -> nat, s: State<K, V>, v: Word, k: K)
    requires Scannable(hash, s) && Size(s) > 0 && FindInTable(hash, k, Smaller(s)).Some?
    requires SmallBits(s) <= 64 && HashWord(hash(k))[..SmallBits(s)] == v[..SmallBits(s)]
    ensures Holds(Emitted(hash, s, v), k)
  {
    hide Valid, Log, Pow2, Val, FindInTable, HashWord, ExpansionEntries;
    var h, k0 := HashWord(hash(k)), SmallBits(s);
    BucketInRange(v, Smaller(s), k0);
    FoundInBucket(hash, Smaller(s), k0, k);
    var e :| e in Smaller(s).buckets[Val(h[..k0])] && e.key == k;
    assert e in Emitted(hash, s, v);
  }

  lemma LargerCovers<K(!new), V>(hash: K -> nat, s: State<K, V>, v: Word, k: K)
    requires Scannable(hash, s) && Size(s) > 0 && Rehashing(s) && FindInTable(hash, k, Larger(s)).Some?
    requires HashWord(hash(k))[..SmallBits(s)] == v[..SmallBits(s)]
    requires Rank(v[SmallBits(s)..]) <= Rank(HashWord(hash(k))[SmallBits(s)..]) && OnesThenZeros(ExtraBits(s, v))
    ensures Holds(Emitted(hash, s, v), k)
  {
    hide Valid, Log, Pow2, Val, Rank, FindInTable, HashWord, ExpansionEntries, OnesThenZeros;
    var h, k0, k1 := HashWord(hash(k)), SmallBits(s), LargeBits(s);
    FoundInBucket(hash, Larger(s), k1, k);
    var e :| e in Larger(s).buckets[Val(h[..k1])] && e.key == k;
    assert Val(h[k0..k1]) >= Val(v[k0..k1]) by {
      RankPrefix(v[k0..], h[k0..], k1 - k0);
      assert v[k0..][..k1 - k0] == v[k0..k1] && h[k0..][..k1 - k0] == h[k0..k1];
      OnesThenZerosCovers(v[k0..k1], h[k0..k1]);
    }
    ExpansionEmits(Larger(s).buckets, v, k0, k1, h, e);
    assert e in Emitted(hash, s, v);
  }

  /** Otherwise a whole bucket of the larger table is passed over: some hash inside the interval whose
      entries there are not emitted. */
  lemma CallMisses<K(!new), V>(hash: K -> nat, s: State<K, V>, v: Word) returns (h: Word)
    requires Scannable(hash, s) && Rehashing(s) && Size(s) > 0 && !OnesThenZeros(ExtraBits(s, v))
    ensures Rank(v) <= Rank(h) < IntervalEnd(v, SmallBits(s)) && h[LargeBits(s)..] == Zeros(64 - LargeBits(s))
    ensures forall k :: HashWord(hash(k)) == h && FindInTable(hash, k, Larger(s)).Some? ==>
      !Holds(Emitted(hash, s, v), k)
  {
    var k0, k1 := SmallBits(s), LargeBits(s);
    var f := CountingMisses(v[k0..k1]);
    h := v[..k0] + f + Zeros(64 - k1);
    assert h[..k0] == v[..k0] && h[k0..k1] == f && h[k1..] == Zeros(64 - k1);
    MissedRank(v, h, k0, k1);
    forall k | HashWord(hash(k)) == h && FindInTable(hash, k, Larger(s)).Some? ensures !Holds(Emitted(hash, s, v), k) {
      if Holds(Emitted(hash, s, v), k) {
        var e :| e in Emitted(hash, s, v) && e.key == k;
        NotEmitted(hash, s, v, h, e);
      }
    }
  }

  lemma MissedRank(v: Word, h: Word, k0: nat, k1: nat)
    requires k0 <= k1 <= 64 && h[..k0] == v[..k0] && Rank(h[k0..k1]) > Rank(v[k0..k1])
    ensures Rank(v) <= Rank(h) < IntervalEnd(v, k0)
  {
    assert v[k0..k1] == v[k0..][..k1 - k0] && h[k0..k1] == h[k0..][..k1 - k0];
    if Rank(h[k0..]) < Rank(v[k0..]) { RankPrefix(h[k0..], v[k0..], k1 - k0); }
    assert IntervalEnd(v, k0) == Times(Rank(v[..k0]) + 1, Pow2(64 - k0));
    hide *;
    SplitRank(v, k0);
    SplitRank(h, k0);
    TimesNext(Rank(v[..k0]), Pow2(64 - k0));
  }

  lemma TimesNext(a: nat, m: nat)
    ensures Times(a + 1, m) == Times(a, m) + m
  {
    Distribute(a, 1, m);
  }

  lemma SlicesAgree(g: Word, h: Word, k0: nat, k1: nat)
    requires k0 <= k1 <= 64
    ensures g[..k1] == h[..k1] ==> g[k0..k1] == h[k0..k1]
  {
    assert g[k0..k1] == g[..k1][k0..] && h[k0..k1] == h[..k1][k0..];
  }

  lemma NotEmitted<K(!new), V>(hash: K -> nat, s: State<K, V>, v: Word, h: Word, e: Entry<K, V>)
    requires Scannable(hash, s) && Rehashing(s) && Size(s) > 0 && h == HashWord(hash(e.key))
    requires var k0, k1 := SmallBits(s), LargeBits(s); h[..k0] == v[..k0] && Val(h[k0..k1]) < Val(v[k0..k1])
    requires FindInTable(hash, e.key, Larger(s)).Some?
    ensures e !in Emitted(hash, s, v)
  {
    var k0, k1 := SmallBits(s), LargeBits(s);
    BucketInRange(v, Smaller(s), k0);
    if e in Smaller(s).buckets[Val(v[..k0])] {
      StoredHere(hash, Smaller(s), Val(v[..k0]), e);
    }
    if e in ExpansionEntries(Larger(s).buckets, v, k0, k1) {
      var g := ExpansionOnly(Larger(s).buckets, v, k0, k1, e);
      StoredHere(hash, Larger(s), Val(g[..k1]), e);
      SlotBits(hash(e.key), k1);
      SlicesAgree(g, h, k0, k1);
      ValInjective(g[..k1], h[..k1]);
    }
  }

  /** An entry of a valid table is found, and stands in its hash's bucket. */
  lemma StoredHere<K(!new), V>(hash: K -> nat, t: Table<K, V>, b: nat, e: Entry<K, V>)
    requires ValidTable(hash, t) && b < |t.buckets| && e in t.buckets[b]
    ensures FindInTable(hash, e.key, t).Some? && Index(hash, e.key, t) == b
  {
    hide Slot;
    var i :| 0 <= i < |t.buckets[b]| && t.buckets[b][i] == e;
    assert HasKey(t.buckets[b], e.key);
    FindInHasKey(t.buckets[b], e.key);
    ChainKeys(hash, t, b);
  }

  // ---------------------------------------------------------------- whole iterations

  /** Cursors 0, v1, ..., 0: each call made on the state the dictionary has at that moment. */
  ghost predicate Iteration<K(!new), V>(hash: K -> nat, ss: seq<State<K, V>>, vs: seq<Word>) {
    && |vs| == |ss| + 1 && |ss| > 0
    && vs[0] == Zeros(64) && vs[|ss|] == Zeros(64)
    && forall i :: 0 <= i < |ss| ==> Scannable(hash, ss[i]) && vs[i + 1] == Cursor(ss[i], vs[i])
  }

  /** A call whose coverage is complete: no rehash, or a cursor of the right shape. */
  ghost predicate GoodCall<K, V>(s: State<K, V>, v: Word) {
    Size(s) > 0 ==> SmallBits(s) <= LargeBits(s) <= 64 && OnesThenZeros(ExtraBits(s, v))
  }

  lemma {:induction false} PassedWithoutEmission<K(!new), V>(hash: K -> nat, ss: seq<State<K, V>>, vs: seq<Word>, k: K,
    i: nat)
    requires Iteration(hash, ss, vs) && i < |ss|
    requires forall j :: 0 <= j < |ss| ==> GoodCall(ss[j], vs[j]) && Lookup(hash, ss[j], k).Some?
    requires forall j :: 0 <= j < i ==> !Holds(Emitted(hash, ss[j], vs[j]), k)
    ensures Rank(vs[i]) <= KeyRank(hash, k)
  {
    if i == 0 {
      ZerosValue(64);
    } else {
      PassedWithoutEmission(hash, ss, vs, k, i - 1);
      CallAdvances(hash, ss[i - 1], vs[i - 1], k);
    }
  }

  /** A key still ahead and not emitted by this call is still ahead of the next cursor, which is not 0. */
  lemma CallAdvances<K(!new), V>(hash: K -> nat, s: State<K, V>, v: Word, k: K)
    requires Scannable(hash, s) && GoodCall(s, v) && Lookup(hash, s, k).Some?
    requires Rank(v) <= KeyRank(hash, k) && !Holds(Emitted(hash, s, v), k)
    ensures Rank(Cursor(s, v)) <= KeyRank(hash, k) && Cursor(s, v) != Zeros(64)
  {
    NonEmptyWhenFound(hash, s, k);
    var k0 := SmallBits(s);
    assert k0 <= 64 && Cursor(s, v) == NextCursor(v, k0);
    hide *;
    NextCursorRank(v, k0);
    KeyRankIs(hash, k);
    RankBound(HashWord(hash(k)));
    ZerosValue(64);
    if KeyRank(hash, k) < IntervalEnd(v, k0) { GoodCallCovers(hash, s, v, k); }
    EndIsPositive(v, k0);
  }

  lemma GoodCallCovers<K(!new), V>(hash: K -> nat, s: State<K, V>, v: Word, k: K)
    requires Scannable(hash, s) && GoodCall(s, v) && Lookup(hash, s, k).Some?
    requires SmallBits(s) <= 64 && Rank(v) <= KeyRank(hash, k) < IntervalEnd(v, SmallBits(s))
    ensures Holds(Emitted(hash, s, v), k)
  {
    hide Rank, IntervalEnd, Holds, Emitted, KeyRank, Lookup, Log, OnesThenZeros;
    CallCovers(hash, s, v, k);
  }

  lemma EndIsPositive(v: Word, k: nat)
    requires k <= 64
    ensures IntervalEnd(v, k) > 0
  {
    TimesNext(Rank(v[..k]), Pow2(64 - k));
  }

  /** Every key present throughout an iteration of good calls is emitted at least once. */
  lemma IterationEmitsEverything<K(!new), V>(hash: K -> nat, ss: seq<State<K, V>>, vs: seq<Word>, k: K)
    requires Iteration(hash, ss, vs)
    requires forall j :: 0 <= j < |ss| ==> GoodCall(ss[j], vs[j]) && Lookup(hash, ss[j], k).Some?
    ensures exists j :: 0 <= j < |ss| && Holds(Emitted(hash, ss[j], vs[j]), k)
  {
    if forall j :: 0 <= j < |ss| ==> !Holds(Emitted(hash, ss[j], vs[j]), k) {
      var last := |ss| - 1;
      PassedWithoutEmission(hash, ss, vs, k, last);
      CallAdvances(hash, ss[last], vs[last], k);
    }
  }

  /** Tables that never get smaller from call to call, whatever the rehash does. */
  ghost predicate OnlyGrows<K, V>(ss: seq<State<K, V>>) {
    forall i, j :: 0 <= i < j < |ss| ==> SmallBits(ss[i]) <= SmallBits(ss[j])
  }

  lemma ZeroTail(v: Word, k: nat, k0: nat, k1: nat)
    requires k <= k0 <= k1 <= 64 && v[k..] == Zeros(64 - k)
    ensures OnesThenZeros(v[k0..k1])
  {
    forall b | k <= b < 64 ensures !v[b] { assert v[k..][b - k] == Zeros(64 - k)[b - k]; }
  }

  lemma GrowingCallsAreGood<K(!new), V>(hash: K -> nat, ss: seq<State<K, V>>, vs: seq<Word>, i: nat)
    requires Iteration(hash, ss, vs) && OnlyGrows(ss) && i < |ss|
    ensures GoodCall(ss[i], vs[i])
  {
    if i > 0 && Size(ss[i]) > 0 {
      var t, k := ss[i - 1], SmallBits(ss[i - 1]);
      assert vs[(i - 1) + 1] == Cursor(t, vs[i - 1]);
      hide NextCursor, Log, Valid, OnesThenZeros;
      if Size(t) > 0 { NextCursorRank(vs[i - 1], k); }
      ZeroTail(vs[i], if Size(t) > 0 then k else 0, SmallBits(ss[i]), LargeBits(ss[i]));
    }
  }

  /** The promise of dictScan for a dictionary that only grows: no call in the middle of a growing
      rehash loses a key. */
  lemma GrowingIterationEmitsEverything<K(!new), V>(hash: K -> nat, ss: seq<State<K, V>>, vs: seq<Word>, k: K)
    requires Iteration(hash, ss, vs) && OnlyGrows(ss)
    requires forall j :: 0 <= j < |ss| ==> Lookup(hash, ss[j], k).Some?
    ensures exists j :: 0 <= j < |ss| && Holds(Emitted(hash, ss[j], vs[j]), k)
  {
    forall j | 0 <= j < |ss| ensures GoodCall(ss[j], vs[j]) { GrowingCallsAreGood(hash, ss, vs, j); }
    IterationEmitsEverything(hash, ss, vs, k);
  }

  // ---------------------------------------------------------------- operations between calls

  /** Every operation but dictResize and a direct dictExpand. */
  datatype Op<+K, +V> =
    | FindKey
    | AddKey(k: K, v: V, canResize: bool)
    | PutKey(k: K, v: V, canResize: bool)
    | DeleteKey(k: K)
    | RehashKeys(n: nat)

  ghost function Apply<K(!new), V>(hash: K -> nat, s: State<K, V>, op: Op<K, V>): (r: State<K, V>)
    requires Valid(hash, s)
    ensures Valid(hash, r)
  {
    match op
    case FindKey => Find(hash, s)
    case AddKey(k, v, canResize) => AddEffect(hash, s, k, v, canResize); AddRaw(hash, s, k, v, canResize).0
    case PutKey(k, v, canResize) => ReplaceEffect(hash, s, k, v, canResize); Replace(hash, s, k, v, canResize).0
    case DeleteKey(k) => DeleteEffect(hash, s, k); Delete(hash, s, k).0
    case RehashKeys(n) => Rehash(hash, s, n).0
  }

  ghost function MinSize<K, V>(s: State<K, V>): nat {
    |Smaller(s).buckets|
  }

  lemma {:induction false} RehashGrows<K(!new), V>(hash: K -> nat, s: State<K, V>, n: nat)
    requires Valid(hash, s)
    ensures MinSize(Rehash(hash, s, n).0) >= MinSize(s)
    decreases n
  {
    if Rehashing(s) && n > 0 {
      hide RehashOne, Valid;
      RehashOneEffect(hash, s);
      RehashGrows(hash, RehashOne(hash, s), n - 1);
    }
  }

  lemma FindGrows<K(!new), V>(hash: K -> nat, s: State<K, V>)
    requires Valid(hash, s)
    ensures MinSize(MaybeRehash(hash, s)) >= MinSize(s) && MinSize(Find(hash, s)) >= MinSize(s)
  {
    hide Rehash;
    RehashGrows(hash, s, 1);
  }

  /** An insertion's expansion at least doubles a full table. */
  lemma ExpandGrows<K(!new), V>(hash: K -> nat, s: State<K, V>, canResize: bool)
    requires Valid(hash, s)
    ensures MinSize(ExpandIfNeeded(s, canResize).0) >= MinSize(s)
  {}

  lemma AddGrows<K(!new), V>(hash: K -> nat, s: State<K, V>, k: K, v: V, canResize: bool)
    requires Valid(hash, s)
    ensures MinSize(AddRaw(hash, s, k, v, canResize).0) >= MinSize(s)
  {
    hide Valid, MaybeRehash, ExpandIfNeeded, PutFirst, Lookup;
    MaybeRehashEffect(hash, s);
    FindGrows(hash, s);
    ExpandIfNeededEffect(hash, MaybeRehash(hash, s), canResize);
    ExpandGrows(hash, MaybeRehash(hash, s), canResize);
  }

  lemma UpdateKeepsSize<K, V>(hash: K -> nat, t: Table<K, V>, k: K, chain: seq<Entry<K, V>>)
    ensures |UpdateChain(hash, t, k, chain).buckets| == |t.buckets|
  {}

  lemma SetValueKeepsSize<K, V>(hash: K -> nat, t: State<K, V>, k: K, v: V)
    ensures MinSize(SetValue(hash, t, k, v)) == MinSize(t)
  {
    hide UpdateChain;
    UpdateKeepsSize(hash, t.ht0, k, SetIn(Chain(hash, k, t.ht0), k, v));
    UpdateKeepsSize(hash, t.ht1, k, SetIn(Chain(hash, k, t.ht1), k, v));
  }

  lemma ApplyGrows<K(!new), V>(hash: K -> nat, s: State<K, V>, op: Op<K, V>)
    requires Valid(hash, s)
    ensures MinSize(Apply(hash, s, op)) >= MinSize(s)
  {
    hide Valid, MinSize, SetValue, AddRaw, Find, Rehash;
    match op
    case FindKey => FindGrows(hash, s);
    case AddKey(k, v, canResize) => AddGrows(hash, s, k, v, canResize);
    case PutKey(k, v, canResize) =>
      AddEffect(hash, s, k, v, canResize);
      AddGrows(hash, s, k, v, canResize);
      var t := AddRaw(hash, s, k, v, canResize).0;
      FindGrows(hash, t);
      SetValueKeepsSize(hash, Find(hash, t), k, v);
    case DeleteKey(k) => DeleteGrows(hash, s, k);
    case RehashKeys(n) => RehashGrows(hash, s, n);
  }

  lemma DeleteGrows<K(!new), V>(hash: K -> nat, s: State<K, V>, k: K)
    requires Valid(hash, s)
    ensures MinSize(Delete(hash, s, k).0) >= MinSize(s)
  {
    hide Valid, UpdateChain, Find;
    FindGrows(hash, s);
    var t := Find(hash, s);
    UpdateKeepsSize(hash, t.ht0, k, Unlink(Chain(hash, k, t.ht0), k));
    UpdateKeepsSize(hash, t.ht1, k, Unlink(Chain(hash, k, t.ht1), k));
  }

  ghost function ApplyAll<K(!new), V>(hash: K -> nat, s: State<K, V>, ops: seq<Op<K, V>>): (r: State<K, V>)
    requires Valid(hash, s)
    ensures Valid(hash, r)
    decreases |ops|
  {
    if ops == [] then s else ApplyAll(hash, Apply(hash, s, ops[0]), ops[1..])
  }

  lemma {:induction false} ApplyAllGrows<K(!new), V>(hash: K -> nat, s: State<K, V>, ops: seq<Op<K, V>>)
    requires Valid(hash, s)
    ensures MinSize(ApplyAll(hash, s, ops)) >= MinSize(s)
    decreases |ops|
  {
    if ops != [] {
      hide Apply, MinSize;
      ApplyGrows(hash, s, ops[0]);
      ApplyAllGrows(hash, Apply(hash, s, ops[0]), ops[1..]);
    }
  }

  lemma {:induction false} LogMonotone(a: nat, b: nat)
    requires a <= b
    ensures Log(a) <= Log(b)
  {
    if a > 1 { LogMonotone(a / 2, b / 2); }
  }

  lemma {:induction false} RunGrows<K(!new), V>(hash: K -> nat, ss: seq<State<K, V>>, between: seq<seq<Op<K, V>>>,
                                                i: nat, j: nat)
    requires |between| >= |ss| && i <= j < |ss| && forall m :: 0 <= m < |ss| ==> Valid(hash, ss[m])
    requires forall m :: 0 <= m && m + 1 < |ss| ==> ss[m + 1] == ApplyAll(hash, ss[m], between[m])
    ensures MinSize(ss[i]) <= MinSize(ss[j])
    decreases j - i
  {
    hide *;
    if i < j {
      RunGrows(hash, ss, between, i, j - 1);
      assert ss[(j - 1) + 1] == ApplyAll(hash, ss[j - 1], between[j - 1]);
      ApplyAllGrows(hash, ss[j - 1], between[j - 1]);
    }
  }

  /** The promise of dictScan over whole runs: any finds, additions, replacements, deletions and rehash
      turns between the calls, and every key present throughout is emitted. */
  lemma RunEmitsEverything<K(!new), V>(hash: K -> nat, ss: seq<State<K, V>>, vs: seq<Word>,
                                       between: seq<seq<Op<K, V>>>, k: K)
    requires Iteration(hash, ss, vs) && |between| >= |ss|
    requires forall m :: 0 <= m && m + 1 < |ss| ==> ss[m + 1] == ApplyAll(hash, ss[m], between[m])
    requires forall j :: 0 <= j < |ss| ==> Lookup(hash, ss[j], k).Some?
    ensures exists j :: 0 <= j < |ss| && Holds(Emitted(hash, ss[j], vs[j]), k)
  {
    forall i, j | 0 <= i < j < |ss| ensures SmallBits(ss[i]) <= SmallBits(ss[j]) {
      RunGrows(hash, ss, between, i, j);
      LogMonotone(MinSize(ss[i]), MinSize(ss[j]));
    }
    GrowingIterationEmitsEverything(hash, ss, vs, k);
  }

  /** Outside rehashing, and while the two masks differ by at most one bit, every call is good: tables
      may have shrunk any number of times between calls. */
  lemma SettledCallsAreGood<K(!new), V>(hash: K -> nat, s: State<K, V>, v: Word)
    requires Scannable(hash, s) && LargeBits(s) <= SmallBits(s) + 1
    ensures GoodCall(s, v)
  {}

  /** The cursor after n calls with an unchanging smaller mask. */
  ghost function Repeat(v: Word, k: nat, n: nat): Word
    requires k <= 64
    decreases n
  {
    if n == 0 then v else Repeat(NextCursor(v, k), k, n - 1)
  }

  /** The cursor comes back to 0 after the remaining buckets of the smaller mask. */
  lemma {:induction false} CursorEnds(v: Word, k: nat)
    requires k <= 64
    ensures Rank(v[..k]) < Pow2(k) && Repeat(v, k, Pow2(k) - Rank(v[..k])) == Zeros(64)
    decreases Pow2(k) - Rank(v[..k])
  {
    var p := v[..k];
    PrefixIncrement(p);
    NextCursorBits(v, k);
    var w := NextCursor(v, k);
    assert w[..k] == Reversed(Increment(Reversed(p)));
    if Rank(p) + 1 == Pow2(k) {
      NextCursorRank(v, k);
      assert Rank(w) == 0 by { WholeRange(k); }
      ZerosValue(64);
      RankInjective(w, Zeros(64));
      assert Repeat(v, k, 1) == Repeat(w, k, 0);
    } else {
      CursorEnds(w, k);
    }
  }

  /** Calls on dictionaries that may change, but not the size of their smaller table. */
  ghost predicate Settled<K(!new), V>(hash: K -> nat, ss: seq<State<K, V>>, vs: seq<Word>, k: nat) {
    && |vs| == |ss| + 1
    && forall i :: 0 <= i < |ss| ==>
         Scannable(hash, ss[i]) && Size(ss[i]) > 0 && SmallBits(ss[i]) == k && vs[i + 1] == Cursor(ss[i], vs[i])
  }

  lemma {:induction false} CursorsRepeat<K(!new), V>(hash: K -> nat, ss: seq<State<K, V>>, vs: seq<Word>, k: nat,
                                                     n: nat)
    requires Settled(hash, ss, vs, k) && n <= |ss| && k <= 64
    ensures vs[n] == Repeat(vs[0], k, n)
    decreases n
  {
    if n > 0 {
      assert vs[0 + 1] == Cursor(ss[0], vs[0]) == NextCursor(vs[0], k);
      forall i | 0 <= i < |ss[1..]| ensures vs[1..][i + 1] == Cursor(ss[1..][i], vs[1..][i]) {
        assert vs[(i + 1) + 1] == Cursor(ss[i + 1], vs[i + 1]);
      }
      hide Scannable, Size, SmallBits, Cursor, NextCursor;
      CursorsRepeat(hash, ss[1..], vs[1..], k, n - 1);
    }
  }

  /** When sizes stop changing, the iteration ends after the remaining buckets have been visited. */
  lemma IterationEnds<K(!new), V>(hash: K -> nat, ss: seq<State<K, V>>, vs: seq<Word>, k: nat)
    requires Settled(hash, ss, vs, k) && |ss| > 0 && k <= 64 && Rank(vs[0][..k]) + |ss| >= Pow2(k)
    ensures Rank(vs[0][..k]) < Pow2(k) && vs[Pow2(k) - Rank(vs[0][..k])] == Zeros(64)
  {
    assert Scannable(hash, ss[0]);
    CursorEnds(vs[0], k);
    CursorsRepeat(hash, ss, vs, k, Pow2(k) - Rank(vs[0][..k]));
  }
}
