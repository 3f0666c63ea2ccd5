/** dictScan: the stateless cursor that walks a table from the highest bits down. `Rank` orders
    hashes by their reversed bits; each call covers an interval of that order. */
module DictScan {
  import opened Words
  import opened DictState
  import Dict

  function Ones(n: nat): (s: seq<bool>)
    ensures |s| == n
  {
    seq(n, _ => true)
  }

  // ---------------------------------------------------------------- the cursor

  /** v |= ~m0; v = rev(v); v++; v = rev(v) */
  function NextCursor(v: Word, k: nat): Word {
    Reversed(Increment(Reversed(Or(v, Not(Mask(k))))))
  }

  /** v = (((v | m0) + 1) & ~m0) | (v & m0) */
  function NextExpansion(v: Word, k: nat): Word {
    Or(And(Increment(Or(v, Mask(k))), Not(Mask(k))), And(v, Mask(k)))
  }

  lemma NextCursorBits(v: Word, k: nat)
    requires k <= 64
    ensures NextCursor(v, k) == Reversed(Increment(Reversed(v[..k]))) + Zeros(64 - k)
  {
    var p := v[..k];
    var low := Increment(Reversed(p));
    assert Or(v, Not(Mask(k))) == p + Ones(64 - k);
    assert Reversed(p + Ones(64 - k)) == Ones(64 - k) + Reversed(p);
    IncrementCarries(64 - k, Reversed(p));
    assert Reversed(Zeros(64 - k) + low) == Reversed(low) + Zeros(64 - k);
  }

  lemma NextExpansionBits(v: Word, k: nat)
    requires k <= 64
    ensures NextExpansion(v, k) == v[..k] + Increment(v[k..])
  {
    assert Or(v, Mask(k)) == Ones(k) + v[k..];
    IncrementCarries(k, v[k..]);
  }

  /** Multiplication under a name, for proofs that only pass products along. */
  function Times(a: nat, b: nat): (p: nat) {
    a * b
  }

  /** The end of the interval of ranks covered by a call with a mask of k bits. */
  function IntervalEnd(v: Word, k: nat): nat
    requires k <= 64
  {
    Times(Rank(v[..k]) + 1, Pow2(64 - k))
  }

  lemma PrefixIncrement(p: seq<bool>)
    ensures var next := Reversed(Increment(Reversed(p)));
      Rank(next) == (if Rank(p) + 1 == Pow2(|p|) then 0 else Rank(p) + 1) && Rank(p) < Pow2(|p|)
  {
    hide *;
    RankIsReversedVal(p);
    RankIsReversedVal(Reversed(Increment(Reversed(p))));
    ReversedTwice(Increment(Reversed(p)));
    IncrementValue(Reversed(p));
    RankBound(p);
  }

  lemma ReversedTwice(s: seq<bool>)
    ensures Reversed(Reversed(s)) == s
  {}

  lemma NextCursorProduct(v: Word, k: nat)
    requires k <= 64
    ensures Rank(NextCursor(v, k)) == Times(Rank(Reversed(Increment(Reversed(v[..k])))), Pow2(64 - k))
    ensures NextCursor(v, k)[k..] == Zeros(64 - k)
  {
    var next := Reversed(Increment(Reversed(v[..k])));
    NextCursorBits(v, k);
    assert (next + Zeros(64 - k))[k..] == Zeros(64 - k);
    hide Rank, Pow2, Reversed, Increment, NextCursor;
    RankAppend(next, Zeros(64 - k));
    ZerosValue(64 - k);
  }

  lemma WholeRange(k: nat)
    requires k <= 64
    ensures Pow2(64) == Times(Pow2(k), Pow2(64 - k))
  {
    hide Pow2;
    PowAdd(k, 64 - k);
  }

  /** The cursor returned is where the covered interval ends; 0 stands for the end of all ranks. */
  lemma NextCursorRank(v: Word, k: nat)
    requires k <= 64
    ensures Rank(NextCursor(v, k)) == if IntervalEnd(v, k) == Pow2(64) then 0 else IntervalEnd(v, k)
    ensures IntervalEnd(v, k) <= Pow2(64)
    ensures NextCursor(v, k)[k..] == Zeros(64 - k)
  {
    assert IntervalEnd(v, k) == Times(Rank(v[..k]) + 1, Pow2(64 - k)) && Times(0, Pow2(64 - k)) == 0;
    hide *;
    NextCursorProduct(v, k);
    PrefixIncrement(v[..k]);
    WholeRange(k);
    Scale(Rank(v[..k]) + 1, Pow2(k), Pow2(64 - k));
  }

  lemma Scale(a: nat, b: nat, m: nat)
    requires m > 0 && a <= b
    ensures Times(a, m) <= Times(b, m) && (Times(a, m) == Times(b, m) <==> a == b)
  {
    Distribute(b - a, a, m);
    AtLeastOneMultiple(b - a, m);
  }

  lemma IntervalRanks(v: Word, h: Word, k: nat)
    requires k <= 64 && Rank(v) <= Rank(h) < IntervalEnd(v, k)
    ensures Rank(h[..k]) == Rank(v[..k]) && Rank(v[k..]) <= Rank(h[k..])
  {
    assert IntervalEnd(v, k) == Times(Rank(v[..k]) + 1, Pow2(64 - k));
    hide *;
    SplitRank(v, k);
    SplitRank(h, k);
    SameQuotient(Rank(v), Rank(h), IntervalEnd(v, k), Rank(v[..k]), Rank(h[..k]), Pow2(64 - k), Rank(v[k..]),
      Rank(h[k..]));
  }

  /** Ranks from the cursor to the end of the interval share the cursor's low bits. */
  lemma IntervalPrefix(v: Word, h: Word, k: nat)
    requires k <= 64 && Rank(v) <= Rank(h) < IntervalEnd(v, k)
    ensures h[..k] == v[..k] && Rank(v[k..]) <= Rank(h[k..])
  {
    hide *;
    IntervalRanks(v, h, k);
    RankInjective(h[..k], v[..k]);
  }

  lemma SplitRank(w: Word, k: nat)
    requires k <= 64
    ensures Rank(w) == Times(Rank(w[..k]), Pow2(64 - k)) + Rank(w[k..]) && Rank(w[k..]) < Pow2(64 - k)
  {
    assert w == w[..k] + w[k..];
    hide Rank, Pow2;
    RankAppend(w[..k], w[k..]);
    RankBound(w[k..]);
  }

  lemma SameQuotient(x: nat, y: nat, end: nat, p: nat, q: nat, m: nat, a: nat, b: nat)
    requires a < m && b < m && x <= y < end
    requires x == Times(p, m) + a && y == Times(q, m) + b && end == Times(p + 1, m)
    ensures p == q && a <= b
  {
    Distribute(p, 1, m);
    Distribute(q - p, p, m);
    AtLeastOneMultiple(q - p, m);
    AtLeastOneMultiple(p - q, m);
  }

  // ---------------------------------------------------------------- expansions in the larger table

  /** The bits between the two masks have the shape 1..10..0. */
  ghost predicate OnesThenZeros(e: seq<bool>) {
    forall i, j :: 0 <= i < j < |e| && e[j] ==> e[i]
  }

  /** From e on, counting visits every pattern that does not come before e in rank. */
  ghost predicate CountingCovers(e: seq<bool>) {
    forall f: seq<bool> :: |f| == |e| && Rank(f) >= Rank(e) ==> Val(f) >= Val(e)
  }

  lemma {:induction false} OnesThenZerosCovers(e: seq<bool>, f: seq<bool>)
    requires OnesThenZeros(e) && |f| == |e| && Rank(f) >= Rank(e)
    ensures Val(f) >= Val(e)
  {
    if e != [] {
      RankBound(f[1..]);
      if e[0] {
        OnesThenZerosCovers(e[1..], f[1..]);
      } else {
        assert e == Zeros(|e|);
        ZerosValue(|e|);
      }
    }
  }

  /** When a 0 stands before a 1, some later rank counts lower. */
  lemma {:induction false} CountingMisses(e: seq<bool>) returns (f: seq<bool>)
    requires !OnesThenZeros(e)
    ensures |f| == |e| && Rank(f) > Rank(e) && Val(f) < Val(e)
  {
    var i, j :| 0 <= i < j < |e| && e[j] && !e[i];
    if e[0] {
      assert e[1..][j - 1] && !e[1..][i - 1];
      var g := CountingMisses(e[1..]);
      f := [e[0]] + g;
      assert f[1..] == g;
    } else {
      f := [true] + Zeros(|e| - 1);
      assert f[1..] == Zeros(|e| - 1);
      ZerosValue(|e| - 1);
      RankBound(e[1..]);
      assert e[1..][j - 1];
      SomeBitSet(e[1..], j - 1);
    }
  }

  lemma {:induction false} SomeBitSet(e: seq<bool>, j: nat)
    requires j < |e| && e[j]
    ensures Val(e) > 0
  {
    if j > 0 { SomeBitSet(e[1..], j - 1); }
  }

  /** The expansion loop is complete from its starting point exactly for this shape of the cursor. */
  lemma CountingCoversExactly(e: seq<bool>)
    ensures CountingCovers(e) <==> OnesThenZeros(e)
  {
    if OnesThenZeros(e) {
      forall f: seq<bool> | |f| == |e| && Rank(f) >= Rank(e) ensures Val(f) >= Val(e) { OnesThenZerosCovers(e, f); }
    } else {
      var f := CountingMisses(e);
    }
  }

  // ---------------------------------------------------------------- one call

  function Log(n: nat): (k: nat) {
    if n <= 1 then 0 else 1 + Log(n / 2)
  }

  lemma {:induction false} LogPow(k: nat)
    ensures Log(Pow2(k)) == k
  {
    if k > 0 { LogPow(k - 1); }
  }

  /** The low `len` bits of a number. */
  function Bits(n: nat, len: nat): (s: seq<bool>)
    ensures |s| == len
  {
    if len == 0 then [] else [n % 2 == 1] + Bits(n / 2, len - 1)
  }

  lemma {:induction false} BitsValue(n: nat, len: nat)
    requires n < Pow2(len)
    ensures Val(Bits(n, len)) == n
  {
    if len > 0 {
      BitsValue(n / 2, len - 1);
      assert Bits(n, len)[1..] == Bits(n / 2, len - 1);
    }
  }

  /** A hash as a machine word. */
  function HashWord(h: nat): Word {
    Bits(h, 64)
  }

  /** The bucket of a hash is named by its low bits. */
  lemma SlotBits(h: nat, k: nat)
    requires h < Pow2(64) && k <= 64
    ensures Slot(h, Pow2(k)) == Val(HashWord(h)[..k])
  {
    BitsValue(h, 64);
    ValPrefix(HashWord(h), k);
  }

  function Smaller<K, V>(s: State<K, V>): Table<K, V> {
    if Rehashing(s) && |s.ht0.buckets| > |s.ht1.buckets| then s.ht1 else s.ht0
  }

  function Larger<K, V>(s: State<K, V>): Table<K, V> {
    if Rehashing(s) && |s.ht0.buckets| > |s.ht1.buckets| then s.ht0 else s.ht1
  }

  function SmallBits<K, V>(s: State<K, V>): nat {
    Log(|Smaller(s).buckets|)
  }

  function LargeBits<K, V>(s: State<K, V>): nat {
    if Rehashing(s) then Log(|Larger(s).buckets|) else SmallBits(s)
  }

  /** Table sizes as the source keeps them: a power of two that fits an unsigned long. */
  ghost predicate MaskedTable<K, V>(t: Table<K, V>, k: nat) {
    k <= 64 && |t.buckets| == Pow2(k)
  }

  ghost predicate HashFits<K(!new)>(hash: K -> nat) {
    forall k :: hash(k) < Pow2(64)
  }

  ghost predicate Scannable<K(!new), V>(hash: K -> nat, s: State<K, V>) {
    && Valid(hash, s) && HashFits(hash)
    && (Size(s) > 0 ==> MaskedTable(Smaller(s), SmallBits(s)) && SmallBits(s) <= LargeBits(s) <= 64)
    && (Size(s) > 0 && Rehashing(s) ==> MaskedTable(Larger(s), LargeBits(s)))
  }

  lemma ExpansionAdvances(v: Word, k0: nat, k1: nat)
    requires k0 <= k1 <= 64
    ensures NextExpansion(v, k0)[..k0] == v[..k0]
    ensures var e := Val(v[k0..k1]);
      Val(NextExpansion(v, k0)[k0..k1]) == if e + 1 == Pow2(k1 - k0) then 0 else e + 1
    ensures Val(v[k0..k1]) < Pow2(k1 - k0)
    ensures NextExpansion(v, k0)[k0..k1] == Zeros(k1 - k0) <==> Val(NextExpansion(v, k0)[k0..k1]) == 0
  {
    var w := NextExpansion(v, k0);
    ExpansionSlices(v, k0, k1);
    var e := v[k0..k1];
    hide *;
    IncrementValue(e);
    ValBound(e);
    ZerosValue(k1 - k0);
    if Val(w[k0..k1]) == 0 { ValInjective(w[k0..k1], Zeros(k1 - k0)); }
  }

  lemma ExpansionSlices(v: Word, k0: nat, k1: nat)
    requires k0 <= k1 <= 64
    ensures NextExpansion(v, k0)[..k0] == v[..k0]
    ensures NextExpansion(v, k0)[k0..k1] == Increment(v[k0..k1])
  {
    var w := NextExpansion(v, k0);
    NextExpansionBits(v, k0);
    IncrementPrefix(v[k0..], k1 - k0);
    assert v[k0..][..k1 - k0] == v[k0..k1];
    assert w[k0..k1] == Increment(v[k0..])[..k1 - k0];
  }

  /** The entries the expansion loop emits from the larger table. */
  function ExpansionEntries<K, V>(buckets: seq<seq<Entry<K, V>>>, v: Word, k0: nat, k1: nat): (r: seq<Entry<K, V>>)
    requires k0 <= k1 <= 64 && |buckets| == Pow2(k1)
    decreases Pow2(k1 - k0) - Val(v[k0..k1])
  {
    ValBound(v[..k1]);
    ExpansionAdvances(v, k0, k1);
    var w := NextExpansion(v, k0);
    buckets[Val(v[..k1])] + if w[k0..k1] == Zeros(k1 - k0) then [] else ExpansionEntries(buckets, w, k0, k1)
  }

  lemma SplitBits(v: Word, h: Word, k0: nat, k1: nat)
    requires k0 <= k1 <= 64 && v[..k0] == h[..k0] && Val(v[k0..k1]) == Val(h[k0..k1])
    ensures v[..k1] == h[..k1]
  {
    ValInjective(v[k0..k1], h[k0..k1]);
    assert v[..k1] == v[..k0] + v[k0..k1] && h[..k1] == h[..k0] + h[k0..k1];
  }

  /** Every bucket counted from the cursor on is emitted in full. */
  lemma {:induction false} ExpansionEmits<K, V>(buckets: seq<seq<Entry<K, V>>>, v: Word, k0: nat, k1: nat, h: Word,
                                                e: Entry<K, V>)
    requires k0 <= k1 <= 64 && |buckets| == Pow2(k1)
    requires h[..k0] == v[..k0] && Val(h[k0..k1]) >= Val(v[k0..k1])
    requires Val(h[..k1]) < |buckets| && e in buckets[Val(h[..k1])]
    ensures e in ExpansionEntries(buckets, v, k0, k1)
    decreases Pow2(k1 - k0) - Val(v[k0..k1])
  {
    ExpansionAdvances(v, k0, k1);
    hide NextExpansion, Val, Pow2;
    if Val(h[k0..k1]) == Val(v[k0..k1]) {
      SplitBits(v, h, k0, k1);
    } else {
      ValBound(h[k0..k1]);
      ExpansionEmits(buckets, NextExpansion(v, k0), k0, k1, h, e);
    }
  }

  /** Nothing else is emitted by the loop. */
  lemma {:induction false} ExpansionOnly<K, V>(buckets: seq<seq<Entry<K, V>>>, v: Word, k0: nat, k1: nat,
                                               e: Entry<K, V>) returns (h: Word)
    requires k0 <= k1 <= 64 && |buckets| == Pow2(k1) && e in ExpansionEntries(buckets, v, k0, k1)
    ensures h[..k0] == v[..k0] && Val(h[k0..k1]) >= Val(v[k0..k1])
    ensures Val(h[..k1]) < |buckets| && e in buckets[Val(h[..k1])]
    decreases Pow2(k1 - k0) - Val(v[k0..k1])
  {
    ExpansionAdvances(v, k0, k1);
    ValBound(v[..k1]);
    hide NextExpansion, Val, Pow2;
    if e in buckets[Val(v[..k1])] {
      h := v;
    } else {
      h := ExpansionOnly(buckets, NextExpansion(v, k0), k0, k1, e);
    }
  }

  /** The entries one call emits. */
  function Emitted<K(!new), V>(hash: K -> nat, s: State<K, V>, v: Word): (r: seq<Entry<K, V>>)
    requires Scannable(hash, s)
  {
    if Size(s) == 0 then [] else
    BucketInRange(v, Smaller(s), SmallBits(s));
    Smaller(s).buckets[Val(v[..SmallBits(s)])]
    + if Rehashing(s) then ExpansionEntries(Larger(s).buckets, v, SmallBits(s), LargeBits(s)) else []
  }

  lemma BucketInRange<K, V>(v: Word, t: Table<K, V>, k: nat)
    requires MaskedTable(t, k)
    ensures Val(v[..k]) < |t.buckets|
  {
    ValBound(v[..k]);
  }

  /** The cursor one call returns. */
  function Cursor<K, V>(s: State<K, V>, v: Word): Word {
    if Size(s) == 0 then Zeros(64) else NextCursor(v, SmallBits(s))
  }

  method EmitChain<K, V>(chain: seq<Entry<K, V>>, emitted0: seq<Entry<K, V>>) returns (emitted: seq<Entry<K, V>>)
    ensures emitted == emitted0 + chain
  {
    emitted := emitted0;
    var de := chain;
    assert emitted0 + chain == emitted + de;
    while de != []
      invariant emitted + de == emitted0 + chain
      decreases |de|
    {
      emitted := emitted + [de[0]];
      de := de[1..];
    }
  }

  /** One turn of the expansion loop in machine operations. */
  lemma ExpansionStep<K, V>(buckets: seq<seq<Entry<K, V>>>, v: Word, k0: nat, k1: nat)
    requires k0 <= k1 <= 64 && |buckets| == Pow2(k1)
    ensures Val(And(v, Mask(k1))) < |buckets|
    ensures var w := NextExpansion(v, k0);
      var more := And(w, Xor(Mask(k0), Mask(k1))) != Zeros(64);
      && w[..k0] == v[..k0] && (more ==> Val(v[k0..k1]) < Val(w[k0..k1]) < Pow2(k1 - k0))
      && ExpansionEntries(buckets, v, k0, k1)
         == buckets[Val(And(v, Mask(k1)))] + (if more then ExpansionEntries(buckets, w, k0, k1) else [])
  {
    hide Pow2, Val, NextExpansion, And, Xor, Mask;
    AndMaskIsMod(v, k1);
    ValBound(v[..k1]);
    ExpansionAdvances(v, k0, k1);
    MaskedBitsZero(NextExpansion(v, k0), k0, k1);
  }

  /** The do-while loop over the larger table. */
  method ScanExpansions<K, V>(t1: array<seq<Entry<K, V>>>, v0: Word, k0: nat, k1: nat, emitted0: seq<Entry<K, V>>)
    returns (emitted: seq<Entry<K, V>>, v: Word)
    requires k0 <= k1 <= 64 && t1.Length == Pow2(k1)
    ensures emitted == emitted0 + ExpansionEntries(t1[..], v0, k0, k1)
    ensures v[..k0] == v0[..k0]
  {
    hide *;
    var m0, m1 := Mask(k0), Mask(k1);
    emitted, v := emitted0, v0;
    ghost var goal := emitted0 + ExpansionEntries(t1[..], v0, k0, k1);
    var again := true;
    while again
      invariant v[..k0] == v0[..k0]
      invariant if again then emitted + ExpansionEntries(t1[..], v, k0, k1) == goal else emitted == goal
      decreases again, Pow2(k1 - k0) - Val(v[k0..k1])
    {
      ExpansionStep(t1[..], v, k0, k1);
      ghost var before := emitted;
      emitted := EmitChain(t1[Val(And(v, m1))], emitted);
      v := NextExpansion(v, k0);
      again := And(v, Xor(m0, m1)) != Zeros(64);
    }
  }

  lemma MaskedBitsZero(v: Word, k0: nat, k1: nat)
    requires k0 <= k1 <= 64
    ensures And(v, Xor(Mask(k0), Mask(k1))) == Zeros(64) <==> v[k0..k1] == Zeros(k1 - k0)
  {
    var w := And(v, Xor(Mask(k0), Mask(k1)));
    if w == Zeros(64) {
      forall i | k0 <= i < k1 ensures !v[i] { assert !w[i]; }
    }
    if v[k0..k1] == Zeros(k1 - k0) {
      forall i | 0 <= i < 64 ensures !w[i] {
        if k0 <= i < k1 { assert !v[k0..k1][i - k0]; }
      }
    }
  }

  /** Sets the unmasked bits and increments the reversed cursor. */
  method AdvanceCursor(v0: Word, k: nat) returns (v: Word)
    requires k <= 64
    ensures v == NextCursor(v0, k)
  {
    v := Or(v0, Not(Mask(k)));
    v := Rev(v);
    v := Increment(v);
    v := Rev(v);
  }

  lemma SameCursor(v: Word, w: Word, k: nat)
    requires k <= 64 && v[..k] == w[..k]
    ensures NextCursor(v, k) == NextCursor(w, k)
  {
    NextCursorBits(v, k);
    NextCursorBits(w, k);
  }

  /** dictScan */
  method Scan<K(!new,==), V>(d: Dict.Dict<K, V>, v0: Word) returns (emitted: seq<Entry<K, V>>, v: Word)
    requires d.Ok() && Scannable(d.hash, d.St())
    ensures emitted == Emitted(d.hash, d.St(), v0) && v == Cursor(d.St(), v0)
  {
    hide Valid, Log, Val, Pow2, And, Mask, NextCursor, ExpansionEntries;
    if d.used0 + d.used1 == 0 { return [], Zeros(64); }
    v := v0;
    var t0, t1 := d.table0, d.table1;
    if d.rehashidx != -1 && t0.Length > t1.Length { t0, t1 := t1, t0; }
    var k0 := Log(t0.Length);
    AndMaskIsMod(v, k0);
    BucketInRange(v, Smaller(d.St()), k0);
    emitted := EmitChain(t0[Val(And(v, Mask(k0)))], []);
    if d.rehashidx != -1 {
      emitted, v := ScanExpansions(t1, v, k0, Log(t1.Length), emitted);
    }
    SameCursor(v, v0, k0);
    v := AdvanceCursor(v, k0);
  }
}
