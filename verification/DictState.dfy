/** The dictionary of dict.c as a value: two chained hash tables, the second alive only while keys
    are being moved to it one bucket at a time. `Lookup` is the finite map a state stands for. */
module DictState {
  import opened Basics
  import opened Words

  datatype Entry<+K, +V> = Entry(key: K, val: V)

  /** dictht; the size is the number of buckets, sizemask is size - 1. */
  datatype Table<+K, +V> = Table(buckets: seq<seq<Entry<K, V>>>, used: nat)

  datatype State<+K, +V> = State(ht0: Table<K, V>, ht1: Table<K, V>, rehashidx: int, iterators: int)

  const INITIAL_SIZE: nat := 4
  const FORCE_RESIZE_RATIO: nat := 5

  function EmptyTable<K, V>(): Table<K, V> {
    Table([], 0)
  }

  predicate Rehashing<K, V>(s: State<K, V>) {
    s.rehashidx != -1
  }

  // ---------------------------------------------------------------- chains

  function FindIn<K(==), V>(chain: seq<Entry<K, V>>, k: K): (r: Option<V>) {
    if chain == [] then None
    else if chain[0].key == k then Some(chain[0].val)
    else FindIn(chain[1..], k)
  }

  /** Unlinks the first entry with key k. */
  function Unlink<K(==), V>(chain: seq<Entry<K, V>>, k: K): (r: seq<Entry<K, V>>) {
    if chain == [] then []
    else if chain[0].key == k then chain[1..]
    else [chain[0]] + Unlink(chain[1..], k)
  }

  function SetIn<K(==), V>(chain: seq<Entry<K, V>>, k: K, v: V): (r: seq<Entry<K, V>>) {
    if chain == [] then []
    else if chain[0].key == k then [Entry(k, v)] + chain[1..]
    else [chain[0]] + SetIn(chain[1..], k, v)
  }

  ghost predicate Distinct<K, V>(chain: seq<Entry<K, V>>) {
    forall i, j :: 0 <= i < j < |chain| ==> chain[i].key != chain[j].key
  }

  ghost predicate HasKey<K, V>(chain: seq<Entry<K, V>>, k: K) {
    exists i :: 0 <= i < |chain| && chain[i].key == k
  }

  lemma {:induction false} FindInHasKey<K, V>(chain: seq<Entry<K, V>>, k: K)
    ensures FindIn(chain, k).Some? <==> HasKey(chain, k)
  {
    if chain != [] {
      FindInHasKey(chain[1..], k);
      if HasKey(chain[1..], k) {
        var i :| 0 <= i < |chain[1..]| && chain[1..][i].key == k;
        assert chain[i + 1].key == k;
      }
    }
  }

  lemma {:induction false} FindInAt<K, V>(chain: seq<Entry<K, V>>, i: nat)
    requires Distinct(chain) && i < |chain|
    ensures FindIn(chain, chain[i].key) == Some(chain[i].val)
  {
    if i > 0 { FindInAt(chain[1..], i - 1); }
  }

  lemma {:induction false} UnlinkEffect<K, V>(chain: seq<Entry<K, V>>, k: K)
    requires Distinct(chain)
    ensures var r := Unlink(chain, k);
      && Distinct(r) && |r| == |chain| - (if HasKey(chain, k) then 1 else 0)
      && (forall e :: e in r ==> e in chain)
      && forall k' :: FindIn(r, k') == if k' == k then None else FindIn(chain, k')
  {
    if chain != [] {
      var rest := chain[1..];
      UnlinkEffect(rest, k);
      forall e | e in Unlink(rest, k) ensures e.key != chain[0].key {
        var j :| 0 <= j < |rest| && rest[j] == e;
        assert chain[j + 1] == e;
      }
      FindInHasKey(chain, k);
      FindInHasKey(rest, k);
    }
  }

  lemma {:induction false} SetInEffect<K, V>(chain: seq<Entry<K, V>>, k: K, v: V)
    requires Distinct(chain)
    ensures var r := SetIn(chain, k, v);
      && Distinct(r) && |r| == |chain|
      && (forall i :: 0 <= i < |r| ==> r[i].key == chain[i].key)
      && forall k' :: FindIn(r, k') == if k' == k && FindIn(chain, k).Some? then Some(v) else FindIn(chain, k')
  {
    if chain != [] {
      SetInEffect(chain[1..], k, v);
      assert SetIn(chain, k, v)[1..] == if chain[0].key == k then chain[1..] else SetIn(chain[1..], k, v);
    }
  }

  // ---------------------------------------------------------------- tables

  function Total<K, V>(buckets: seq<seq<Entry<K, V>>>): (n: nat) {
    if buckets == [] then 0 else |buckets[0]| + Total(buckets[1..])
  }

  lemma {:induction false} TotalUpdate<K, V>(buckets: seq<seq<Entry<K, V>>>, b: nat, chain: seq<Entry<K, V>>)
    requires b < |buckets|
    ensures Total(buckets[b := chain]) == Total(buckets) - |buckets[b]| + |chain|
  {
    if b == 0 {
      assert buckets[b := chain][1..] == buckets[1..];
    } else {
      assert buckets[b := chain][1..] == buckets[1..][b - 1 := chain];
      TotalUpdate(buckets[1..], b - 1, chain);
    }
  }

  lemma {:induction false} TotalZero<K, V>(buckets: seq<seq<Entry<K, V>>>)
    ensures Total(buckets) == 0 <==> forall b :: 0 <= b < |buckets| ==> buckets[b] == []
  {
    if buckets != [] {
      TotalZero(buckets[1..]);
      if Total(buckets) == 0 {
        forall b | 0 <= b < |buckets| ensures buckets[b] == [] { if b > 0 { assert buckets[1..][b - 1] == []; } }
      }
    }
  }

  /** `hash & sizemask`: the size is a power of two, see Words.AndMaskIsMod. */
  function Slot(h: nat, size: nat): (i: nat)
    requires size > 0
    ensures i < size
  {
    h % size
  }

  function Index<K, V>(hash: K -> nat, k: K, t: Table<K, V>): (i: nat)
    requires |t.buckets| > 0
    ensures i < |t.buckets|
  {
    Slot(hash(k), |t.buckets|)
  }

  function Chain<K, V>(hash: K -> nat, k: K, t: Table<K, V>): seq<Entry<K, V>> {
    if |t.buckets| == 0 then [] else t.buckets[Index(hash, k, t)]
  }

  function FindInTable<K(==), V>(hash: K -> nat, k: K, t: Table<K, V>): Option<V> {
    FindIn(Chain(hash, k, t), k)
  }

  ghost predicate PowerOfTwo(n: nat) {
    exists k :: n == Pow2(k)
  }

  /** A chain that may stand in bucket b of a table of `size` buckets. */
  ghost predicate ValidChain<K, V>(hash: K -> nat, chain: seq<Entry<K, V>>, b: nat, size: nat)
    requires size > 0
  {
    Distinct(chain) && forall i :: 0 <= i < |chain| ==> Slot(hash(chain[i].key), size) == b
  }

  ghost predicate ValidTable<K, V>(hash: K -> nat, t: Table<K, V>) {
    t.used == Total(t.buckets) && forall b :: 0 <= b < |t.buckets| ==> ValidChain(hash, t.buckets[b], b, |t.buckets|)
  }

  ghost predicate Disjoint<K(!new), V>(hash: K -> nat, t0: Table<K, V>, t1: Table<K, V>) {
    forall k :: FindInTable(hash, k, t0).None? || FindInTable(hash, k, t1).None?
  }

  /** The states the operations keep to. */
  ghost predicate Valid<K(!new), V>(hash: K -> nat, s: State<K, V>) {
    && s.iterators >= 0
    && ValidTable(hash, s.ht0) && ValidTable(hash, s.ht1)
    && (|s.ht0.buckets| == 0 || PowerOfTwo(|s.ht0.buckets|))
    && if !Rehashing(s) then s.ht1 == EmptyTable()
       else
         && |s.ht0.buckets| > 0 && |s.ht1.buckets| > 0 && PowerOfTwo(|s.ht1.buckets|)
         && 0 <= s.rehashidx <= |s.ht0.buckets|
         && (forall b :: 0 <= b < s.rehashidx ==> s.ht0.buckets[b] == [])
         && Disjoint(hash, s.ht0, s.ht1)
  }

  /** The finite map a state stands for. */
  function Lookup<K(==), V>(hash: K -> nat, s: State<K, V>, k: K): Option<V> {
    LookupIn(hash, s.ht0, s.ht1, k)
  }

  function LookupIn<K(==), V>(hash: K -> nat, t0: Table<K, V>, t1: Table<K, V>, k: K): Option<V> {
    var first := FindInTable(hash, k, t0);
    if first.Some? then first else FindInTable(hash, k, t1)
  }

  /** Replacing one chain of a table by another that belongs in that bucket. */
  lemma PutChain<K, V>(hash: K -> nat, t: Table<K, V>, b: nat, chain: seq<Entry<K, V>>, used: nat)
    requires ValidTable(hash, t) && b < |t.buckets| && ValidChain(hash, chain, b, |t.buckets|)
    requires used == t.used - |t.buckets[b]| + |chain|
    ensures ValidTable(hash, Table(t.buckets[b := chain], used))
    ensures forall k :: FindInTable(hash, k, Table(t.buckets[b := chain], used))
                     == if Index(hash, k, t) == b then FindIn(chain, k) else FindInTable(hash, k, t)
  {
    hide Slot, ValidChain, Total, FindIn;
    TotalUpdate(t.buckets, b, chain);
  }

  function PutFirst<K, V>(hash: K -> nat, t: Table<K, V>, e: Entry<K, V>): (r: Table<K, V>)
    requires |t.buckets| > 0
    ensures |r.buckets| == |t.buckets| && r.used == t.used + 1
  {
    var b := Index(hash, e.key, t);
    Table(t.buckets[b := [e] + t.buckets[b]], t.used + 1)
  }

  lemma PutFirstEffect<K, V>(hash: K -> nat, t: Table<K, V>, e: Entry<K, V>)
    requires |t.buckets| > 0 && ValidTable(hash, t) && FindInTable(hash, e.key, t).None?
    ensures var t' := PutFirst(hash, t, e);
      && ValidTable(hash, t')
      && forall k :: FindInTable(hash, k, t') == if k == e.key then Some(e.val) else FindInTable(hash, k, t)
  {
    hide Slot, Total;
    var b := Index(hash, e.key, t);
    var chain := [e] + t.buckets[b];
    FindInHasKey(t.buckets[b], e.key);
    assert ValidChain(hash, t.buckets[b], b, |t.buckets|);
    assert ValidChain(hash, chain, b, |t.buckets|);
    hide ValidChain;
    PutChain(hash, t, b, chain, t.used + 1);
    assert chain[1..] == t.buckets[b];
  }

  // ---------------------------------------------------------------- sizes

  /** The smallest power of two, from the initial size up, that is at least `size`. */
  function NextPower(size: nat, i: nat := INITIAL_SIZE): (r: nat)
    requires i > 0
    ensures r >= size && r >= i
    ensures r > i ==> r < 2 * size
    decreases if size > i then size - i else 0
  {
    if i >= size then i else NextPower(size, 2 * i)
  }

  lemma {:induction false} NextPowerIsPower(size: nat, i: nat, k: nat)
    requires i == Pow2(k)
    ensures PowerOfTwo(NextPower(size, i))
    decreases if size > i then size - i else 0
  {
    if i < size {
      assert 2 * i == Pow2(k + 1);
      NextPowerIsPower(size, 2 * i, k + 1);
    }
  }

  function FreshTable<K, V>(size: nat): (t: Table<K, V>)
    ensures |t.buckets| == size && t.used == 0
  {
    Table(seq(size, _ => []), 0)
  }

  lemma {:induction false} FreshTableEmpty<K, V>(hash: K -> nat, size: nat)
    ensures var t: Table<K, V> := FreshTable(size);
      ValidTable(hash, t) && forall k :: FindInTable(hash, k, t).None?
  {
    var t: Table<K, V> := FreshTable(size);
    TotalZero(t.buckets);
  }

  /** dictExpand; the flag is DICT_OK. */
  function Expand<K, V>(s: State<K, V>, size: nat): (r: (State<K, V>, bool)) {
    if Rehashing(s) || s.ht0.used > size then (s, false)
    else
      var n := FreshTable<K, V>(NextPower(size));
      if |s.ht0.buckets| == 0 then (s.(ht0 := n), true)
      else (s.(ht1 := n, rehashidx := 0), true)
  }

  lemma ExpandEffect<K(!new), V>(hash: K -> nat, s: State<K, V>, size: nat)
    requires Valid(hash, s)
    ensures var (s', ok) := Expand(s, size);
      && Valid(hash, s') && (forall k :: Lookup(hash, s', k) == Lookup(hash, s, k))
      && ok == (!Rehashing(s) && s.ht0.used <= size)
      && |s'.ht0.buckets| >= |s.ht0.buckets| && (ok ==> |s'.ht0.buckets| > 0)
      && s'.iterators == s.iterators && Size(s') == Size(s)
  {
    var size' := NextPower(size);
    assert Pow2(2) == INITIAL_SIZE;
    NextPowerIsPower(size, INITIAL_SIZE, 2);
    FreshTableEmpty<K, V>(hash, size');
    TotalZero(s.ht0.buckets);
  }

  /** _dictExpandIfNeeded; `canResize` is the global dict_can_resize. */
  function ExpandIfNeeded<K, V>(s: State<K, V>, canResize: bool): (r: (State<K, V>, bool)) {
    if Rehashing(s) then (s, true)
    else if |s.ht0.buckets| == 0 then Expand(s, INITIAL_SIZE)
    else if s.ht0.used >= |s.ht0.buckets|
         && (canResize || s.ht0.used / |s.ht0.buckets| > FORCE_RESIZE_RATIO) then Expand(s, s.ht0.used * 2)
    else (s, true)
  }

  /** An unsigned long assigned to an int. */
  function AsInt(n: nat): int {
    var m := n % 0x1_0000_0000;
    if m < 0x8000_0000 then m else m - 0x1_0000_0000
  }

  /** dictResize */
  function Resize<K, V>(s: State<K, V>, canResize: bool): (r: (State<K, V>, bool)) {
    if !canResize || Rehashing(s) then (s, false)
    else
      var minimal := AsInt(s.ht0.used);
      Expand(s, if minimal < INITIAL_SIZE then INITIAL_SIZE else minimal)
  }

  /** Shrinking keeps the map. It starts exactly when resizing is allowed, no rehash runs and the number of elements
      fits an int. */
  lemma ResizeEffect<K(!new), V>(hash: K -> nat, s: State<K, V>, canResize: bool)
    requires Valid(hash, s)
    ensures var (s', ok) := Resize(s, canResize);
      && Valid(hash, s') && (forall k :: Lookup(hash, s', k) == Lookup(hash, s, k))
      && ok == (canResize && !Rehashing(s) && s.ht0.used < 0x8000_0000)
      && s'.iterators == s.iterators && Size(s') == Size(s)
  {
    var minimal := AsInt(s.ht0.used);
    ExpandEffect(hash, s, if minimal < INITIAL_SIZE then INITIAL_SIZE else minimal);
    hide Valid, Lookup, Expand;
  }

  /** Buckets with one entry each, numbered from `first`. */
  function FullBuckets(n: nat, first: nat): (r: seq<seq<Entry<nat, bool>>>)
    ensures |r| == n && forall b :: 0 <= b < n ==> r[b] == [Entry(first + b, true)]
  {
    seq(n, b => [Entry(first + b, true)])
  }

  function FullTable(n: nat): Table<nat, bool> {
    Table(FullBuckets(n, 0), n)
  }

  lemma {:induction false} FullTotal(n: nat, first: nat)
    ensures Total(FullBuckets(n, first)) == n
  {
    if n > 0 {
      assert FullBuckets(n, first)[1..] == FullBuckets(n - 1, first + 1);
      FullTotal(n - 1, first + 1);
    }
  }

  function Itself(k: nat): nat {
    k
  }

  /** A full dictionary of any number of buckets is a valid state. */
  lemma FullIsValid(n: nat)
    requires PowerOfTwo(n)
    ensures Valid(Itself, State(FullTable(n), EmptyTable(), -1, 0))
  {
    var t := FullTable(n);
    FullTotal(n, 0);
    assert ValidTable(Itself, EmptyTable<nat, bool>());
    hide Total;
    forall b | 0 <= b < n ensures ValidChain(Itself, t.buckets[b], b, n) { SlotOfSmall(b, n); }
    assert ValidTable(Itself, t);
  }

  lemma SlotOfSmall(h: nat, size: nat)
    requires h < size
    ensures Slot(h, size) == h
  {}

  /** With 2^31 elements shrinking is refused although it is allowed and no rehash runs. */
  lemma LargeIsNotShrunk()
    ensures var s := State(FullTable(0x8000_0000), EmptyTable(), -1, 0);
      Valid(Itself, s) && s.ht0.used == 0x8000_0000 && !Rehashing(s) && !Resize(s, true).1
  {
    LargePower();
    FullIsValid(0x8000_0000);
    ResizeEffect(Itself, State(FullTable(0x8000_0000), EmptyTable(), -1, 0), true);
    hide Valid, Resize, PowerOfTwo;
  }

  lemma LargePower()
    ensures PowerOfTwo(0x8000_0000)
  {
    assert Pow2(15) == 0x8000 && Pow2(16) == 0x1_0000;
    PowAdd(15, 16);
    hide Pow2;
    assert Pow2(31) == 0x8000_0000;
  }

  /** The expansion attempted by an insertion always succeeds and leaves a table to insert into. */
  lemma ExpandIfNeededEffect<K(!new), V>(hash: K -> nat, s: State<K, V>, canResize: bool)
    requires Valid(hash, s)
    ensures var (s', ok) := ExpandIfNeeded(s, canResize);
      && ok && Valid(hash, s') && |s'.ht0.buckets| > 0 && s'.iterators == s.iterators && Size(s') == Size(s)
      && forall k :: Lookup(hash, s', k) == Lookup(hash, s, k)
  {
    ExpandEffect(hash, s, INITIAL_SIZE);
    ExpandEffect(hash, s, s.ht0.used * 2);
    TotalZero(s.ht0.buckets);
  }

  // ---------------------------------------------------------------- incremental rehashing

  /** Moves the entries of a chain one by one to the heads of their new chains. */
  function MoveChain<K, V>(hash: K -> nat, chain: seq<Entry<K, V>>, t: Table<K, V>): (r: Table<K, V>)
    requires |t.buckets| > 0
    ensures |r.buckets| == |t.buckets|
    decreases |chain|
  {
    if chain == [] then t else MoveChain(hash, chain[1..], PutFirst(hash, t, chain[0]))
  }

  lemma {:induction false} MoveChainEffect<K(!new), V>(hash: K -> nat, chain: seq<Entry<K, V>>, t: Table<K, V>)
    requires |t.buckets| > 0 && ValidTable(hash, t) && Distinct(chain)
    requires forall k :: FindIn(chain, k).None? || FindInTable(hash, k, t).None?
    ensures var r := MoveChain(hash, chain, t);
      && ValidTable(hash, r) && r.used == t.used + |chain|
      && forall k :: FindInTable(hash, k, r) == if FindIn(chain, k).Some? then FindIn(chain, k)
        else FindInTable(hash, k, t)
    decreases |chain|
  {
    if chain != [] {
      hide Slot, Index, ValidTable, PutFirst, FindInTable;
      var e, rest := chain[0], chain[1..];
      assert FindIn(chain, e.key).Some?;
      PutFirstEffect(hash, t, e);
      FindInHasKey(rest, e.key);
      MoveChainEffect(hash, rest, PutFirst(hash, t, e));
    }
  }

  function FirstNonEmpty<K, V>(buckets: seq<seq<Entry<K, V>>>, i: nat): (r: nat)
    requires i <= |buckets|
    ensures i <= r <= |buckets| && (forall b :: i <= b < r ==> buckets[b] == [])
    ensures r < |buckets| ==> buckets[r] != []
    decreases |buckets| - i
  {
    if i < |buckets| && buckets[i] == [] then FirstNonEmpty(buckets, i + 1) else i
  }

  /** One turn of dictRehash: swap the tables when the old one is empty, otherwise move one bucket. */
  function RehashOne<K, V>(hash: K -> nat, s: State<K, V>): (r: State<K, V>)
    requires Rehashing(s) && |s.ht1.buckets| > 0 && 0 <= s.rehashidx <= |s.ht0.buckets|
  {
    var b := FirstNonEmpty(s.ht0.buckets, s.rehashidx);
    if s.ht0.used == 0 || b == |s.ht0.buckets| then State(s.ht1, EmptyTable(), -1, s.iterators)
    else
      var chain := s.ht0.buckets[b];
      s.(ht0 := Table(s.ht0.buckets[b := []], if s.ht0.used >= |chain| then s.ht0.used - |chain| else 0),
         ht1 := MoveChain(hash, chain, s.ht1), rehashidx := b + 1)
  }

  /** There is a bucket to move whenever the old table is not empty. */
  lemma SomethingToMove<K(!new), V>(hash: K -> nat, s: State<K, V>)
    requires Valid(hash, s) && Rehashing(s) && s.ht0.used > 0
    ensures var b := FirstNonEmpty(s.ht0.buckets, s.rehashidx);
      b < |s.ht0.buckets| && 0 < |s.ht0.buckets[b]| <= s.ht0.used
  {
    var b := FirstNonEmpty(s.ht0.buckets, s.rehashidx);
    TotalZero(s.ht0.buckets);
    if b < |s.ht0.buckets| {
      TotalUpdate(s.ht0.buckets, b, []);
    }
  }

  /** Moving bucket b of one table to the other. */
  lemma MoveBucketEffect<K(!new), V>(hash: K -> nat, t0: Table<K, V>, t1: Table<K, V>, b: nat)
    requires ValidTable(hash, t0) && ValidTable(hash, t1) && Disjoint(hash, t0, t1)
    requires b < |t0.buckets| && |t1.buckets| > 0 && |t0.buckets[b]| <= t0.used
    ensures var t0', t1' := Table(t0.buckets[b := []], t0.used - |t0.buckets[b]|), MoveChain(hash, t0.buckets[b], t1);
      && ValidTable(hash, t0') && ValidTable(hash, t1') && Disjoint(hash, t0', t1')
      && t1'.used == t1.used + |t0.buckets[b]|
      && forall k :: LookupIn(hash, t0', t1', k) == LookupIn(hash, t0, t1, k)
  {
    var chain := t0.buckets[b];
    ChainKeys(hash, t0, b);
    assert ValidChain(hash, chain, b, |t0.buckets|);
    assert ValidChain<K, V>(hash, [], b, |t0.buckets|);
    assert forall k :: FindIn<K, V>([], k).None?;
    hide Slot, Index, Chain, ValidTable, MoveChain, FindInTable, FindIn, ValidChain, Total, LookupIn;
    ValidChainDistinct(hash, chain, b, |t0.buckets|);
    MoveChainEffect(hash, chain, t1);
    PutChain(hash, t0, b, [], t0.used - |chain|);
    ChainMoved(hash, t0, t1, Table(t0.buckets[b := []], t0.used - |chain|), MoveChain(hash, chain, t1), chain, b);
  }

  /** Lookups when a chain has left one table for the other. */
  lemma ChainMoved<K(!new), V>(hash: K -> nat, t0: Table<K, V>, t1: Table<K, V>, t0': Table<K, V>, t1': Table<K, V>,
                               chain: seq<Entry<K, V>>, b: nat)
    requires |t0.buckets| > 0 && Disjoint(hash, t0, t1)
    requires forall k :: Index(hash, k, t0) == b ==> FindInTable(hash, k, t0) == FindIn(chain, k)
    requires forall k :: FindIn(chain, k).Some? ==> Index(hash, k, t0) == b
    requires forall k :: FindInTable(hash, k, t0') == if Index(hash, k, t0) == b then None else FindInTable(hash, k, t0)
    requires forall k :: FindInTable(hash, k, t1') == if FindIn(chain, k).Some? then FindIn(chain, k)
      else FindInTable(hash, k, t1)
    ensures Disjoint(hash, t0', t1') && forall k :: LookupIn(hash, t0', t1', k) == LookupIn(hash, t0, t1, k)
  {
    hide Index, FindInTable, FindIn;
  }

  lemma ValidChainDistinct<K, V>(hash: K -> nat, chain: seq<Entry<K, V>>, b: nat, size: nat)
    requires size > 0 && ValidChain(hash, chain, b, size)
    ensures Distinct(chain)
  {}

  /** Rehashing never changes the map, and each turn gets nearer the end. */
  lemma RehashOneEffect<K(!new), V>(hash: K -> nat, s: State<K, V>)
    requires Valid(hash, s) && Rehashing(s)
    ensures var s' := RehashOne(hash, s);
      && Valid(hash, s') && (forall k :: Lookup(hash, s', k) == Lookup(hash, s, k))
      && s'.ht0.used + s'.ht1.used == s.ht0.used + s.ht1.used && s'.iterators == s.iterators
      && Rehashing(s') == (s.ht0.used > 0) && |s'.ht0.buckets| > 0
    ensures var s' := RehashOne(hash, s);
      if Rehashing(s') then s'.rehashidx > s.rehashidx && |s'.ht0.buckets| == |s.ht0.buckets|
        && |s'.ht1.buckets| == |s.ht1.buckets|
      else s'.ht0 == s.ht1
  {
    if s.ht0.used == 0 {
      TotalZero(s.ht0.buckets);
    } else {
      SomethingToMove(hash, s);
      MoveBucketEffect(hash, s.ht0, s.ht1, FirstNonEmpty(s.ht0.buckets, s.rehashidx));
      hide FindInTable, ValidTable, MoveChain;
    }
  }

  /** A key found in bucket b of a valid table belongs there. */
  lemma ChainKeys<K(!new), V>(hash: K -> nat, t: Table<K, V>, b: nat)
    requires ValidTable(hash, t) && b < |t.buckets|
    ensures forall k :: FindIn(t.buckets[b], k).Some? ==>
      Index(hash, k, t) == b && FindInTable(hash, k, t) == FindIn(t.buckets[b], k)
    ensures forall k :: Index(hash, k, t) == b ==> FindInTable(hash, k, t) == FindIn(t.buckets[b], k)
  {
    assert ValidChain(hash, t.buckets[b], b, |t.buckets|);
    hide Slot;
    forall k | FindIn(t.buckets[b], k).Some? ensures Index(hash, k, t) == b {
      FindInHasKey(t.buckets[b], k);
    }
  }

  /** dictRehash(n); the flag says whether keys may remain to be moved. */
  function Rehash<K(!new), V>(hash: K -> nat, s: State<K, V>, n: nat): (r: (State<K, V>, bool))
    requires Valid(hash, s)
    ensures Valid(hash, r.0)
    decreases n
  {
    if !Rehashing(s) then (s, false)
    else if n == 0 then (s, true)
    else
      RehashOneEffect(hash, s);
      Rehash(hash, RehashOne(hash, s), n - 1)
  }

  lemma {:induction false} RehashEffect<K(!new), V>(hash: K -> nat, s: State<K, V>, n: nat)
    requires Valid(hash, s)
    ensures var (s', more) := Rehash(hash, s, n);
      && (forall k :: Lookup(hash, s', k) == Lookup(hash, s, k))
      && s'.ht0.used + s'.ht1.used == s.ht0.used + s.ht1.used && s'.iterators == s.iterators
      && more == Rehashing(s') && (|s.ht0.buckets| > 0 ==> |s'.ht0.buckets| > 0)
      && (n > |s.ht0.buckets| - s.rehashidx ==> !more)
    decreases n
  {
    hide Lookup, RehashOne;
    if Rehashing(s) && n > 0 {
      hide Valid;
      RehashOneEffect(hash, s);
      RehashEffect(hash, RehashOne(hash, s), n - 1);
    }
  }

  /** _dictRehashStep: frozen while iterators are bound to the dictionary. */
  function MaybeRehash<K(!new), V>(hash: K -> nat, s: State<K, V>): (r: State<K, V>)
    requires Valid(hash, s)
    ensures Valid(hash, r)
  {
    if Rehashing(s) && s.iterators == 0 then Rehash(hash, s, 1).0 else s
  }

  /** Nothing a caller can see changes. */
  ghost predicate SameMap<K(!new), V>(hash: K -> nat, s: State<K, V>, s': State<K, V>) {
    && s'.iterators == s.iterators && Size(s') == Size(s)
    && forall k :: Lookup(hash, s', k) == Lookup(hash, s, k)
  }

  /** dictSize */
  function Size<K, V>(s: State<K, V>): nat {
    s.ht0.used + s.ht1.used
  }

  lemma MaybeRehashEffect<K(!new), V>(hash: K -> nat, s: State<K, V>)
    requires Valid(hash, s)
    ensures SameMap(hash, s, MaybeRehash(hash, s))
    ensures |s.ht0.buckets| > 0 ==> |MaybeRehash(hash, s).ht0.buckets| > 0
  {
    hide Lookup, Rehash;
    RehashEffect(hash, s, 1);
  }

  // ---------------------------------------------------------------- operations

  /** dictAddRaw and the store of the value by dictAdd; the flag is false when the key already exists.
      New entries go to the table keys are moving to. */
  function AddRaw<K(!new,==), V>(hash: K -> nat, s: State<K, V>, k: K, v: V, canResize: bool): (r: (State<K, V>, bool))
    requires Valid(hash, s)
  {
    MaybeRehashEffect(hash, s);
    ExpandIfNeededEffect(hash, MaybeRehash(hash, s), canResize);
    var t := ExpandIfNeeded(MaybeRehash(hash, s), canResize).0;
    if Lookup(hash, t, k).Some? then (t, false) else (Insert(hash, t, Entry(k, v)), true)
  }

  function Insert<K(!new), V>(hash: K -> nat, t: State<K, V>, e: Entry<K, V>): (r: State<K, V>)
    requires Valid(hash, t) && |t.ht0.buckets| > 0
  {
    if Rehashing(t) then t.(ht1 := PutFirst(hash, t.ht1, e)) else t.(ht0 := PutFirst(hash, t.ht0, e))
  }

  lemma InsertEffect<K(!new), V>(hash: K -> nat, t: State<K, V>, e: Entry<K, V>)
    requires Valid(hash, t) && |t.ht0.buckets| > 0 && Lookup(hash, t, e.key).None?
    ensures var r := Insert(hash, t, e);
      && Valid(hash, r) && r.iterators == t.iterators && Size(r) == Size(t) + 1
      && forall k' :: Lookup(hash, r, k') == if k' == e.key then Some(e.val) else Lookup(hash, t, k')
  {
    hide Slot, Index, PutFirst, ValidTable, FindInTable;
    if Rehashing(t) { PutFirstEffect(hash, t.ht1, e); } else { PutFirstEffect(hash, t.ht0, e); }
  }

  /** dictAdd: adds exactly the new key, and only when it was absent. */
  lemma AddEffect<K(!new), V>(hash: K -> nat, s: State<K, V>, k: K, v: V, canResize: bool)
    requires Valid(hash, s)
    ensures var (s', added) := AddRaw(hash, s, k, v, canResize);
      && Valid(hash, s') && s'.iterators == s.iterators
      && added == Lookup(hash, s, k).None? && Size(s') == Size(s) + (if added then 1 else 0)
      && forall k' :: Lookup(hash, s', k') == if k' == k && added then Some(v) else Lookup(hash, s, k')
  {
    hide MaybeRehash, ExpandIfNeeded, Valid, Lookup, Insert, Size;
    MaybeRehashEffect(hash, s);
    var t := MaybeRehash(hash, s);
    ExpandIfNeededEffect(hash, t, canResize);
    var u := ExpandIfNeeded(t, canResize).0;
    if Lookup(hash, u, k).None? {
      InsertEffect(hash, u, Entry(k, v));
    }
  }

  /** The state dictFind leaves behind; the entry it returns is `Lookup`'s. */
  function Find<K(!new), V>(hash: K -> nat, s: State<K, V>): (r: State<K, V>)
    requires Valid(hash, s)
    ensures Valid(hash, r)
  {
    if |s.ht0.buckets| == 0 then s else MaybeRehash(hash, s)
  }

  lemma FindEffect<K(!new), V>(hash: K -> nat, s: State<K, V>)
    requires Valid(hash, s)
    ensures SameMap(hash, s, Find(hash, s))
    ensures |s.ht0.buckets| == 0 ==> forall k :: Lookup(hash, s, k) == None
  {
    MaybeRehashEffect(hash, s);
  }

  function UpdateChain<K, V>(hash: K -> nat, t: Table<K, V>, k: K, chain: seq<Entry<K, V>>): Table<K, V> {
    if |t.buckets| == 0 then t
    else
      var b := Index(hash, k, t);
      var used := t.used - |t.buckets[b]| + |chain|;
      Table(t.buckets[b := chain], if used >= 0 then used else 0)
  }

  lemma UpdateChainEffect<K(!new), V>(hash: K -> nat, t: Table<K, V>, k: K, chain: seq<Entry<K, V>>)
    requires ValidTable(hash, t) && |t.buckets| > 0 && ValidChain(hash, chain, Index(hash, k, t), |t.buckets|)
    ensures var t' := UpdateChain(hash, t, k, chain);
      && ValidTable(hash, t') && t'.used == t.used - |Chain(hash, k, t)| + |chain| && |t'.buckets| == |t.buckets|
      && forall k' :: FindInTable(hash, k', t') == if Index(hash, k', t) == Index(hash, k, t) then FindIn(chain, k')
        else FindInTable(hash, k', t)
  {
    var b := Index(hash, k, t);
    TotalUpdate(t.buckets, b, []);
    hide ValidTable, ValidChain, Slot, Total;
    ValidTotal(hash, t);
    PutChain(hash, t, b, chain, t.used - |t.buckets[b]| + |chain|);
  }

  lemma ValidTotal<K, V>(hash: K -> nat, t: Table<K, V>)
    requires ValidTable(hash, t)
    ensures t.used == Total(t.buckets)
  {}

  /** Removing a key from the table that holds it. */
  lemma UnlinkInTable<K(!new), V>(hash: K -> nat, t: Table<K, V>, k: K)
    requires ValidTable(hash, t) && FindInTable(hash, k, t).Some?
    ensures var t' := UpdateChain(hash, t, k, Unlink(Chain(hash, k, t), k));
      && ValidTable(hash, t') && t'.used == t.used - 1 && |t'.buckets| == |t.buckets|
      && forall k' :: FindInTable(hash, k', t') == if k' == k then None else FindInTable(hash, k', t)
  {
    var b := Index(hash, k, t);
    var chain := t.buckets[b];
    assert ValidChain(hash, chain, b, |t.buckets|);
    hide Slot;
    UnlinkEffect(chain, k);
    FindInHasKey(chain, k);
    assert ValidChain(hash, Unlink(chain, k), b, |t.buckets|) by {
      forall e | e in Unlink(chain, k) ensures Slot(hash(e.key), |t.buckets|) == b { assert e in chain; }
    }
    ChainKeys(hash, t, b);
    hide ValidTable, ValidChain, Unlink;
    UpdateChainEffect(hash, t, k, Unlink(chain, k));
  }

  /** Storing a new value for a key in the table that holds it. */
  lemma SetInTable<K(!new), V>(hash: K -> nat, t: Table<K, V>, k: K, v: V)
    requires ValidTable(hash, t) && FindInTable(hash, k, t).Some?
    ensures var t' := UpdateChain(hash, t, k, SetIn(Chain(hash, k, t), k, v));
      && ValidTable(hash, t') && t'.used == t.used && |t'.buckets| == |t.buckets|
      && forall k' :: FindInTable(hash, k', t') == if k' == k then Some(v) else FindInTable(hash, k', t)
  {
    var b := Index(hash, k, t);
    var chain := t.buckets[b];
    assert ValidChain(hash, chain, b, |t.buckets|);
    hide Slot;
    SetInEffect(chain, k, v);
    assert ValidChain(hash, SetIn(chain, k, v), b, |t.buckets|);
    ChainKeys(hash, t, b);
    hide ValidTable, ValidChain, SetIn;
    UpdateChainEffect(hash, t, k, SetIn(chain, k, v));
  }

  /** dictGenericDelete; the flag is DICT_OK. */
  function Delete<K(!new,==), V>(hash: K -> nat, s: State<K, V>, k: K): (r: (State<K, V>, bool))
    requires Valid(hash, s)
  {
    var t := Find(hash, s);
    if FindInTable(hash, k, t.ht0).Some? then
      (t.(ht0 := UpdateChain(hash, t.ht0, k, Unlink(Chain(hash, k, t.ht0), k))), true)
    else if FindInTable(hash, k, t.ht1).Some? then
      (t.(ht1 := UpdateChain(hash, t.ht1, k, Unlink(Chain(hash, k, t.ht1), k))), true)
    else (t, false)
  }

  /** Deletion removes exactly the given key. */
  lemma DeleteEffect<K(!new), V>(hash: K -> nat, s: State<K, V>, k: K)
    requires Valid(hash, s)
    ensures var (s', deleted) := Delete(hash, s, k);
      && Valid(hash, s') && s'.iterators == s.iterators
      && deleted == Lookup(hash, s, k).Some? && Size(s') == Size(s) - (if deleted then 1 else 0)
      && forall k' :: Lookup(hash, s', k') == if k' == k then None else Lookup(hash, s, k')
  {
    FindEffect(hash, s);
    var t := Find(hash, s);
    hide Find, Slot, Index, UpdateChain, Unlink, Chain, ValidTable, FindInTable, FindIn, Total, Valid, Lookup;
    BothTables(hash, t, k);
    if FindInTable(hash, k, t.ht0).Some? {
      UnlinkInTable(hash, t.ht0, k);
      EmptyPrefixKept(hash, t, k, Unlink(Chain(hash, k, t.ht0), k));
      KeyLeftOld(hash, t, UpdateChain(hash, t.ht0, k, Unlink(Chain(hash, k, t.ht0), k)), k);
    } else if FindInTable(hash, k, t.ht1).Some? {
      UnlinkInTable(hash, t.ht1, k);
      KeyLeftNew(hash, t, UpdateChain(hash, t.ht1, k, Unlink(Chain(hash, k, t.ht1), k)), k);
    }
  }

  lemma BothTables<K(!new), V>(hash: K -> nat, t: State<K, V>, k: K)
    requires Valid(hash, t)
    ensures ValidTable(hash, t.ht0) && ValidTable(hash, t.ht1)
    ensures Lookup(hash, t, k).Some? <==> FindInTable(hash, k, t.ht0).Some? || FindInTable(hash, k, t.ht1).Some?
  {}

  /** The state when a key has left the first table. */
  lemma KeyLeftOld<K(!new), V>(hash: K -> nat, t: State<K, V>, u: Table<K, V>, k: K)
    requires Valid(hash, t) && FindInTable(hash, k, t.ht0).Some?
    requires ValidTable(hash, u) && |u.buckets| == |t.ht0.buckets|
    requires Rehashing(t) ==> forall b :: 0 <= b < t.rehashidx ==> u.buckets[b] == []
    requires forall k' :: FindInTable(hash, k', u) == if k' == k then None else FindInTable(hash, k', t.ht0)
    ensures Valid(hash, t.(ht0 := u))
    ensures forall k' :: Lookup(hash, t.(ht0 := u), k') == if k' == k then None else Lookup(hash, t, k')
  {
    assert !Rehashing(t) ==> FindInTable(hash, k, t.ht1).None?;
    hide FindInTable, ValidTable;
  }

  /** The state when a key has left the second table. */
  lemma KeyLeftNew<K(!new), V>(hash: K -> nat, t: State<K, V>, u: Table<K, V>, k: K)
    requires Valid(hash, t) && FindInTable(hash, k, t.ht0).None? && FindInTable(hash, k, t.ht1).Some?
    requires ValidTable(hash, u) && |u.buckets| == |t.ht1.buckets|
    requires forall k' :: FindInTable(hash, k', u) == if k' == k then None else FindInTable(hash, k', t.ht1)
    ensures Valid(hash, t.(ht1 := u))
    ensures forall k' :: Lookup(hash, t.(ht1 := u), k') == if k' == k then None else Lookup(hash, t, k')
  {
    assert !Rehashing(t) ==> FindInTable(hash, k, t.ht1).None?;
    hide FindInTable, ValidTable;
  }

  /** A bucket that holds a key is not among the ones already moved. */
  lemma EmptyPrefixKept<K(!new), V>(hash: K -> nat, t: State<K, V>, k: K, chain: seq<Entry<K, V>>)
    requires Valid(hash, t) && FindInTable(hash, k, t.ht0).Some?
    ensures Rehashing(t) ==> forall b :: 0 <= b < t.rehashidx ==> UpdateChain(hash, t.ht0, k, chain).buckets[b] == []
    ensures |UpdateChain(hash, t.ht0, k, chain).buckets| == |t.ht0.buckets|
  {}

  function SetValue<K(==), V>(hash: K -> nat, t: State<K, V>, k: K, v: V): (r: State<K, V>) {
    if FindInTable(hash, k, t.ht0).Some? then t.(ht0 := UpdateChain(hash, t.ht0, k, SetIn(Chain(hash, k, t.ht0), k, v)))
    else t.(ht1 := UpdateChain(hash, t.ht1, k, SetIn(Chain(hash, k, t.ht1), k, v)))
  }

  lemma SetValueEffect<K(!new), V>(hash: K -> nat, t: State<K, V>, k: K, v: V)
    requires Valid(hash, t) && Lookup(hash, t, k).Some?
    ensures var r := SetValue(hash, t, k, v);
      && Valid(hash, r) && r.iterators == t.iterators && Size(r) == Size(t)
      && forall k' :: Lookup(hash, r, k') == if k' == k then Some(v) else Lookup(hash, t, k')
  {
    hide Slot, Index, UpdateChain, SetIn, Chain, ValidTable;
    if FindInTable(hash, k, t.ht0).Some? {
      SetInTable(hash, t.ht0, k, v);
      EmptyPrefixKept(hash, t, k, SetIn(Chain(hash, k, t.ht0), k, v));
    } else {
      SetInTable(hash, t.ht1, k, v);
    }
  }

  /** dictReplace; the flag is 1 when the key was added from scratch. */
  function Replace<K(!new,==), V>(hash: K -> nat, s: State<K, V>, k: K, v: V, canResize: bool): (r: (State<K, V>, bool))
    requires Valid(hash, s)
  {
    AddEffect(hash, s, k, v, canResize);
    var (t, added) := AddRaw(hash, s, k, v, canResize);
    if added then (t, true) else (SetValue(hash, Find(hash, t), k, v), false)
  }

  /** Replacement stores the value under the key and touches nothing else. */
  lemma ReplaceEffect<K(!new), V>(hash: K -> nat, s: State<K, V>, k: K, v: V, canResize: bool)
    requires Valid(hash, s)
    ensures var (s', added) := Replace(hash, s, k, v, canResize);
      && Valid(hash, s') && s'.iterators == s.iterators
      && added == Lookup(hash, s, k).None? && Size(s') == Size(s) + (if added then 1 else 0)
      && forall k' :: Lookup(hash, s', k') == if k' == k then Some(v) else Lookup(hash, s, k')
  {
    AddEffect(hash, s, k, v, canResize);
    var (t, added) := AddRaw(hash, s, k, v, canResize);
    hide Lookup, Valid, AddRaw, SetValue, Find, Size;
    if !added {
      FindEffect(hash, t);
      SetValueEffect(hash, Find(hash, t), k, v);
    }
  }
}
