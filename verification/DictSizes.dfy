/** When the dictionary of dict.c changes the size of its table, to what size, and that the calls which use it finish
    the move. */
module DictSizes {
  import opened Basics
  import opened Words
  import opened DictState

  /** A table that is being replaced by an empty one of `size` buckets. */
  ghost predicate MovesTo<K, V>(s: State<K, V>, s': State<K, V>, size: nat) {
    && s' == s.(ht1 := s'.ht1, rehashidx := 0)
    && |s'.ht1.buckets| == size && s'.ht1.used == 0 && forall b :: 0 <= b < size ==> s'.ht1.buckets[b] == []
  }

  lemma ExpandTarget<K, V>(s: State<K, V>, size: nat)
    requires Expand(s, size).1
    ensures var s' := Expand(s, size).0;
      && (|s.ht0.buckets| > 0 ==> MovesTo(s, s', NextPower(size)))
      && (|s.ht0.buckets| == 0 ==> !Rehashing(s') && |s'.ht0.buckets| == NextPower(size))
    ensures PowerOfTwo(NextPower(size))
    ensures NextPower(size) >= size && (NextPower(size) == 4 || NextPower(size) < 2 * size)
  {
    assert Pow2(2) == 4;
    NextPowerIsPower(size, 4, 2);
  }

  /** dictResize moves to the smallest power of two, from 4 up, that holds the elements. */
  lemma ResizeTarget<K(!new), V>(hash: K -> nat, s: State<K, V>, canResize: bool)
    requires Valid(hash, s) && |s.ht0.buckets| > 0 && Resize(s, canResize).1
    ensures var (s', n) := (Resize(s, canResize).0, |Resize(s, canResize).0.ht1.buckets|);
      && MovesTo(s, s', n) && PowerOfTwo(n) && 4 <= n && s.ht0.used <= n && (n == 4 || n < 2 * s.ht0.used)
  {
    ResizeEffect(hash, s, canResize);
    ResizeIsExpand(s, canResize);
    hide *;
    ExpandTarget(s, if s.ht0.used < 4 then 4 else s.ht0.used);
    MovesToSize(s, Resize(s, canResize).0, NextPower(if s.ht0.used < 4 then 4 else s.ht0.used));
  }

  lemma ResizeIsExpand<K, V>(s: State<K, V>, canResize: bool)
    requires s.ht0.used < 0x8000_0000 && Resize(s, canResize).1
    ensures Resize(s, canResize) == Expand(s, if s.ht0.used < 4 then 4 else s.ht0.used)
  {
    hide Expand;
  }

  lemma MovesToSize<K, V>(s: State<K, V>, s': State<K, V>, size: nat)
    requires MovesTo(s, s', size)
    ensures |s'.ht1.buckets| == size
  {}

  /** An insertion makes the table grow exactly when no rehash runs and the table does not exist, or is full and either
      resizing is allowed or there are at least six elements to a bucket; it then gets 4 buckets, or the smallest power
      of two that is at least twice the number of elements. */
  lemma InsertionGrows<K(!new), V>(hash: K -> nat, s: State<K, V>, canResize: bool)
    requires Valid(hash, s)
    ensures var (s', size, used) := (ExpandIfNeeded(s, canResize).0, |s.ht0.buckets|, s.ht0.used);
      if !Rehashing(s) && size == 0 then !Rehashing(s') && |s'.ht0.buckets| == 4
      else if !Rehashing(s) && used >= size && (canResize || used >= 6 * size) then
        var n := |s'.ht1.buckets|;
        MovesTo(s, s', n) && PowerOfTwo(n) && 2 * used <= n && (n == 4 || n < 4 * used) && n >= 2 * size
      else s' == s
  {
    var size, used := |s.ht0.buckets|, s.ht0.used;
    if !Rehashing(s) && size == 0 {
      TotalZero(s.ht0.buckets);
      ExpandTarget(s, 4);
    } else if !Rehashing(s) {
      assert used / size > 5 <==> used >= 6 * size by { Ratio(used, size); }
      if used >= size && (canResize || used >= 6 * size) {
        ExpandEffect(hash, s, 2 * used);
        ExpandTarget(s, 2 * used);
      }
    }
    hide Valid, Expand, PowerOfTwo, NextPower, MovesTo;
  }

  lemma Ratio(used: nat, size: nat)
    requires size > 0
    ensures used / size > 5 <==> used >= 6 * size
  {
    assert used == size * (used / size) + used % size;
    if used / size > 5 {
      assert size * (used / size) >= size * 6;
    } else {
      assert size * (used / size) <= size * 5;
    }
  }

  // ---------------------------------------------------------------- finishing a rehash

  /** The state after n lookups. */
  ghost function Lookups<K(!new), V>(hash: K -> nat, s: State<K, V>, n: nat): (r: State<K, V>)
    requires Valid(hash, s)
    ensures Valid(hash, r)
    decreases n
  {
    if n == 0 then s else Lookups(hash, Find(hash, s), n - 1)
  }

  lemma {:induction false} LookupsRehash<K(!new), V>(hash: K -> nat, s: State<K, V>, n: nat)
    requires Valid(hash, s) && s.iterators == 0 && |s.ht0.buckets| > 0
    ensures Lookups(hash, s, n) == Rehash(hash, s, n).0
    decreases n
  {
    if n > 0 {
      OneLookup(hash, s);
      RehashFrame(hash, s);
      hide Valid, Find, RehashOne;
      LookupsRehash(hash, Find(hash, s), n - 1);
    }
  }

  lemma OneLookup<K(!new), V>(hash: K -> nat, s: State<K, V>)
    requires Valid(hash, s) && s.iterators == 0 && |s.ht0.buckets| > 0
    ensures Find(hash, s) == if Rehashing(s) then RehashOne(hash, s) else s
  {
    if Rehashing(s) { RehashOneEffect(hash, s); }
    hide Valid, RehashOne;
  }

  lemma RehashFrame<K(!new), V>(hash: K -> nat, s: State<K, V>)
    requires Valid(hash, s) && |s.ht0.buckets| > 0
    ensures Rehashing(s) ==> RehashOne(hash, s).iterators == s.iterators && |RehashOne(hash, s).ht0.buckets| > 0
  {
    if Rehashing(s) { RehashOneEffect(hash, s); }
  }

  /** Every lookup moves a bucket, so that as many as the old table has buckets, and one, end the rehash; while an
      iterator is bound to the dictionary none moves anything. */
  lemma LookupsEndRehash<K(!new), V>(hash: K -> nat, s: State<K, V>, n: nat)
    requires Valid(hash, s)
    ensures s.iterators == 0 && n > |s.ht0.buckets| ==> !Rehashing(Lookups(hash, s, n))
    ensures s.iterators > 0 ==> Lookups(hash, s, n) == s
    decreases n
  {
    if s.iterators > 0 {
      if n > 0 { LookupsEndRehash(hash, s, n - 1); }
    } else if |s.ht0.buckets| > 0 {
      LookupsRehash(hash, s, n);
      RehashEffect(hash, s, n);
      assert Rehashing(s) ==> s.rehashidx >= 0;
    } else {
      if n > 0 { LookupsEndRehash(hash, s, n - 1); }
      assert !Rehashing(s);
    }
  }
}
