/** The safe iterator of dict.c in its own form: an object that walks the bucket arrays of a Dict. */
module DictIterator {
  import opened Basics
  import opened DictState
  import opened DictIter
  import opened Dict

  /** Where the walk of dictNext stands when no entry is at hand. */
  ghost predicate Walking<K, V>(s: State<K, V>, it0: Iter<K>, it: Iter<K>) {
    && it.index >= -1 && it.table <= 1 && (it.table == 1 ==> Rehashing(s))
    && it.entry.None? && it.next.None? && (it0.entry.None? || it0.next.None?)
    && it0.index >= -1 && (Started(it0) ==> Started(it))
    && NextBucket(s, it.table, it.index + 1) == NextBucket(s, it0.table, it0.index + 1)
  }

  /** The dictionary after the first dictNext has bound the iterator to it. */
  function Begun<K, V>(s: State<K, V>, it: Iter<K>): State<K, V> {
    if Started(it) then s else s.(iterators := s.iterators + 1)
  }

  /** One bucket further, or over to the second table; `more` is false at the end of the iteration. */
  ghost predicate Advanced<K, V>(s: State<K, V>, it: Iter<K>, it': Iter<K>, more: bool) {
    && it.index >= -1 && it'.index >= 0 && it'.table <= 1 && (it'.table == 1 ==> Rehashing(s)) && it'.next.None?
    && (if more then
          && it'.index < |TableOf(s, it'.table).buckets|
          && it'.entry
            == (var chain := TableOf(s, it'.table).buckets[it'.index]; if chain == [] then None else Some(chain[0].key))
        else it'.index >= |TableOf(s, it'.table).buckets| && it'.entry.None?)
    && NextBucket(s, it.table, it.index + 1)
       == if more && it'.entry.None? then NextBucket(s, it'.table, it'.index + 1) else (it'.table, it'.index)
  }

  lemma SecondTable<K(!new), V>(hash: K -> nat, s: State<K, V>)
    requires Valid(hash, s)
    ensures Rehashing(s) ==> |s.ht1.buckets| > 0
  {}

  /** Past the last bucket of the last table the iteration is at its end. */
  lemma AdvancedToEnd<K, V>(s: State<K, V>, it: Iter<K>)
    requires it.index >= -1 && it.table <= 1 && (it.table == 1 <==> Rehashing(s))
    requires it.index + 1 >= |TableOf(s, it.table).buckets|
    ensures Advanced(s, it, Iter(it.table, it.index + 1, None, None), false)
  {}

  /** One bucket further, or the first one of the second table, is where the walk goes on. */
  lemma AdvancedToBucket<K, V>(s: State<K, V>, it: Iter<K>, it': Iter<K>)
    requires it.index >= -1 && it.table <= 1 && (it.table == 1 ==> Rehashing(s)) && it'.next.None?
    requires it'.table <= 1 && 0 <= it'.index < |TableOf(s, it'.table).buckets|
    requires it'.entry
      == (var chain := TableOf(s, it'.table).buckets[it'.index]; if chain == [] then None else Some(chain[0].key))
    requires if it'.table == it.table then it'.index == it.index + 1
             else Rehashing(s) && it.table == 0 && it'.index == 0 && it.index + 1 >= |s.ht0.buckets|
    ensures Advanced(s, it, it', true)
  {}

  lemma WalkStarts<K, V>(s: State<K, V>, it: Iter<K>)
    requires it.index >= -1 && it.table <= 1 && (it.table == 1 ==> Rehashing(s)) && it.entry.None? && it.next.None?
    ensures Walking(s, it, it) && Walking(Begun(s, it), it, it)
  {}

  lemma WalkFrom<K, V>(s: State<K, V>, it0: Iter<K>, it: Iter<K>)
    requires Walking(s, it0, it)
    ensures Walking(s, it, it)
  {}

  lemma WalkGoesOn<K, V>(s: State<K, V>, it0: Iter<K>, it: Iter<K>, it': Iter<K>)
    requires Walking(s, it0, it) && Advanced(s, it, it', true) && it'.entry.None?
    ensures Walking(s, it0, it') && Started(it')
  {}

  lemma WalkEnds<K, V>(s0: State<K, V>, it0: Iter<K>, it: Iter<K>, it': Iter<K>, more: bool)
    requires var s := Begun(s0, it0); Walking(s, it0, it) && Advanced(s, it, it', more) && it'.entry.Some? == more
    ensures var s := Begun(s0, it0);
      Next(s0, it0)
        == (s, if more then it'.(next := AfterKey(TableOf(s, it'.table).buckets[it'.index], it'.entry.value))
          else it', it'.entry)
  {
    SameBuckets(s0, Begun(s0, it0), it0.table, it0.index + 1);
    hide NextBucket, AfterKey;
  }

  lemma ChainWalk<K(!new), V>(hash: K -> nat, s0: State<K, V>, it0: Iter<K>)
    requires ValidIter(hash, s0, it0) && it0.entry.Some?
    ensures Started(it0) && Begun(s0, it0) == s0 && it0.table <= 1 && 0 <= it0.index < |TableOf(s0, it0.table).buckets|
    ensures it0.next.None? ==> Walking(s0, it0, it0.(entry := None))
    ensures it0.next.Some? ==>
      Next(s0, it0)
        == (s0, it0.(entry := it0.next, next := AfterKey(TableOf(s0, it0.table).buckets[it0.index], it0.next.value)),
          it0.next)
  {}

  class SafeIterator<K(!new,==), V> {
    const d: Dict<K, V>
    var table: nat
    var index: int
    var entry: Option<K>
    var nextEntry: Option<K>

    ghost function It(): Iter<K>
      reads this
    {
      Iter(table, index, entry, nextEntry)
    }

    /** dictGetSafeIterator */
    constructor (d: Dict<K, V>)
      ensures this.d == d && It() == NewIter()
    {
      this.d := d;
      table, index := 0, -1;
      entry, nextEntry := None, None;
    }

    /** The bucket the iterator stands at. */
    method Bucket() returns (chain: seq<Entry<K, V>>)
      requires table <= 1 && 0 <= index < |TableOf(d.St(), table).buckets|
      ensures chain == TableOf(d.St(), table).buckets[index]
    {
      chain := if table == 0 then d.table0[index] else d.table1[index];
    }

    /** One bucket further, or over to the second table; false at the end of the iteration. */
    method Advance() returns (more: bool)
      requires d.Ok() && Walking(Begun(d.St(), It()), It(), It())
      modifies this, d`iterators
      ensures d.St() == Begun(old(d.St()), old(It())) && Advanced(d.St(), old(It()), It(), more)
      ensures index >= 0 && table <= 1 && (if more then index < |TableOf(d.St(), table).buckets| else entry.None?)
      ensures more ==> if table == old(table) then index == old(index) + 1 else old(table) == 0 && table == 1
    {
      ghost var it := It();
      hide Valid, NextBucket, Advanced;
      SecondTable(d.hash, d.St());
      if index == -1 && table == 0 { d.iterators := d.iterators + 1; }
      index := index + 1;
      var size := if table == 0 then d.table0.Length else d.table1.Length;
      if index >= size {
        if d.rehashidx != -1 && table == 0 {
          table, index := 1, 0;
        } else {
          AdvancedToEnd(d.St(), it);
          return false;
        }
      }
      var chain := Bucket();
      entry := if chain == [] then None else Some(chain[0].key);
      AdvancedToBucket(d.St(), it, It());
      return true;
    }

    /** What the loop of dictNext keeps; s0 and it0 are the dictionary and the iterator at the call. */
    ghost predicate Looping(s0: State<K, V>, it0: Iter<K>)
      reads this, d, d.table0, d.table1
    {
      && d.Ok()
      && if entry.Some? then It() == it0 && d.St() == s0 && ValidIter(d.hash, s0, it0)
         else
           && Walking(Begun(s0, it0), it0, It())
           && (It() != it0 ==> Started(It())) && d.St() == if It() == it0 then s0 else Begun(s0, it0)
    }

    /** One turn of the loop. */
    method Turn(ghost s0: State<K, V>, ghost it0: Iter<K>) returns (done: bool)
      requires Looping(s0, it0)
      modifies this, d`iterators
      ensures if done then (d.St(), It(), entry) == Next(s0, it0) else Looping(s0, it0)
      ensures !done ==> table == old(table) || (old(table) == 0 && table == 1)
      ensures !done && table == old(table) ==>
        if entry.None? && old(entry.None?) then index == old(index) + 1 && index < |TableOf(d.St(), table).buckets|
        else entry.None? && old(entry.Some?) && index == old(index)
    {
      ghost var it := It();
      hide Valid, Next, NextBucket, AfterKey, Advanced, Walking, ValidIter;
      BegunKeepsOk();
      if entry.None? {
        WalkFrom(Begun(s0, it0), it0, it);
        var more := Advance();
        if !more {
          WalkEnds(s0, it0, it, It(), false);
          return true;
        }
        if entry.None? {
          WalkGoesOn(d.St(), it0, it, It());
          return false;
        }
        WalkEnds(s0, it0, it, It(), true);
      } else {
        ChainWalk(d.hash, s0, it0);
        entry := nextEntry;
        if entry.None? { return false; }
      }
      var chain := Bucket();
      nextEntry := AfterKey(chain, entry.value);
      return true;
    }

    lemma BegunKeepsOk()
      requires d.Ok()
      ensures Valid(d.hash, Begun(d.St(), It()))
    {}

    /** dictNext, with the same result, iterator and dictionary as DictIter.Next. */
    method NextEntry() returns (r: Option<K>)
      requires d.Ok() && ValidIter(d.hash, d.St(), It())
      modifies this, d`iterators
      ensures (d.St(), It(), r) == Next(old(d.St()), old(It()))
    {
      ghost var s0, it0 := d.St(), It();
      if entry.None? { WalkStarts(s0, it0); }
      hide Valid, Next, NextBucket, Walking, ValidIter;
      var done := false;
      while !done
        invariant if done then (d.St(), It(), entry) == Next(s0, it0) else Looping(s0, it0)
        decreases !done, 2 - table, |TableOf(d.St(), table).buckets| - index, if entry.Some? then 1 else 0
      {
        done := Turn(s0, it0);
      }
      return entry;
    }

    /** dictReleaseIterator */
    method ReleaseIterator()
      modifies d`iterators
      ensures d.St() == Release(old(d.St()), It())
    {
      if !(index == -1 && table == 0) { d.iterators := d.iterators - 1; }
    }
  }
}
