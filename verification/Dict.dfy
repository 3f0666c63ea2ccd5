/** The dictionary of dict.c in its own form: bucket arrays updated in place, counters, a rehash
    index. Every method leaves exactly the state the functions of DictState describe. */
module Dict {
  import opened Basics
  import opened DictState

  /** The index part of a chain search: the position of key k, or the chain's length. */
  method Search<K(==), V>(chain: seq<Entry<K, V>>, k: K) returns (i: nat)
    ensures i <= |chain| && (i < |chain| ==> chain[i].key == k)
    ensures forall j :: 0 <= j < i ==> chain[j].key != k
  {
    i := 0;
    while i < |chain| && chain[i].key != k
      invariant i <= |chain| && forall j :: 0 <= j < i ==> chain[j].key != k
    {
      i := i + 1;
    }
  }

  lemma {:induction false} SearchResult<K, V>(chain: seq<Entry<K, V>>, k: K, v: V, i: nat)
    requires i <= |chain| && (forall j :: 0 <= j < i ==> chain[j].key != k) && (i < |chain| ==> chain[i].key == k)
    ensures i == |chain| ==> FindIn(chain, k) == None
    ensures i < |chain| ==> FindIn(chain, k) == Some(chain[i].val)
    ensures i < |chain| ==>
      Unlink(chain, k) == chain[..i] + chain[i + 1..] && SetIn(chain, k, v) == chain[i := Entry(k, v)]
    decreases i
  {
    hide *;
    if chain == [] {
      NothingStored<K, V>(k);
    } else if i == 0 {
      SearchFirst(chain, v);
    } else {
      var c := chain[1..];
      SearchResult(c, k, v, i - 1);
      SearchStep(chain, k, v);
      if i < |chain| { FirstKept(chain, i, Entry(k, v)); }
    }
  }

  lemma NothingStored<K, V>(k: K)
    ensures FindIn<K, V>([], k) == None
  {}

  lemma SearchFirst<K, V>(chain: seq<Entry<K, V>>, v: V)
    requires chain != []
    ensures var k := chain[0].key;
      && FindIn(chain, k) == Some(chain[0].val) && Unlink(chain, k) == chain[..0] + chain[1..]
      && SetIn(chain, k, v) == chain[0 := Entry(k, v)]
  {}

  lemma FirstKept<T>(chain: seq<T>, i: nat, e: T)
    requires 0 < i < |chain|
    ensures [chain[0]] + (chain[1..][..i - 1] + chain[1..][i..]) == chain[..i] + chain[i + 1..]
    ensures [chain[0]] + chain[1..][i - 1 := e] == chain[i := e]
  {}

  lemma SearchStep<K, V>(chain: seq<Entry<K, V>>, k: K, v: V)
    requires chain != [] && chain[0].key != k
    ensures FindIn(chain, k) == FindIn(chain[1..], k)
    ensures Unlink(chain, k) == [chain[0]] + Unlink(chain[1..], k)
      && SetIn(chain, k, v) == [chain[0]] + SetIn(chain[1..], k, v)
  {}

  class Dict<K(!new,==), V> {
    const hash: K -> nat
    var table0: array<seq<Entry<K, V>>>
    var used0: nat
    var table1: array<seq<Entry<K, V>>>
    var used1: nat
    var rehashidx: int
    var iterators: int

    ghost function St(): State<K, V>
      reads this, table0, table1
    {
      State(Table(table0[..], used0), Table(table1[..], used1), rehashidx, iterators)
    }

    ghost predicate Ok()
      reads this, table0, table1
    {
      table0 != table1 && Valid(hash, St())
    }

    /** dictCreate */
    constructor (hash: K -> nat)
      ensures Ok() && fresh(table0) && fresh(table1) && this.hash == hash
      ensures forall k :: Lookup(hash, St(), k) == None
    {
      this.hash := hash;
      table0, used0 := new seq<Entry<K, V>>[0], 0;
      table1, used1 := new seq<Entry<K, V>>[0], 0;
      rehashidx, iterators := -1, 0;
    }

    /** One turn of dictRehash's loop. */
    method RehashTurn()
      requires Ok() && Rehashing(St())
      modifies this, table0, table1
      ensures Ok() && fresh({table0, table1} - old({table0, table1}))
      ensures St() == RehashOne(hash, old(St()))
    {
      ghost var s := St();
      RehashOneEffect(hash, s);
      if used0 == 0 {
        table0, used0 := table1, used1;
        table1, used1, rehashidx := new seq<Entry<K, V>>[0], 0, -1;
        return;
      }
      SomethingToMove(hash, s);
      SkipEmpty();
      MoveBucket();
    }

    /** while (table[rehashidx] == NULL) rehashidx++ */
    method SkipEmpty()
      requires 0 <= rehashidx <= table0.Length && FirstNonEmpty(table0[..], rehashidx) < table0.Length
      modifies this`rehashidx
      ensures rehashidx == FirstNonEmpty(table0[..], old(rehashidx))
    {
      while table0[rehashidx] == []
        invariant 0 <= rehashidx < table0.Length
        invariant FirstNonEmpty(table0[..], rehashidx) == FirstNonEmpty(table0[..], old(rehashidx))
        decreases table0.Length - rehashidx
      {
        rehashidx := rehashidx + 1;
      }
    }

    method MoveEntry(e: Entry<K, V>)
      requires table1.Length > 0 && table0 != table1 && used0 > 0
      modifies this`used0, this`used1, table1
      ensures used0 == old(used0) - 1 && Table(table1[..], used1) == PutFirst(hash, old(Table(table1[..], used1)), e)
    {
      var h := Slot(hash(e.key), table1.Length);
      table1[h] := [e] + table1[h];
      used0, used1 := used0 - 1, used1 + 1;
    }

    /** Moves the bucket at rehashidx, entry by entry. */
    method MoveBucket()
      requires 0 <= rehashidx < table0.Length && table1.Length > 0 && table0 != table1
      requires |table0[rehashidx]| <= used0
      modifies this`used0, this`used1, this`rehashidx, table0, table1
      ensures St() == old(State(Table(table0[..][rehashidx := []], used0 - |table0[rehashidx]|),
                                MoveChain(hash, table0[rehashidx], Table(table1[..], used1)), rehashidx + 1, iterators))
    {
      var de := table0[rehashidx];
      ghost var goal := MoveChain(hash, de, Table(table1[..], used1));
      while de != []
        invariant |de| <= used0 && used0 - |de| == old(used0 - |table0[rehashidx]|)
        invariant MoveChain(hash, de, Table(table1[..], used1)) == goal
        invariant table0[..] == old(table0[..]) && rehashidx == old(rehashidx)
        decreases |de|
      {
        MoveEntry(de[0]);
        de := de[1..];
      }
      table0[rehashidx] := [];
      rehashidx := rehashidx + 1;
    }

    /** dictRehash */
    method RehashTurns(n: nat) returns (more: bool)
      requires Ok()
      modifies this, table0, table1
      ensures Ok() && fresh({table0, table1} - old({table0, table1}))
      ensures (St(), more) == Rehash(hash, old(St()), n)
    {
      var left: nat := n;
      while left > 0 && rehashidx != -1
        invariant left <= n && Ok() && fresh({table0, table1} - old({table0, table1}))
        invariant Rehash(hash, St(), left) == Rehash(hash, old(St()), n)
        decreases left
      {
        hide Valid, RehashOne;
        RehashTurn();
        left := left - 1;
      }
      more := rehashidx != -1;
    }

    method RehashStep()
      requires Ok()
      modifies this, table0, table1
      ensures Ok() && fresh({table0, table1} - old({table0, table1}))
      ensures St() == MaybeRehash(hash, old(St()))
    {
      if rehashidx != -1 && iterators == 0 {
        var _ := RehashTurns(1);
      }
    }

    /** dictExpand */
    method ExpandTo(size: nat) returns (ok: bool)
      requires Ok()
      modifies this
      ensures Ok() && fresh({table0, table1} - old({table0, table1}))
      ensures (St(), ok) == Expand(old(St()), size)
    {
      ghost var s := St();
      ExpandEffect(hash, s, size);
      if rehashidx != -1 || used0 > size { return false; }
      var realsize := INITIAL_SIZE;
      while realsize < size
        invariant realsize > 0 && NextPower(size, realsize) == NextPower(size)
        decreases if size > realsize then size - realsize else 0
      {
        realsize := realsize * 2;
      }
      var n := new seq<Entry<K, V>>[realsize](_ => []);
      assert n[..] == FreshTable<K, V>(realsize).buckets;
      if table0.Length == 0 {
        table0, used0 := n, 0;
      } else {
        table1, used1, rehashidx := n, 0, 0;
      }
      assert St() == Expand(s, size).0;
      return true;
    }

    method ExpandWhenNeeded(canResize: bool) returns (ok: bool)
      requires Ok()
      modifies this
      ensures Ok() && fresh({table0, table1} - old({table0, table1}))
      ensures (St(), ok) == ExpandIfNeeded(old(St()), canResize) && ok
    {
      ExpandIfNeededEffect(hash, St(), canResize);
      ok := true;
      if rehashidx != -1 { return; }
      if table0.Length == 0 {
        ok := ExpandTo(INITIAL_SIZE);
      } else if used0 >= table0.Length && (canResize || used0 / table0.Length > FORCE_RESIZE_RATIO) {
        ok := ExpandTo(used0 * 2);
      }
    }

    /** Walks the chain of k in the old table, then in the new one: the table and the position found. */
    method Locate(k: K) returns (found: bool, second: bool, i: nat)
      requires Ok() && table0.Length > 0
      ensures found == Lookup(hash, St(), k).Some?
      ensures found ==> second == FindInTable(hash, k, St().ht0).None? && (second ==> table1.Length > 0)
      ensures found ==> var chain := Chain(hash, k, if second then St().ht1 else St().ht0);
        i < |chain| && chain[i].key == k && forall j :: 0 <= j < i ==> chain[j].key != k
    {
      var chain := table0[Slot(hash(k), table0.Length)];
      i := Search(chain, k);
      second := false;
      found := i < |chain|;
      if chain != [] { SearchResult(chain, k, chain[0].val, i); }
      if !found && rehashidx != -1 {
        chain := table1[Slot(hash(k), table1.Length)];
        i := Search(chain, k);
        second := true;
        found := i < |chain|;
        if chain != [] { SearchResult(chain, k, chain[0].val, i); }
      }
    }

    /** dictFind: the value of the entry found. */
    method Get(k: K) returns (r: Option<V>)
      requires Ok()
      modifies this, table0, table1
      ensures Ok() && fresh({table0, table1} - old({table0, table1}))
      ensures St() == Find(hash, old(St())) && r == Lookup(hash, old(St()), k)
    {
      FindEffect(hash, St());
      MaybeRehashEffect(hash, St());
      if table0.Length == 0 { return None; }
      RehashStep();
      var found, second, i := Locate(k);
      if !found { return None; }
      var chain := if second then table1[Slot(hash(k), table1.Length)] else table0[Slot(hash(k), table0.Length)];
      SearchResult(chain, k, chain[i].val, i);
      return Some(chain[i].val);
    }

    /** dictAdd: dictAddRaw and the store of the value. */
    method Add(k: K, v: V, canResize: bool) returns (added: bool)
      requires Ok()
      modifies this, table0, table1
      ensures Ok() && fresh({table0, table1} - old({table0, table1}))
      ensures (St(), added) == AddRaw(hash, old(St()), k, v, canResize)
    {
      hide Valid, Lookup, MaybeRehash, ExpandIfNeeded, Insert, Size;
      ghost var s := St();
      AddEffect(hash, s, k, v, canResize);
      MaybeRehashEffect(hash, s);
      RehashStep();
      ExpandIfNeededEffect(hash, St(), canResize);
      var ok := ExpandWhenNeeded(canResize);
      ghost var t := St();
      var found, second, i := Locate(k);
      if found { return false; }
      PutNew(Entry(k, v));
      return true;
    }

    method PutNew(e: Entry<K, V>)
      requires Ok() && table0.Length > 0
      modifies this`used0, this`used1, table0, table1
      ensures St() == Insert(hash, old(St()), e)
    {
      ghost var t := St();
      if rehashidx != -1 {
        var h := Slot(hash(e.key), table1.Length);
        table1[h] := [e] + table1[h];
        used1 := used1 + 1;
        assert Table(table1[..], used1) == PutFirst(hash, t.ht1, e) && table0[..] == t.ht0.buckets;
      } else {
        var h := Slot(hash(e.key), table0.Length);
        table0[h] := [e] + table0[h];
        used0 := used0 + 1;
        assert Table(table0[..], used0) == PutFirst(hash, t.ht0, e) && table1[..] == t.ht1.buckets;
      }
    }

    /** Stores a chain in the bucket of k in the table it was found in. */
    method PutBucket(k: K, second: bool, chain: seq<Entry<K, V>>, ghost t: State<K, V>)
      requires table0 != table1 && table0.Length > 0 && (second ==> table1.Length > 0) && t == St()
      requires |chain| <= |Chain(hash, k, if second then t.ht1 else t.ht0)|
      requires |Chain(hash, k, if second then t.ht1 else t.ht0)| - |chain| <= if second then used1 else used0
      modifies this`used0, this`used1, table0, table1
      ensures St() == if second then t.(ht1 := UpdateChain(hash, t.ht1, k, chain))
        else t.(ht0 := UpdateChain(hash, t.ht0, k, chain))
    {
      if second {
        var h := Slot(hash(k), table1.Length);
        used1 := used1 - (|table1[h]| - |chain|);
        table1[h] := chain;
        assert table1[..] == t.ht1.buckets[h := chain] && table0[..] == t.ht0.buckets;
      } else {
        var h := Slot(hash(k), table0.Length);
        used0 := used0 - (|table0[h]| - |chain|);
        table0[h] := chain;
        assert table0[..] == t.ht0.buckets[h := chain] && table1[..] == t.ht1.buckets;
      }
    }

    method UnlinkFound(k: K, second: bool, i: nat)
      requires Ok() && table0.Length > 0 && (second ==> table1.Length > 0)
      requires var chain := Chain(hash, k, if second then St().ht1 else St().ht0);
        i < |chain| && chain[i].key == k && forall j :: 0 <= j < i ==> chain[j].key != k
      modifies this`used0, this`used1, table0, table1
      ensures var t := old(St());
        St() == if second then t.(ht1 := UpdateChain(hash, t.ht1, k, Unlink(Chain(hash, k, t.ht1), k)))
                else t.(ht0 := UpdateChain(hash, t.ht0, k, Unlink(Chain(hash, k, t.ht0), k)))
    {
      ghost var t := St();
      ChainFits(hash, t.ht0, k);
      ChainFits(hash, t.ht1, k);
      hide Valid, FindIn, UpdateChain, Unlink, SetIn;
      var chain := if second then table1[Slot(hash(k), table1.Length)] else table0[Slot(hash(k), table0.Length)];
      SearchResult(chain, k, chain[i].val, i);
      PutBucket(k, second, chain[..i] + chain[i + 1..], t);
    }

    /** dictDelete */
    method Remove(k: K) returns (deleted: bool)
      requires Ok()
      modifies this, table0, table1
      ensures Ok() && fresh({table0, table1} - old({table0, table1}))
      ensures (St(), deleted) == Delete(hash, old(St()), k)
    {
      hide Valid, Chain, UpdateChain, Unlink, MaybeRehash, Size;
      DeleteEffect(hash, St(), k);
      FindEffect(hash, St());
      MaybeRehashEffect(hash, St());
      if table0.Length == 0 { return false; }
      RehashStep();
      var found, second, i := Locate(k);
      if !found { return false; }
      UnlinkFound(k, second, i);
      return true;
    }

    method SetFound(k: K, v: V, second: bool, i: nat)
      requires Ok() && table0.Length > 0 && (second ==> table1.Length > 0)
      requires var chain := Chain(hash, k, if second then St().ht1 else St().ht0);
        i < |chain| && chain[i].key == k && forall j :: 0 <= j < i ==> chain[j].key != k
      modifies this`used0, this`used1, table0, table1
      ensures var t := old(St());
        St() == if second then t.(ht1 := UpdateChain(hash, t.ht1, k, SetIn(Chain(hash, k, t.ht1), k, v)))
                else t.(ht0 := UpdateChain(hash, t.ht0, k, SetIn(Chain(hash, k, t.ht0), k, v)))
    {
      ghost var t := St();
      hide Valid, FindIn, UpdateChain, Unlink, SetIn;
      var chain := if second then table1[Slot(hash(k), table1.Length)] else table0[Slot(hash(k), table0.Length)];
      assert chain == Chain(hash, k, if second then t.ht1 else t.ht0);
      SearchResult(chain, k, v, i);
      PutBucket(k, second, chain[i := Entry(k, v)], t);
    }

    /** dictReplace */
    method Put(k: K, v: V, canResize: bool) returns (added: bool)
      requires Ok()
      modifies this, table0, table1
      ensures Ok() && fresh({table0, table1} - old({table0, table1}))
      ensures (St(), added) == Replace(hash, old(St()), k, v, canResize)
    {
      hide Valid, Lookup, Chain, UpdateChain, SetIn, MaybeRehash, AddRaw, FindInTable, Size;
      ReplaceEffect(hash, St(), k, v, canResize);
      AddEffect(hash, St(), k, v, canResize);
      added := Add(k, v, canResize);
      if added { return; }
      FindEffect(hash, St());
      MaybeRehashEffect(hash, St());
      RehashStep();
      var found, second, i := Locate(k);
      SetFound(k, v, second, i);
    }

    /** dictResize: the smallest table that holds all elements. */
    method Shrink(canResize: bool) returns (ok: bool)
      requires Ok()
      modifies this
      ensures Ok() && fresh({table0, table1} - old({table0, table1}))
      ensures (St(), ok) == Resize(old(St()), canResize)
    {
      if !canResize || rehashidx != -1 { return false; }
      var minimal := AsInt(used0);
      if minimal < INITIAL_SIZE { minimal := INITIAL_SIZE; }
      ok := ExpandTo(minimal);
    }
  }

  lemma ChainFits<K(!new), V>(hash: K -> nat, t: Table<K, V>, k: K)
    requires ValidTable(hash, t)
    ensures |Chain(hash, k, t)| <= t.used
  {
    if |t.buckets| > 0 { TotalUpdate(t.buckets, Index(hash, k, t), []); }
  }
}
