/** An iteration of dictScan that loses a key: 16 buckets shrink to 4 and grow to 64 between two calls, and the
    cursor 8 left by the first table does not have the shape that a rehash from 4 to 64 needs. */
module DictScanGap {
  import opened Basics
  import opened Words
  import opened DictState
  import opened DictScan
  import opened DictScanRuns

  /** Numbers as keys, hashed to themselves. */
  function NumberHash(k: nat): nat {
    k % Pow2(64)
  }

  /** A table with the key 4 and nothing else. */
  function OnlyFour(size: nat): Table<nat, string>
    requires size > 0
  {
    Table(seq(size, b => if b == 4 % size then [Entry(4, "four")] else []), 1)
  }

  function Before(): State<nat, string> {
    State(OnlyFour(16), EmptyTable(), -1, 0)
  }

  function After(): State<nat, string> {
    State(FreshTable(4), OnlyFour(64), 1, 0)
  }

  lemma {:induction false} PowAtLeast(k: nat)
    requires k >= 3
    ensures Pow2(k) >= 8
  {
    if k > 3 { PowAtLeast(k - 1); }
  }

  lemma Remainder(a: nat, m: nat)
    requires a < m
    ensures a % m == a
  {}

  lemma FourFits()
    ensures NumberHash(4) == 4 && 4 < Pow2(64)
  {
    hide Pow2;
    PowAtLeast(64);
    Remainder(4, Pow2(64));
  }

  lemma Sizes()
    ensures Pow2(2) == 4 && Pow2(4) == 16 && Pow2(6) == 64
    ensures PowerOfTwo(4) && PowerOfTwo(16) && PowerOfTwo(64)
  {}

  lemma {:induction false} OneInTotal(buckets: seq<seq<Entry<nat, string>>>, b: nat)
    requires b < |buckets| && |buckets[b]| == 1 && forall i :: 0 <= i < |buckets| && i != b ==> buckets[i] == []
    ensures Total(buckets) == 1
  {
    TotalZero(buckets[b := []]);
    TotalUpdate(buckets, b, []);
  }

  lemma OnlyFourIsValid(size: nat)
    requires size > 0
    ensures ValidTable(NumberHash, OnlyFour(size)) && FindInTable(NumberHash, 4, OnlyFour(size)) == Some("four")
  {
    hide Pow2, NumberHash;
    FourFits();
    OneInTotal(OnlyFour(size).buckets, 4 % size);
  }

  /** One turn moves the key from one table to the other. */
  lemma FourMoves(size0: nat, size1: nat)
    requires size0 > 0 && size1 > 0
    ensures RehashOne(NumberHash, State(OnlyFour(size0), FreshTable(size1), 0, 0))
         == State(FreshTable(size0), OnlyFour(size1), 4 % size0 + 1, 0)
  {
    var s := State(OnlyFour(size0), FreshTable<nat, string>(size1), 0, 0);
    var b := 4 % size0;
    var e: Entry<nat, string> := Entry(4, "four");
    assert s.ht0.buckets[b := []] == FreshTable<nat, string>(size0).buckets;
    assert s.ht0.buckets[b] == [e];
    FirstIs(s.ht0.buckets, b);
    FourArrives(size1);
    hide FirstNonEmpty, MoveChain;
  }

  lemma FirstIs(buckets: seq<seq<Entry<nat, string>>>, b: nat)
    requires b < |buckets| && buckets[b] != [] && forall i :: 0 <= i < b ==> buckets[i] == []
    ensures FirstNonEmpty(buckets, 0) == b
  {}

  lemma FourArrives(size: nat)
    requires size > 0
    ensures MoveChain(NumberHash, [Entry(4, "four")], FreshTable(size)) == OnlyFour(size)
  {
    hide NumberHash;
    FourFits();
    var t: Table<nat, string> := FreshTable(size);
    var e: Entry<nat, string> := Entry(4, "four");
    assert Index(NumberHash, 4, t) == 4 % size;
    hide Index;
    var b := 4 % size;
    assert t.buckets[b] == [] && [e] + t.buckets[b] == [e];
    assert t.buckets[b := [e]] == OnlyFour(size).buckets;
    assert PutFirst(NumberHash, t, e).buckets == OnlyFour(size).buckets;
    OneMoved(e, t);
  }

  lemma OneMoved(e: Entry<nat, string>, t: Table<nat, string>)
    requires |t.buckets| > 0
    ensures MoveChain(NumberHash, [e], t) == PutFirst(NumberHash, t, e)
  {
    hide PutFirst;
    assert MoveChain(NumberHash, [e][1..], PutFirst(NumberHash, t, e)) == PutFirst(NumberHash, t, e);
  }

  lemma BeforeIsValid()
    ensures Valid(NumberHash, Before()) && Lookup(NumberHash, Before(), 4) == Some("four")
  {
    Sizes();
    OnlyFourIsValid(16);
    hide OnlyFour, FindInTable;
    assert ValidTable(NumberHash, EmptyTable<nat, string>());
  }

  // What dictResize, the two turns that finish it, and dictExpand to 64 leave.

  function Shrinking(): State<nat, string> { State(OnlyFour(16), FreshTable(4), 0, 0) }

  function Shrunk(): State<nat, string> { State(FreshTable(16), OnlyFour(4), 5, 0) }

  function Shortened(): State<nat, string> { State(OnlyFour(4), EmptyTable(), -1, 0) }

  function Growing(): State<nat, string> { State(OnlyFour(4), FreshTable(64), 0, 0) }

  lemma RehashingStates()
    ensures Rehashing(Shrinking()) && Rehashing(Shrunk()) && Rehashing(Growing())
  {}

  lemma ShrinkStarts()
    ensures Resize(Before(), true).0 == Shrinking() == Expand(Before(), 4).0
  {
    assert NextPower(4) == 4;
  }

  lemma GrowStarts()
    ensures Expand(Shortened(), 64).0 == Growing()
  {
    assert NextPower(64) == NextPower(64, 32) == 64;
  }

  lemma Turns()
    ensures RehashOne(NumberHash, Shrinking()) == Shrunk() && RehashOne(NumberHash, Shrunk()) == Shortened()
    ensures RehashOne(NumberHash, Growing()) == After()
  {
    FourMoves(16, 4);
    FourMoves(4, 64);
    hide OnlyFour, NumberHash, MoveChain;
  }

  /** Rehash with one and with two turns. */
  lemma OneTurn(s: State<nat, string>)
    requires Valid(NumberHash, s) && Rehashing(s)
    ensures Rehash(NumberHash, s, 1).0 == RehashOne(NumberHash, s) && Valid(NumberHash, RehashOne(NumberHash, s))
    ensures Lookup(NumberHash, RehashOne(NumberHash, s), 4) == Lookup(NumberHash, s, 4)
  {
    RehashOneEffect(NumberHash, s);
    hide RehashOne, Valid, Lookup;
    assert Rehash(NumberHash, RehashOne(NumberHash, s), 0).0 == RehashOne(NumberHash, s);
  }

  lemma TwoTurns(s: State<nat, string>, t: State<nat, string>)
    requires Valid(NumberHash, s) && Rehashing(s) && RehashOne(NumberHash, s) == t && Valid(NumberHash, t)
      && Rehashing(t)
    ensures Rehash(NumberHash, s, 2).0 == RehashOne(NumberHash, t)
  {
    hide RehashOne, Valid;
    OneTurn(t);
  }

  /** dictResize and two rehash turns, dictExpand to 64 and one turn lead from the one state to the other. */
  lemma Reached()
    ensures Valid(NumberHash, Before()) && Valid(NumberHash, After())
    ensures var shrinking := Resize(Before(), true).0;
      && Valid(NumberHash, shrinking)
      && var growing := Expand(Rehash(NumberHash, shrinking, 2).0, 64).0;
      && Valid(NumberHash, growing) && Rehash(NumberHash, growing, 1).0 == After()
    ensures Lookup(NumberHash, Before(), 4) == Lookup(NumberHash, After(), 4) == Some("four")
  {
    hide *;
    BeforeIsValid();
    RehashingStates();
    Turns();
    ShrinkStarts();
    ExpandEffect(NumberHash, Before(), 4);
    OneTurn(Shrinking());
    OneTurn(Shrunk());
    TwoTurns(Shrinking(), Shrunk());
    GrowStarts();
    ExpandEffect(NumberHash, Shortened(), 64);
    OneTurn(Growing());
  }

  // ---------------------------------------------------------------- the iteration

  /** The cursors 0, 8, 2, 1, 3, 0. */
  function Cursors(): seq<Word> {
    [Zeros(64), [false, false, false, true] + Zeros(60), [false, true] + Zeros(62),
     [true, false] + Zeros(62), [true, true] + Zeros(62), Zeros(64)]
  }

  function States(): seq<State<nat, string>> {
    [Before(), After(), After(), After(), After()]
  }

  lemma NextOf(v: Word, p: seq<bool>, next: seq<bool>)
    requires |p| <= 64 && v[..|p|] == p && Reversed(next) == Increment(Reversed(p))
    ensures NextCursor(v, |p|) == next + Zeros(64 - |p|)
  {
    NextCursorBits(v, |p|);
    ReversedTwice(next);
    hide NextCursor, Increment;
  }

  lemma CursorsFollow()
    ensures NextCursor(Cursors()[0], 4) == Cursors()[1]
    ensures forall i :: 1 <= i < 5 ==> NextCursor(Cursors()[i], 2) == Cursors()[i + 1]
  {
    var vs := Cursors();
    hide NextCursor;
    NextOf(vs[0], [false, false, false, false], [false, false, false, true]);
    NextOf(vs[1], [false, false], [false, true]);
    NextOf(vs[2], [false, true], [true, false]);
    NextOf(vs[3], [true, false], [true, true]);
    NextOf(vs[4], [true, true], [false, false]);
    assert [false, false] + Zeros(62) == Zeros(64);
  }

  lemma HashesFit()
    ensures HashFits(NumberHash)
  {
    hide Pow2;
    forall k ensures NumberHash(k) < Pow2(64) {}
  }

  lemma BeforeIsScannable()
    ensures Scannable(NumberHash, Before()) && SmallBits(Before()) == 4 && Size(Before()) == 1
  {
    BeforeIsValid();
    HashesFit();
    Sizes();
    LogPow(4);
    SizesOfFour();
    hide Pow2, Valid, Log, OnlyFour, HashFits;
  }

  lemma AfterIsValid()
    ensures Valid(NumberHash, After())
  {
    Reached();
  }

  lemma AfterTables()
    ensures Smaller(After()) == FreshTable(4) && Larger(After()) == OnlyFour(64) && Rehashing(After())
      && Size(After()) == 1
  {
    SizesOfFour();
    hide OnlyFour;
  }

  lemma AfterIsScannable()
    ensures Scannable(NumberHash, After()) && SmallBits(After()) == 2 && LargeBits(After()) == 6
  {
    hide *;
    AfterTables();
    AfterIsValid();
    HashesFit();
    Sizes();
    LogPow(2);
    LogPow(6);
    SizesOfFour();
    MaskedScannable(After(), 2, 6);
  }

  lemma MaskedScannable(s: State<nat, string>, k0: nat, k1: nat)
    requires Valid(NumberHash, s) && HashFits(NumberHash) && Rehashing(s) && k0 <= k1 <= 64
    requires |Smaller(s).buckets| == Pow2(k0) && |Larger(s).buckets| == Pow2(k1)
    ensures Scannable(NumberHash, s) && SmallBits(s) == k0 && LargeBits(s) == k1
  {
    LogPow(k0);
    LogPow(k1);
    hide Valid, HashFits, Pow2, Log, Smaller, Larger;
  }

  lemma SizesOfFour()
    ensures |OnlyFour(16).buckets| == 16 && |OnlyFour(64).buckets| == 64
    ensures OnlyFour(16).used == 1 && OnlyFour(64).used == 1
  {}

  /** Counting up from the cursor never gets to bucket 4. */
  lemma NotCounted(v: Word)
    requires Pow2(6) == 64 && (Val(v[..2]) != 0 || Val(v[2..6]) >= 2)
    ensures ExpansionEntries(OnlyFour(64).buckets, v, 2, 6) == []
  {
    var buckets := OnlyFour(64).buckets;
    hide Val, ExpansionEntries;
    if ExpansionEntries(buckets, v, 2, 6) != [] {
      var h := ExpansionOnly(buckets, v, 2, 6, ExpansionEntries(buckets, v, 2, 6)[0]);
      assert Val(h[..6]) == 4;
      assert h[..6] == h[..2] + h[2..6];
      ValAppend(h[..2], h[2..6]);
      Sizes();
    }
  }

  lemma CallsFollow()
    ensures Iteration(NumberHash, States(), Cursors())
  {
    BeforeIsScannable();
    AfterTables();
    AfterIsScannable();
    CursorsFollow();
    hide Scannable, NextCursor, SmallBits, Size, Before, After;
  }

  lemma NothingEmittedBefore()
    requires Scannable(NumberHash, Before())
    ensures Emitted(NumberHash, Before(), Zeros(64)) == []
  {
    BeforeIsScannable();
    ZerosValue(4);
    assert Zeros(64)[..4] == Zeros(4);
    hide Scannable, Val, SmallBits, Size;
  }

  lemma NothingEmittedAfter(v: Word)
    requires Scannable(NumberHash, After()) && (Val(v[..2]) != 0 || Val(v[2..6]) >= 2)
    ensures Emitted(NumberHash, After(), v) == []
  {
    hide *;
    AfterTables();
    AfterIsScannable();
    Sizes();
    NotCounted(v);
    EmptyParts(After(), v);
  }

  lemma EmptyParts(s: State<nat, string>, v: Word)
    requires Scannable(NumberHash, s) && Size(s) > 0 && Rehashing(s) && Smaller(s) == FreshTable(4)
    requires ExpansionEntries(Larger(s).buckets, v, SmallBits(s), LargeBits(s)) == []
    ensures Emitted(NumberHash, s, v) == []
  {
    BucketInRange(v, Smaller(s), SmallBits(s));
    hide Valid, HashFits, Smaller, Larger, SmallBits, LargeBits, Pow2, Val, ExpansionEntries;
  }

  lemma TwoBits(a: bool, b: bool)
    ensures Val([a, b]) == (if a then 1 else 0) + (if b then 2 else 0)
  {
    assert [a, b][1..] == [b] && [b][1..] == [];
    assert Val([b]) == if b then 1 else 0;
  }

  lemma CursorsMiss()
    ensures forall i :: 1 <= i < 5 ==> Val(Cursors()[i][..2]) != 0 || Val(Cursors()[i][2..6]) >= 2
  {
    var vs := Cursors();
    hide Val;
    TwoBits(false, true);
    TwoBits(true, false);
    TwoBits(true, true);
    ValAppend([false, true], [false, false]);
    assert vs[1][2..6] == [false, true] + [false, false];
    assert vs[2][..2] == [false, true] && vs[3][..2] == [true, false] && vs[4][..2] == [true, true];
  }

  /** The key 4 is in the dictionary at every call of an iteration from 0 back to 0, and no call emits it. */
  lemma KeyIsLost()
    ensures Iteration(NumberHash, States(), Cursors())
    ensures forall i :: 0 <= i < 5 ==> Lookup(NumberHash, States()[i], 4) == Some("four")
    ensures forall i :: 0 <= i < 5 ==> !Holds(Emitted(NumberHash, States()[i], Cursors()[i]), 4)
  {
    CallsFollow();
    Reached();
    CursorsMiss();
    BeforeIsScannable();
    AfterIsScannable();
    hide Scannable, Val, Emitted, SmallBits, LargeBits, Size, Valid, Lookup, After, Before, Smaller, Larger, Resize;
    NothingEmittedBefore();
    forall i | 1 <= i < 5 ensures Emitted(NumberHash, After(), Cursors()[i]) == [] {
      NothingEmittedAfter(Cursors()[i]);
    }
  }

  /** At a cursor of its own, the key is found before the sizes change. */
  lemma FourIsEmittedBefore()
    ensures Scannable(NumberHash, Before()) && Holds(Emitted(NumberHash, Before(), HashWord(4)), 4)
  {
    hide *;
    BeforeIsScannable();
    BeforeIsValid();
    FourFits();
    var v := HashWord(4);
    KeyRankIs(NumberHash, 4);
    WithinInterval(v, 4);
    NotRehashing(v);
    CallCovers(NumberHash, Before(), v, 4);
  }

  lemma WithinInterval(v: Word, k: nat)
    requires k <= 64
    ensures Rank(v) < IntervalEnd(v, k)
  {
    hide Rank, Pow2, Times;
    SplitRank(v, k);
    TimesNext(Rank(v[..k]), Pow2(64 - k));
  }

  lemma NotRehashing(v: Word)
    ensures SmallBits(Before()) == LargeBits(Before())
    ensures SmallBits(Before()) <= 64 ==> OnesThenZeros(ExtraBits(Before(), v))
  {
    hide Log, OnlyFour;
  }
}
