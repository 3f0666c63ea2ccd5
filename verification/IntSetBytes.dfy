/** The bytes of an integer set: numbers of 2, 4 or 8 bytes, least significant byte first, in two's
    complement. */
module IntSetBytes {
  import opened Bytes

  predicate Encoding(enc: nat) {
    enc in {2, 4, 8}
  }

  function Pow256(n: nat): (p: nat)
    ensures p > 0
  {
    if n == 0 then 1 else 256 * Pow256(n - 1)
  }

  /** The values of a width; half of them are negative. */
  predicate Fits(v: int, enc: nat) {
    var p: int := Pow256(enc);
    -p <= 2 * v < p
  }

  function LittleEndian(u: nat, n: nat): (s: seq<Byte>)
    ensures |s| == n
  {
    if n == 0 then [] else [u % 256] + LittleEndian(u / 256, n - 1)
  }

  function Unsigned(s: seq<Byte>): (u: nat) {
    if s == [] then 0 else s[0] + 256 * Unsigned(s[1..])
  }

  lemma {:induction false} UnsignedBound(s: seq<Byte>)
    ensures Unsigned(s) < Pow256(|s|)
  {
    if s != [] { UnsignedBound(s[1..]); }
  }

  lemma {:induction false} LittleEndianReads(u: nat, n: nat)
    requires u < Pow256(n)
    ensures Unsigned(LittleEndian(u, n)) == u
  {
    if n > 0 {
      LittleEndianReads(u / 256, n - 1);
      assert LittleEndian(u, n)[1..] == LittleEndian(u / 256, n - 1);
    }
  }

  function Encode(v: int, enc: nat): (s: seq<Byte>)
    requires Fits(v, enc)
    ensures |s| == enc
  {
    LittleEndian(if v >= 0 then v else v + Pow256(enc), enc)
  }

  function Decode(s: seq<Byte>): int {
    if 2 * Unsigned(s) < Pow256(|s|) then Unsigned(s) else Unsigned(s) - Pow256(|s|)
  }

  /** Reading a stored value gives it back. */
  lemma EncodeDecodes(v: int, enc: nat)
    requires Fits(v, enc)
    ensures Decode(Encode(v, enc)) == v
  {
    LittleEndianReads(if v >= 0 then v else v + Pow256(enc), enc);
    hide LittleEndian, Unsigned;
  }

  /** Least significant byte first, whatever the machine. */
  lemma KnownEncodings()
    ensures Fits(-2, 2) && Encode(-2, 2) == [0xFE, 0xFF]
    ensures Fits(0x01020304, 4) && Encode(0x01020304, 4) == [4, 3, 2, 1]
  {
    Powers();
    assert LittleEndian(0xFFFE, 2) == [0xFE, 0xFF];
    assert LittleEndian(0x01020304, 4) == [4, 3, 2, 1];
  }

  /** A value read with a width fits it. */
  lemma DecodedFits(s: seq<Byte>)
    ensures Fits(Decode(s), |s|)
  {
    UnsignedBound(s);
    hide Unsigned;
  }

  lemma Powers()
    ensures Pow256(2) == 0x1_0000 && Pow256(4) == 0x1_0000_0000 && Pow256(8) == 0x1_0000_0000_0000_0000
  {
    assert Pow256(4) == 0x1_0000_0000;
  }

  /** _intsetValueEncoding: the smallest width the value fits. */
  function ValueEncoding(v: int): (enc: nat)
    ensures Encoding(enc)
  {
    if v < -0x8000_0000 || v > 0x7FFF_FFFF then 8 else if v < -0x8000 || v > 0x7FFF then 4 else 2
  }

  lemma ValueEncodingIsSmallest(v: int, enc: nat)
    requires Fits(v, 8) && Encoding(enc)
    ensures Fits(v, enc) <==> ValueEncoding(v) <= enc
  {
    Powers();
  }

  // ---------------------------------------------------------------- cells

  /** The byte offset of cell i. */
  function Offset(i: nat, enc: nat): nat {
    i * enc
  }

  lemma OffsetStep(i: nat, enc: nat)
    ensures Offset(i + 1, enc) == Offset(i, enc) + enc && Offset(0, enc) == 0
  {}

  lemma {:induction false} OffsetOrder(i: nat, j: nat, enc: nat)
    requires i <= j
    ensures Offset(i, enc) <= Offset(j, enc) && (i < j ==> Offset(i, enc) + enc <= Offset(j, enc))
    decreases j - i
  {
    if i < j {
      OffsetStep(j - 1, enc);
      hide Offset;
      OffsetOrder(i, j - 1, enc);
    }
  }

  lemma OffsetWider(i: nat, enc: nat, enc': nat)
    requires enc <= enc'
    ensures Offset(i, enc) <= Offset(i, enc')
  {}

  lemma OffsetSum(i: nat, j: nat, enc: nat)
    ensures Offset(i + j, enc) == Offset(i, enc) + Offset(j, enc)
  {}

  /** The value in cell i; 0 outside the bytes. */
  function Cell(b: seq<Byte>, enc: nat, i: nat): int {
    if Offset(i, enc) + enc <= |b| then Decode(b[Offset(i, enc)..Offset(i, enc) + enc]) else 0
  }

  /** The bytes with a value written to cell i. */
  function Written(b: seq<Byte>, enc: nat, i: nat, v: int): (b': seq<Byte>)
    requires Fits(v, enc) && Offset(i, enc) + enc <= |b|
    ensures |b'| == |b|
  {
    b[..Offset(i, enc)] + Encode(v, enc) + b[Offset(i, enc) + enc..]
  }

  lemma Patch<T>(b: seq<T>, o: nat, m: seq<T>, from: nat, to: nat)
    requires o + |m| <= |b| && from <= to <= |b|
    ensures (b[..o] + m + b[o + |m|..])[o..o + |m|] == m
    ensures to <= o || o + |m| <= from ==> (b[..o] + m + b[o + |m|..])[from..to] == b[from..to]
  {
    var r := b[..o] + m + b[o + |m|..];
    assert forall i :: 0 <= i < |b| && (i < o || o + |m| <= i) ==> r[i] == b[i];
  }

  lemma WrittenReads(b: seq<Byte>, enc: nat, i: nat, v: int)
    requires Fits(v, enc) && Offset(i, enc) + enc <= |b|
    ensures Cell(Written(b, enc, i, v), enc, i) == v
  {
    EncodeDecodes(v, enc);
    hide Offset, Encode, Decode;
    Patch(b, Offset(i, enc), Encode(v, enc), 0, 0);
  }

  /** Writing a cell changes no cell, of any width, that shares no byte with it. */
  lemma WrittenElsewhere(b: seq<Byte>, enc: nat, i: nat, v: int, enc': nat, j: nat)
    requires Fits(v, enc) && Offset(i, enc) + enc <= |b|
    requires Offset(j, enc') + enc' <= Offset(i, enc) || Offset(i, enc) + enc <= Offset(j, enc')
    ensures Cell(Written(b, enc, i, v), enc', j) == Cell(b, enc', j)
  {
    hide Offset, Encode, Decode;
    if Offset(j, enc') + enc' <= |b| {
      Patch(b, Offset(i, enc), Encode(v, enc), Offset(j, enc'), Offset(j, enc') + enc');
    }
  }

  /** The first n cells. */
  function Elements(b: seq<Byte>, enc: nat, n: nat): (s: seq<int>)
    ensures |s| == n
  {
    seq(n, i requires 0 <= i < n => Cell(b, enc, i))
  }

  lemma WrittenElements(b: seq<Byte>, enc: nat, i: nat, v: int, n: nat)
    requires Fits(v, enc) && Offset(i, enc) + enc <= |b| && i < n
    ensures Elements(Written(b, enc, i, v), enc, n) == Elements(b, enc, n)[i := v]
  {
    hide Offset, Cell, Written;
    forall j | 0 <= j < n ensures Cell(Written(b, enc, i, v), enc, j) == if j == i then v else Cell(b, enc, j) {
      if j == i {
        WrittenReads(b, enc, i, v);
      } else {
        if i < j { OffsetOrder(i, j, enc); } else { OffsetOrder(j, i, enc); }
        WrittenElsewhere(b, enc, i, v, enc, j);
      }
    }
  }

  // ---------------------------------------------------------------- moving the tail

  /** memmove of the cells from `from` up to n to `to`. */
  function Moved(b: seq<Byte>, enc: nat, n: nat, from: nat, to: nat): (b': seq<Byte>)
    ensures |b'| == |b|
  {
    if Offset(from, enc) <= Offset(n, enc) <= |b| && Offset(to, enc) + Offset(n, enc) - Offset(from, enc) <= |b| then
      var m := b[Offset(from, enc)..Offset(n, enc)];
      b[..Offset(to, enc)] + m + b[Offset(to, enc) + |m|..]
    else b
  }

  lemma SliceInPatch<T>(b: seq<T>, from: nat, to: nat, o: nat, x: nat, y: nat)
    requires from <= to <= |b| && o + (to - from) <= |b| && x <= y <= to - from
    ensures var m := b[from..to]; (b[..o] + m + b[o + |m|..])[o + x..o + y] == b[from + x..from + y]
  {
    var m := b[from..to];
    Patch(b, o, m, 0, 0);
    SliceOfSlice(b, from, to, x, y);
    SliceOfSlice(b[..o] + m + b[o + |m|..], o, o + |m|, x, y);
  }

  lemma SliceOfSlice<T>(s: seq<T>, a: nat, b: nat, x: nat, y: nat)
    requires a <= b <= |s| && x <= y <= b - a
    ensures s[a..b][x..y] == s[a + x..a + y]
  {
    assert |s[a..b][x..y]| == |s[a + x..a + y]|;
    assert forall k :: 0 <= k < y - x ==> s[a..b][x..y][k] == s[a + x..a + y][k];
  }

  /** The cells that were moved. */
  lemma MovedCell(b: seq<Byte>, enc: nat, n: nat, from: nat, to: nat, k: nat)
    requires from + k < n && Offset(n, enc) <= |b| && Offset(to + n - from, enc) <= |b|
    ensures Cell(Moved(b, enc, n, from, to), enc, to + k) == Cell(b, enc, from + k)
  {
    OffsetSum(from, n - from, enc);
    OffsetSum(to, n - from, enc);
    OffsetSum(from, k, enc);
    OffsetSum(to, k, enc);
    OffsetOrder(from + k, n, enc);
    hide Offset, Decode;
    SliceInPatch(b, Offset(from, enc), Offset(n, enc), Offset(to, enc), Offset(k, enc), Offset(k, enc) + enc);
  }

  /** The cells before the place they were moved to. */
  lemma MovedBefore(b: seq<Byte>, enc: nat, n: nat, from: nat, to: nat, k: nat)
    requires from <= n && Offset(n, enc) <= |b| && Offset(to + n - from, enc) <= |b| && k < to
    ensures Cell(Moved(b, enc, n, from, to), enc, k) == Cell(b, enc, k)
  {
    OffsetSum(from, n - from, enc);
    OffsetSum(to, n - from, enc);
    OffsetOrder(k, to, enc);
    hide Offset, Decode;
    Patch(b, Offset(to, enc), b[Offset(from, enc)..Offset(n, enc)], Offset(k, enc), Offset(k, enc) + enc);
  }

  lemma InsertRoom(enc: nat, n: nat, pos: nat)
    requires pos <= n
    ensures Offset(pos, enc) <= Offset(n, enc) <= Offset(n + 1, enc) && Offset(pos, enc) + enc <= Offset(n + 1, enc)
    ensures Offset(pos + 1, enc) + Offset(n, enc) - Offset(pos, enc) == Offset(n + 1, enc)
  {
    OffsetSum(pos, n - pos, enc);
    OffsetSum(pos + 1, n - pos, enc);
    OffsetOrder(pos, n, enc);
    OffsetOrder(pos, n + 1, enc);
    OffsetOrder(n, n + 1, enc);
    hide Offset;
  }

  lemma GapFilled(e: seq<int>, w: seq<int>, pos: nat, v: int)
    requires pos <= |e| && |w| == |e| + 1 && w[pos] == v
    requires forall k :: 0 <= k < pos ==> w[k] == e[k]
    requires forall k :: pos <= k < |e| ==> w[k + 1] == e[k]
    ensures w == e[..pos] + [v] + e[pos..]
  {
    assert w[..pos] == e[..pos];
    assert w[pos + 1..] == e[pos..];
    assert w == w[..pos] + [w[pos]] + w[pos + 1..];
  }

  lemma OpenedBefore(b: seq<Byte>, enc: nat, n: nat, pos: nat)
    requires pos <= n && Offset(n + 1, enc) <= |b|
    ensures var e, w := Elements(b, enc, n), Elements(Moved(b, enc, n, pos, pos + 1), enc, n + 1);
      forall k :: 0 <= k < pos ==> w[k] == e[k]
  {
    InsertRoom(enc, n, pos);
    var e, w := Elements(b, enc, n), Elements(Moved(b, enc, n, pos, pos + 1), enc, n + 1);
    hide Offset, Cell, Moved;
    forall k | 0 <= k < pos ensures w[k] == e[k] { MovedBefore(b, enc, n, pos, pos + 1, k); }
  }

  lemma OpenedAfter(b: seq<Byte>, enc: nat, n: nat, pos: nat)
    requires pos <= n && Offset(n + 1, enc) <= |b|
    ensures var e, w := Elements(b, enc, n), Elements(Moved(b, enc, n, pos, pos + 1), enc, n + 1);
      forall k :: pos <= k < n ==> w[k + 1] == e[k]
  {
    InsertRoom(enc, n, pos);
    var e, w := Elements(b, enc, n), Elements(Moved(b, enc, n, pos, pos + 1), enc, n + 1);
    hide Offset, Cell, Moved;
    forall k | pos <= k < n ensures w[k + 1] == e[k] {
      assert pos + 1 + (k - pos) == k + 1 && pos + (k - pos) == k;
      MovedCell(b, enc, n, pos, pos + 1, k - pos);
    }
  }

  /** A gap opened at pos and filled. */
  lemma InsertedElements(b: seq<Byte>, enc: nat, n: nat, pos: nat, v: int)
    requires pos <= n && Offset(n + 1, enc) <= |b| && Fits(v, enc)
    ensures Offset(pos, enc) + enc <= |b|
    ensures var e := Elements(b, enc, n);
      Elements(Written(Moved(b, enc, n, pos, pos + 1), enc, pos, v), enc, n + 1) == e[..pos] + [v] + e[pos..]
  {
    InsertRoom(enc, n, pos);
    var m, e := Moved(b, enc, n, pos, pos + 1), Elements(b, enc, n);
    hide Offset, Cell, Written, Moved, Elements;
    OpenedBefore(b, enc, n, pos);
    OpenedAfter(b, enc, n, pos);
    WrittenElements(m, enc, pos, v, n + 1);
    GapFilled(e, Elements(m, enc, n + 1)[pos := v], pos, v);
  }

  lemma RemoveRoom(enc: nat, n: nat, pos: nat)
    requires pos < n
    ensures Offset(pos, enc) <= Offset(pos + 1, enc) <= Offset(n, enc)
    ensures Offset(pos, enc) + Offset(n, enc) - Offset(pos + 1, enc) == Offset(n - 1, enc) <= Offset(n, enc)
  {
    OffsetSum(pos + 1, n - pos - 1, enc);
    OffsetSum(pos, n - pos - 1, enc);
    OffsetOrder(pos, pos + 1, enc);
    OffsetOrder(pos + 1, n, enc);
    OffsetOrder(n - 1, n, enc);
    hide Offset;
  }

  lemma GapClosed(e: seq<int>, w: seq<int>, pos: nat)
    requires pos < |e| && |w| == |e| - 1
    requires forall k :: 0 <= k < pos ==> w[k] == e[k]
    requires forall k :: pos < k < |e| ==> w[k - 1] == e[k]
    ensures w == e[..pos] + e[pos + 1..]
  {
    assert w[..pos] == e[..pos];
    assert w[pos..] == e[pos + 1..];
    assert w == w[..pos] + w[pos..];
  }

  lemma ClosedBefore(b: seq<Byte>, enc: nat, n: nat, pos: nat)
    requires pos < n && Offset(n, enc) <= |b|
    ensures var e, w := Elements(b, enc, n), Elements(Moved(b, enc, n, pos + 1, pos), enc, n - 1);
      forall k :: 0 <= k < pos ==> w[k] == e[k]
  {
    RemoveRoom(enc, n, pos);
    var e, w := Elements(b, enc, n), Elements(Moved(b, enc, n, pos + 1, pos), enc, n - 1);
    hide Offset, Cell, Moved;
    forall k | 0 <= k < pos ensures w[k] == e[k] { MovedBefore(b, enc, n, pos + 1, pos, k); }
  }

  lemma ClosedAfter(b: seq<Byte>, enc: nat, n: nat, pos: nat)
    requires pos < n && Offset(n, enc) <= |b|
    ensures var e, w := Elements(b, enc, n), Elements(Moved(b, enc, n, pos + 1, pos), enc, n - 1);
      forall k :: pos < k < n ==> w[k - 1] == e[k]
  {
    RemoveRoom(enc, n, pos);
    var e, w := Elements(b, enc, n), Elements(Moved(b, enc, n, pos + 1, pos), enc, n - 1);
    hide Offset, Cell, Moved;
    forall k | pos < k < n ensures w[k - 1] == e[k] {
      assert pos + (k - pos - 1) == k - 1 && pos + 1 + (k - pos - 1) == k;
      MovedCell(b, enc, n, pos + 1, pos, k - pos - 1);
    }
  }

  /** The cell at pos overwritten by what follows it. */
  lemma RemovedElements(b: seq<Byte>, enc: nat, n: nat, pos: nat)
    requires pos < n && Offset(n, enc) <= |b|
    ensures var e := Elements(b, enc, n);
      Elements(Moved(b, enc, n, pos + 1, pos), enc, n - 1) == e[..pos] + e[pos + 1..]
  {
    hide Offset, Cell, Moved, Elements;
    ClosedBefore(b, enc, n, pos);
    ClosedAfter(b, enc, n, pos);
    GapClosed(Elements(b, enc, n), Elements(Moved(b, enc, n, pos + 1, pos), enc, n - 1), pos);
  }

  // ---------------------------------------------------------------- widening in place

  /** The back-to-front widening with i cells still to be done: those are intact in the old width, the others
      are in place in the new one, shifted by `prepend`. */
  ghost predicate Widening(b: seq<Byte>, e: seq<int>, enc: nat, enc': nat, prepend: nat, i: nat) {
    && i <= |e| && prepend <= 1 && enc <= enc' && Offset(|e| + 1, enc') <= |b|
    && (forall k :: 0 <= k < i ==> Cell(b, enc, k) == e[k])
    && forall k :: i <= k < |e| ==> Cell(b, enc', k + prepend) == e[k]
  }

  lemma WidenRoom(e: seq<int>, enc: nat, enc': nat, prepend: nat, i: nat)
    requires i < |e| && prepend <= 1 && enc <= enc'
    ensures Offset(i + prepend, enc') + enc' <= Offset(|e| + 1, enc') && Offset(i, enc) + enc <= Offset(|e| + 1, enc')
  {
    OffsetOrder(i + prepend, |e| + 1, enc');
    OffsetOrder(i, |e| + 1, enc);
    OffsetWider(|e| + 1, enc, enc');
    hide Offset;
  }

  /** Widening one more cell overwrites nothing that is still to be read, and nothing already written. */
  lemma WidenOne(b: seq<Byte>, e: seq<int>, enc: nat, enc': nat, prepend: nat, i: nat)
    requires Widening(b, e, enc, enc', prepend, i + 1) && i < |e| && Fits(e[i], enc')
    ensures Offset(i + prepend, enc') + enc' <= |b|
    ensures Widening(Written(b, enc', i + prepend, e[i]), e, enc, enc', prepend, i)
  {
    WidenRoom(e, enc, enc', prepend, i);
    hide Offset, Cell, Written;
    var b' := Written(b, enc', i + prepend, e[i]);
    forall k | 0 <= k < i ensures Cell(b', enc, k) == e[k] {
      OffsetOrder(k, i, enc);
      OffsetWider(i, enc, enc');
      OffsetOrder(i, i + prepend, enc');
      WrittenElsewhere(b, enc', i + prepend, e[i], enc, k);
    }
    forall k | i <= k < |e| ensures Cell(b', enc', k + prepend) == e[k] {
      if k == i {
        WrittenReads(b, enc', i + prepend, e[i]);
      } else {
        OffsetOrder(i + prepend, k + prepend, enc');
        WrittenElsewhere(b, enc', i + prepend, e[i], enc', k + prepend);
      }
    }
  }

  /** After the widening the new value goes to the free end. */
  lemma WidenEnd(b: seq<Byte>, e: seq<int>, enc: nat, enc': nat, prepend: nat, v: int)
    requires Widening(b, e, enc, enc', prepend, 0) && Fits(v, enc')
    ensures var free := if prepend == 1 then 0 else |e|;
      && Offset(free, enc') + enc' <= |b|
      && Elements(Written(b, enc', free, v), enc', |e| + 1) == if prepend == 1 then [v] + e else e + [v]
  {
    var free := if prepend == 1 then 0 else |e|;
    OffsetOrder(free, |e| + 1, enc');
    WrittenElements(b, enc', free, v, |e| + 1);
    hide Offset, Cell, Written;
    var was := Elements(b, enc', |e| + 1);
    forall k | 0 <= k < |e| ensures was[k + prepend] == e[k] {}
  }

  // ---------------------------------------------------------------- sorted sequences

  ghost predicate Sorted(e: seq<int>) {
    forall i, j :: 0 <= i < j < |e| ==> e[i] < e[j]
  }

  function Insert(e: seq<int>, v: int): (r: seq<int>) {
    if e == [] then [v] else if v < e[0] then [v] + e else if v == e[0] then e else [e[0]] + Insert(e[1..], v)
  }

  function Remove(e: seq<int>, v: int): (r: seq<int>) {
    if e == [] then [] else if v == e[0] then e[1..] else [e[0]] + Remove(e[1..], v)
  }

  lemma SortedCons(x: int, s: seq<int>)
    requires Sorted(s) && forall y :: y in s ==> x < y
    ensures Sorted([x] + s)
  {
    forall i, j | 0 <= i < j < |s| + 1 ensures ([x] + s)[i] < ([x] + s)[j] {
      if i == 0 { assert s[j - 1] in s; }
    }
  }

  /** Sorted insertion adds exactly v to the set and keeps the order. */
  lemma {:induction false} InsertAdds(e: seq<int>, v: int)
    requires Sorted(e)
    ensures Sorted(Insert(e, v)) && forall x :: x in Insert(e, v) <==> x in e || x == v
  {
    if e != [] {
      assert e == [e[0]] + e[1..];
      InsertAdds(e[1..], v);
      if v < e[0] { SortedCons(v, e); }
      if v > e[0] { SortedCons(e[0], Insert(e[1..], v)); }
    }
  }

  /** Removal takes exactly v out of the set and keeps the order. */
  lemma {:induction false} RemoveDrops(e: seq<int>, v: int)
    requires Sorted(e)
    ensures Sorted(Remove(e, v)) && forall x :: x in Remove(e, v) <==> x in e && x != v
  {
    if e != [] {
      assert e == [e[0]] + e[1..];
      RemoveDrops(e[1..], v);
      if v != e[0] { SortedCons(e[0], Remove(e[1..], v)); }
    }
  }

  /** The position where v is, or would be. */
  ghost predicate Splits(e: seq<int>, pos: nat, v: int) {
    pos <= |e| && (forall i :: 0 <= i < pos ==> e[i] < v) && forall i :: pos <= i < |e| ==> v < e[i]
  }

  lemma ConsInsert(e: seq<int>, pos: nat, v: int)
    requires 0 < pos <= |e|
    ensures [e[0]] + (e[1..][..pos - 1] + [v] + e[1..][pos - 1..]) == e[..pos] + [v] + e[pos..]
  {
    assert e[1..][pos - 1..] == e[pos..];
    assert [e[0]] + e[1..][..pos - 1] == e[..pos];
  }

  lemma {:induction false} InsertAt(e: seq<int>, pos: nat, v: int)
    requires Splits(e, pos, v)
    ensures Insert(e, v) == e[..pos] + [v] + e[pos..]
  {
    if pos > 0 {
      assert Splits(e[1..], pos - 1, v);
      InsertAt(e[1..], pos - 1, v);
      ConsInsert(e, pos, v);
    } else {
      assert e[..0] == [] && e[0..] == e;
    }
  }

  lemma NotThere(e: seq<int>, pos: nat, v: int)
    requires Splits(e, pos, v)
    ensures v !in e
  {}

  lemma SortedTail(e: seq<int>, pos: nat)
    requires Sorted(e) && 0 < pos < |e|
    ensures Sorted(e[1..]) && e[0] < e[pos] && e[1..][pos - 1] == e[pos]
  {
    var c := e[1..];
    forall i, j | 0 <= i < j < |c| ensures c[i] < c[j] { assert e[i + 1] < e[j + 1]; }
  }

  lemma PastFirst(e: seq<int>, v: int)
    requires e != [] && e[0] < v
    ensures Remove(e, v) == [e[0]] + Remove(e[1..], v) && Insert(e, v) == [e[0]] + Insert(e[1..], v)
  {}

  lemma AtFirst(e: seq<int>)
    requires e != []
    ensures Remove(e, e[0]) == e[..0] + e[1..] && Insert(e, e[0]) == e
  {}

  lemma ConsRemove(e: seq<int>, pos: nat)
    requires 0 < pos < |e|
    ensures [e[0]] + (e[1..][..pos - 1] + e[1..][pos..]) == e[..pos] + e[pos + 1..] && [e[0]] + e[1..] == e
  {}

  lemma {:induction false} RemoveAt(e: seq<int>, pos: nat)
    requires Sorted(e) && pos < |e|
    ensures Remove(e, e[pos]) == e[..pos] + e[pos + 1..]
    ensures Insert(e, e[pos]) == e
  {
    hide *;
    if pos == 0 {
      AtFirst(e);
    } else {
      SortedTail(e, pos);
      RemoveAt(e[1..], pos - 1);
      PastFirst(e, e[pos]);
      ConsRemove(e, pos);
    }
  }

  lemma {:induction false} RemoveAbsent(e: seq<int>, v: int)
    requires v !in e
    ensures Remove(e, v) == e
  {
    if e != [] { RemoveAbsent(e[1..], v); }
  }
}
