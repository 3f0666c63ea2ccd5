/** The integer set of intset.c: a buffer of equally wide numbers, kept strictly sorted and edited in place.
    Every operation refines the one on a sorted sequence, which IntSetBytes proves to be the one on a set. */
module IntSet {
  import opened Bytes
  import opened IntSetBytes

  class IntSet {
    var encoding: nat
    var length: nat
    var contents: array<Byte>

    ghost function Elems(): seq<int>
      reads this, contents
    {
      Elements(contents[..], encoding, length)
    }

    ghost predicate Valid()
      reads this, contents
    {
      Encoding(encoding) && Offset(length, encoding) <= contents.Length && Sorted(Elems())
    }

    /** intsetNew */
    constructor ()
      ensures Valid() && Elems() == [] && fresh(contents) && encoding == 2 && contents.Length == 0
    {
      encoding, length := 2, 0;
      contents := new Byte[0];
      new;
      assert Elems() == [];
    }

    /** _intsetGetEncoded */
    method GetEncoded(pos: nat, enc: nat) returns (v: int)
      requires Offset(pos, enc) + enc <= contents.Length
      ensures v == Cell(contents[..], enc, pos) && Fits(v, enc)
    {
      var o := Offset(pos, enc);
      var bytes := contents[o..o + enc];
      assert bytes == contents[..][o..o + enc];
      DecodedFits(bytes);
      hide Offset, Decode;
      v := Decode(bytes);
    }

    /** _intsetSet */
    method SetAt(pos: nat, v: int)
      requires Fits(v, encoding) && Offset(pos, encoding) + encoding <= contents.Length
      modifies contents
      ensures contents[..] == Written(old(contents[..]), encoding, pos, v)
    {
      var o, bytes := Offset(pos, encoding), Encode(v, encoding);
      ghost var was := contents[..];
      hide Offset, Encode;
      forall i | 0 <= i < |bytes| { contents[o + i] := bytes[i]; }
      assert contents[..] == was[..o] + bytes + was[o + encoding..];
    }

    /** intsetResize: zrealloc for len numbers. */
    method Resize(len: nat)
      modifies this`contents
      ensures fresh(contents) && contents.Length == Offset(len, encoding)
      ensures SamePrefix(old(contents[..]), contents[..])
    {
      var size := Offset(len, encoding);
      var was := contents;
      var b := new Byte[size](_ => 0);
      forall i | 0 <= i < size && i < was.Length { b[i] := was[i]; }
      contents := b;
    }

    /** _intsetGet */
    method Get(pos: nat) returns (v: int)
      requires Valid() && pos < length
      ensures v == Elems()[pos]
    {
      OffsetOrder(pos, length, encoding);
      hide Offset, Cell, Sorted;
      v := GetEncoded(pos, encoding);
    }

    /** intsetSearch */
    method Search(v: int) returns (found: bool, pos: nat)
      requires Valid()
      ensures if found then pos < length && Elems()[pos] == v else Splits(Elems(), pos, v)
    {
      ghost var e := Elems();
      hide Elements, Offset;
      if length == 0 { return false, 0; }
      var last := Get(length - 1);
      if v > last { return false, length; }
      var first := Get(0);
      if v < first { return false, 0; }
      var min, max, mid, cur := 0, length - 1, -1, -1;
      while max >= min
        invariant 0 <= min <= length && -1 <= max < length && max >= min - 1
        invariant (forall i :: 0 <= i < min ==> e[i] < v) && forall i :: max < i < length ==> v < e[i]
        invariant (min == 0 && max == length - 1) || (0 <= mid < length && cur == e[mid] != v)
        decreases max - min
      {
        mid := (min + max) / 2;
        cur := Get(mid);
        if v > cur {
          min := mid + 1;
        } else if v < cur {
          max := mid - 1;
        } else {
          return true, mid;
        }
      }
      return false, min;
    }

    /** intsetFind */
    method Find(v: int) returns (found: bool)
      requires Valid() && Fits(v, 8)
      ensures found == (v in Elems())
    {
      hide Offset;
      if ValueEncoding(v) > encoding {
        TooWide(contents[..], encoding, length, v);
        return false;
      }
      var pos;
      found, pos := Search(v);
      if !found { NotThere(Elems(), pos, v); }
    }

    /** intsetMoveTail */
    method MoveTail(from: nat, to: nat)
      requires from <= length && Offset(from, encoding) <= Offset(length, encoding) <= contents.Length
      requires Offset(to, encoding) + Offset(length, encoding) - Offset(from, encoding) <= contents.Length
      modifies contents
      ensures contents[..] == Moved(old(contents[..]), encoding, length, from, to)
    {
      var src: nat, dst: nat, end: nat := Offset(from, encoding), Offset(to, encoding), Offset(length, encoding);
      ghost var was := contents[..];
      hide Offset;
      MoveBytes(src, dst, end - src);
      assert src + (end - src) == end;
    }

    /** memmove */
    method MoveBytes(src: nat, dst: nat, n: nat)
      requires src + n <= contents.Length && dst + n <= contents.Length
      modifies contents
      ensures contents[..] == old(contents[..dst] + contents[src..src + n] + contents[dst + n..])
    {
      forall i | dst <= i < dst + n { contents[i] := contents[i - dst + src]; }
    }

    /** intsetUpgradeAndAdd: the value lies outside the range of the current width, so it goes to an end. */
    method UpgradeAndAdd(v: int)
      requires Valid() && Fits(v, 8) && !Fits(v, encoding)
      modifies this
      ensures Valid() && fresh(contents) && v !in old(Elems()) && Elems() == Insert(old(Elems()), v)
      ensures encoding == ValueEncoding(v) && contents.Length == Offset(length, encoding)
    {
      var curenc, newenc := encoding, ValueEncoding(v);
      var prepend := if v < 0 then 1 else 0;
      ghost var e := Elems();
      ValueEncodingIsSmallest(v, curenc);
      ValueEncodingIsSmallest(v, newenc);
      AtAnEnd(contents[..], curenc, length, v);
      InsertAdds(e, v);
      assert length == |e|;
      AllWider(e, curenc, newenc);
      hide *;
      WidenTo(newenc, prepend, e);
      WidenEnd(contents[..], e, curenc, newenc, prepend, v);
      SetAt(if prepend == 1 then 0 else length, v);
      length := length + 1;
      StillValid(Insert(e, v));
    }

    lemma AllWider(e: seq<int>, enc: nat, enc': nat)
      requires Encoding(enc) && Encoding(enc') && enc <= enc' && forall i :: 0 <= i < |e| ==> Fits(e[i], enc)
      ensures forall i :: 0 <= i < |e| ==> Fits(e[i], enc')
    {
      Powers();
    }

    /** The new encoding and size, and the loop of intsetUpgradeAndAdd. */
    method WidenTo(newenc: nat, prepend: nat, ghost e: seq<int>)
      requires Valid() && e == Elems() && encoding <= newenc && prepend <= 1
      requires forall i :: 0 <= i < |e| ==> Fits(e[i], newenc)
      modifies this
      ensures length == old(length) && encoding == newenc && fresh(contents)
      ensures Widening(contents[..], e, old(encoding), newenc, prepend, 0)
        && contents.Length == Offset(length + 1, newenc)
    {
      var curenc := encoding;
      ghost var was := contents[..];
      assert Offset(|e|, curenc) <= |was| && e == Elements(was, curenc, |e|);
      hide *;
      encoding := newenc;
      Resize(length + 1);
      StartWidening(was, contents[..], e, curenc, newenc, prepend);
      Widen(e, curenc, prepend);
    }

    lemma StillValid(e: seq<int>)
      requires Encoding(encoding) && Offset(length, encoding) <= contents.Length
      requires Elements(contents[..], encoding, length) == e && Sorted(e)
      ensures Valid() && Elems() == e
    {}

    /** The loop of intsetUpgradeAndAdd. */
    method Widen(ghost e: seq<int>, curenc: nat, prepend: nat)
      requires length == |e| && curenc <= encoding && Widening(contents[..], e, curenc, encoding, prepend, |e|)
      requires forall i :: 0 <= i < |e| ==> Fits(e[i], encoding)
      modifies contents
      ensures Widening(contents[..], e, curenc, encoding, prepend, 0)
    {
      var i: nat := length;
      hide Fits;
      while i > 0
        invariant i <= |e| && Widening(contents[..], e, curenc, encoding, prepend, i)
      {
        i := i - 1;
        hide Widening;
        WidenCell(e, curenc, prepend, i);
      }
    }

    method WidenCell(ghost e: seq<int>, curenc: nat, prepend: nat, i: nat)
      requires i < |e| && curenc <= encoding && Widening(contents[..], e, curenc, encoding, prepend, i + 1)
        && Fits(e[i], encoding)
      modifies contents
      ensures Widening(contents[..], e, curenc, encoding, prepend, i)
    {
      WidenRoom(e, curenc, encoding, prepend, i);
      WidenOne(contents[..], e, curenc, encoding, prepend, i);
      hide Offset, Cell, Written, Fits;
      var v := GetEncoded(i, curenc);
      SetAt(i + prepend, v);
    }

    /** intsetAdd */
    method Add(v: int) returns (success: bool)
      requires Valid() && Fits(v, 8)
      modifies this, contents
      ensures Valid() && (contents == old(contents) || fresh(contents))
      ensures success == (v !in old(Elems())) && Elems() == Insert(old(Elems()), v)
      ensures encoding == if ValueEncoding(v) > old(encoding) then ValueEncoding(v) else old(encoding)
      ensures success ==> contents.Length == Offset(length, encoding)
    {
      ValueEncodingIsSmallest(v, encoding);
      hide Offset, Elements;
      if ValueEncoding(v) > encoding {
        UpgradeAndAdd(v);
        return true;
      }
      var found, pos := Search(v);
      if found {
        RemoveAt(Elems(), pos);
        return false;
      }
      NotThere(Elems(), pos, v);
      InsertAtPos(v, pos);
      return true;
    }

    lemma ValidParts()
      requires Valid()
      ensures Encoding(encoding) && Offset(length, encoding) <= contents.Length
      ensures Sorted(Elems()) && Elems() == Elements(contents[..], encoding, length)
    {}

    /** The end of intsetAdd: a gap is opened at pos. */
    method InsertAtPos(v: int, pos: nat)
      requires Valid() && Fits(v, encoding) && Splits(Elems(), pos, v)
      modifies this
      ensures Valid() && fresh(contents) && Elems() == Insert(old(Elems()), v)
      ensures encoding == old(encoding) && contents.Length == Offset(length, encoding)
    {
      hide *;
      ghost var e, was := Elems(), contents[..];
      ValidParts();
      SplitsWithin(e, pos, v);
      InsertAdds(e, v);
      InsertAt(e, pos, v);
      Resize(length + 1);
      InsertRoom(encoding, length, pos);
      SameElements(was, contents[..], encoding, length);
      InsertedElements(contents[..], encoding, length, pos, v);
      OpenGap(pos);
      SetAt(pos, v);
      length := length + 1;
      StillValid(Insert(e, v));
    }

    method OpenGap(pos: nat)
      requires pos <= length && Offset(pos, encoding) <= Offset(length, encoding) <= contents.Length
      requires Offset(pos + 1, encoding) + Offset(length, encoding) - Offset(pos, encoding) <= contents.Length
      modifies contents
      ensures contents[..] == Moved(old(contents[..]), encoding, length, pos, pos + 1)
    {
      hide *;
      if pos < length { MoveTail(pos, pos + 1); } else { NothingToOpen(contents[..], encoding, length, pos); }
    }

    /** intsetRemove */
    method RemoveValue(v: int) returns (success: bool)
      requires Valid() && Fits(v, 8)
      modifies this, contents
      ensures Valid() && (contents == old(contents) || fresh(contents))
      ensures success == (v in old(Elems())) && Elems() == Remove(old(Elems()), v)
      ensures encoding == old(encoding) && (success ==> contents.Length == Offset(length, encoding))
    {
      hide Offset, Elements;
      if ValueEncoding(v) > encoding {
        TooWide(contents[..], encoding, length, v);
        RemoveAbsent(Elems(), v);
        return false;
      }
      var found, pos := Search(v);
      if !found {
        NotThere(Elems(), pos, v);
        RemoveAbsent(Elems(), v);
        return false;
      }
      RemovePos(pos);
      return true;
    }

    method RemovePos(pos: nat)
      requires Valid() && pos < length
      modifies this, contents
      ensures Valid() && fresh(contents) && Elems() == Remove(old(Elems()), old(Elems()[pos]))
      ensures encoding == old(encoding) && contents.Length == Offset(length, encoding)
    {
      hide *;
      ghost var e, was := Elems(), contents[..];
      ValidParts();
      RemoveAt(e, pos);
      RemoveDrops(e, e[pos]);
      RemoveRoom(encoding, length, pos);
      RemovedElements(was, encoding, length, pos);
      CloseGap(pos);
      ghost var closed := contents[..];
      length := length - 1;
      Resize(length);
      SameElements(closed, contents[..], encoding, length);
      StillValid(Remove(e, e[pos]));
    }

    method CloseGap(pos: nat)
      requires pos < length && Offset(pos + 1, encoding) <= Offset(length, encoding) <= contents.Length
      requires Offset(pos, encoding) + Offset(length, encoding) - Offset(pos + 1, encoding) <= contents.Length
      modifies contents
      ensures contents[..] == Moved(old(contents[..]), encoding, length, pos + 1, pos)
    {
      hide *;
      if pos < length - 1 { MoveTail(pos + 1, pos); } else { NothingToClose(contents[..], encoding, length, pos); }
    }
  }

  /** Two buffers that agree as far as both go. */
  ghost predicate SamePrefix(b: seq<Byte>, b': seq<Byte>) {
    forall i :: 0 <= i < |b| && i < |b'| ==> b'[i] == b[i]
  }

  lemma SplitsWithin(e: seq<int>, pos: nat, v: int)
    requires Splits(e, pos, v)
    ensures pos <= |e|
  {}

  lemma SameCell(b: seq<Byte>, b': seq<Byte>, enc: nat, i: nat)
    requires SamePrefix(b, b') && Offset(i, enc) + enc <= |b| && Offset(i, enc) + enc <= |b'|
    ensures Cell(b', enc, i) == Cell(b, enc, i)
  {
    hide Offset, Decode;
    assert b'[Offset(i, enc)..Offset(i, enc) + enc] == b[Offset(i, enc)..Offset(i, enc) + enc];
  }

  lemma SameElements(b: seq<Byte>, b': seq<Byte>, enc: nat, n: nat)
    requires SamePrefix(b, b') && Offset(n, enc) <= |b| && Offset(n, enc) <= |b'|
    ensures Elements(b', enc, n) == Elements(b, enc, n)
  {
    hide Offset, Cell, SamePrefix;
    forall i | 0 <= i < n ensures Cell(b', enc, i) == Cell(b, enc, i) {
      OffsetOrder(i, n, enc);
      SameCell(b, b', enc, i);
    }
  }

  /** Stored values fit the width they are stored with. */
  lemma StoredFits(b: seq<Byte>, enc: nat, n: nat, i: nat)
    requires Offset(n, enc) <= |b| && i < n
    ensures Fits(Elements(b, enc, n)[i], enc)
  {
    OffsetOrder(i, n, enc);
    DecodedFits(b[Offset(i, enc)..Offset(i, enc) + enc]);
    hide Decode, Offset;
  }

  lemma TooWide(b: seq<Byte>, enc: nat, n: nat, v: int)
    requires Encoding(enc) && Offset(n, enc) <= |b| && Fits(v, 8) && ValueEncoding(v) > enc
    ensures v !in Elements(b, enc, n)
  {
    ValueEncodingIsSmallest(v, enc);
    forall i | 0 <= i < n ensures Elements(b, enc, n)[i] != v { StoredFits(b, enc, n, i); }
  }

  /** A value that does not fit the width is below or above all stored ones, according to its sign. */
  lemma AtAnEnd(b: seq<Byte>, enc: nat, n: nat, v: int)
    requires Encoding(enc) && Offset(n, enc) <= |b| && !Fits(v, enc) && Sorted(Elements(b, enc, n))
    ensures var e := Elements(b, enc, n);
      && Splits(e, if v < 0 then 0 else n, v) && v !in e && Insert(e, v) == (if v < 0 then [v] + e else e + [v])
      && forall i :: 0 <= i < n ==> Fits(e[i], enc)
  {
    var e := Elements(b, enc, n);
    forall i | 0 <= i < n ensures Fits(e[i], enc) && (if v < 0 then v < e[i] else e[i] < v) {
      StoredFits(b, enc, n, i);
    }
    var pos := if v < 0 then 0 else n;
    hide Elements, Offset;
    InsertAt(e, pos, v);
    NotThere(e, pos, v);
    assert e[..0] == [] && e[0..] == e && e[..n] == e && e[n..] == [];
  }

  lemma StartWidening(was: seq<Byte>, b: seq<Byte>, e: seq<int>, enc: nat, enc': nat, prepend: nat)
    requires SamePrefix(was, b) && Offset(|e|, enc) <= |was| && e == Elements(was, enc, |e|)
    requires enc <= enc' && prepend <= 1 && |b| == Offset(|e| + 1, enc')
    ensures Widening(b, e, enc, enc', prepend, |e|)
  {
    OffsetOrder(|e|, |e| + 1, enc');
    OffsetWider(|e|, enc, enc');
    SameElements(was, b, enc, |e|);
    hide Offset, Cell;
    assert forall k :: 0 <= k < |e| ==> Elements(b, enc, |e|)[k] == Cell(b, enc, k);
  }

  lemma NothingToOpen(b: seq<Byte>, enc: nat, n: nat, pos: nat)
    requires pos == n
    ensures Moved(b, enc, n, pos, pos + 1) == b
  {
    hide Offset;
  }

  lemma NothingToClose(b: seq<Byte>, enc: nat, n: nat, pos: nat)
    requires pos + 1 == n
    ensures Moved(b, enc, n, pos + 1, pos) == b
  {
    hide Offset;
  }
}
