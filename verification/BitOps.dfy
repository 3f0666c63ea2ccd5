/** The bit counting, bit searching and bit combining code of bitops.c against the bit-by-bit definitions. A
    string's bit 0 is the most significant bit of its first byte. */
module BitOps {

  function Mask(k: nat): bv8
    requires k < 8
  {
    match k case 0 => 0x80 case 1 => 0x40 case 2 => 0x20 case 3 => 0x10 case 4 => 8 case 5 => 4 case 6 => 2 case _ => 1
  }

  function ByteBit(b: bv8, k: nat): bool
    requires k < 8
  {
    b & Mask(k) != 0
  }

  function BitAt(s: seq<bv8>, k: nat): bool
    requires k < 8 * |s|
  {
    ByteBit(s[k / 8], k % 8)
  }

  // ---------------------------------------------------------------- counting

  function One(b: bool): nat {
    if b then 1 else 0
  }

  /** The number of set bits among the first n of a string. */
  function CountBits(s: seq<bv8>, n: nat): (c: nat)
    requires n <= 8 * |s|
  {
    if n == 0 then 0 else CountBits(s, n - 1) + One(BitAt(s, n - 1))
  }

  /** It is the size of the set of their positions. */
  lemma {:induction false} CountBitsIsCardinality(s: seq<bv8>, n: nat)
    requires n <= 8 * |s|
    ensures CountBits(s, n) == |set k | 0 <= k < n && BitAt(s, k)|
  {
    hide BitAt;
    var now := set k | 0 <= k < n && BitAt(s, k);
    if n == 0 {
      assert now == {};
    } else {
      CountBitsIsCardinality(s, n - 1);
      var before := set k | 0 <= k < n - 1 && BitAt(s, k);
      assert now == if BitAt(s, n - 1) then before + {n - 1} else before;
    }
  }

  /** What bitsinbyte holds for a byte. */
  function ByteCount(b: bv8): nat {
    One(ByteBit(b, 0)) + One(ByteBit(b, 1)) + One(ByteBit(b, 2)) + One(ByteBit(b, 3))
    + One(ByteBit(b, 4)) + One(ByteBit(b, 5)) + One(ByteBit(b, 6)) + One(ByteBit(b, 7))
  }

  lemma CountByte(s: seq<bv8>, i: nat)
    requires i < |s|
    ensures CountBits(s, 8 * i + 8) == CountBits(s, 8 * i) + ByteCount(s[i])
  {
    hide CountBits, ByteBit, One;
    CountNext(s, i, 0);
    CountNext(s, i, 1);
    CountNext(s, i, 2);
    CountNext(s, i, 3);
    CountNext(s, i, 4);
    CountNext(s, i, 5);
    CountNext(s, i, 6);
    CountNext(s, i, 7);
  }

  lemma CountNext(s: seq<bv8>, i: nat, k: nat)
    requires i < |s| && k < 8
    ensures CountBits(s, 8 * i + k + 1) == CountBits(s, 8 * i + k) + One(ByteBit(s[i], k))
  {
    hide ByteBit;
    assert (8 * i + k) / 8 == i && (8 * i + k) % 8 == k;
  }

  /** The number a word stands for. */
  function Number(x: bv32): nat
    decreases x
  {
    if x == 0 then 0 else 1 + Number(x - 1)
  }

  function Plus(a: bv32, b: bv32): bv32 { a + b }

  function Less(b: bv32): bv32 { b - 1 }

  /** The sum does not wrap around. */
  predicate Fits(a: bv32, b: bv32) { a <= 0xFFFFFFFF - b }

  lemma PlusLess(a: bv32, b: bv32)
    requires Fits(a, b) && b != 0
    ensures Plus(a, b) != 0 && Less(Plus(a, b)) == Plus(a, Less(b)) && Fits(a, Less(b))
  {}

  lemma NumberSteps(x: bv32)
    ensures Number(x) == if x == 0 then 0 else 1 + Number(Less(x))
  {}

  lemma PlusZero(a: bv32)
    ensures Plus(a, 0) == a
  {}

  lemma {:induction false} NumberAdd(a: bv32, b: bv32)
    requires Fits(a, b)
    ensures Number(Plus(a, b)) == Number(a) + Number(b)
    decreases Number(b)
  {
    NumberSteps(b);
    NumberSteps(Plus(a, b));
    PlusZero(a);
    hide Number, Plus, Less, Fits;
    if b != 0 {
      PlusLess(a, b);
      NumberAdd(a, Less(b));
    }
  }

  /** The bits of the low byte of a word, added up. */
  function LowBits(x: bv32): bv32 {
    (x & 1) + ((x >> 1) & 1) + ((x >> 2) & 1) + ((x >> 3) & 1) + ((x >> 4) & 1) + ((x >> 5) & 1) + ((x >> 6) & 1)
      + ((x >> 7) & 1)
  }

  function Join(b0: bv32, b1: bv32, b2: bv32, b3: bv32): bv32 { b0 | (b1 << 8) | (b2 << 16) | (b3 << 24) }

  function Widen(b: bv8): bv32 { b as bv32 }

  /** Four bytes as one word. */
  function Load(b0: bv8, b1: bv8, b2: bv8, b3: bv8): bv32 { Join(Widen(b0), Widen(b1), Widen(b2), Widen(b3)) }

  function Pairs(x: bv32): bv32 { x - ((x >> 1) & 0x55555555) }

  function Fours(x: bv32): bv32 { (x & 0x33333333) + ((x >> 2) & 0x33333333) }

  function Bytewise(x: bv32): bv32 { (x + (x >> 4)) & 0x0F0F0F0F }

  function TopByte(x: bv32): bv32 { (x * 0x01010101) >> 24 }

  /** The parallel count of one word. */
  function Swar(x: bv32): bv32 {
    TopByte(Bytewise(Fours(Pairs(x))))
  }

  function Sum4(a: bv32, b: bv32, c: bv32, d: bv32): bv32 { Plus(Plus(a, b), Plus(c, d)) }

  predicate Small(x: bv32) { x <= 8 }

  function Part0(x: bv32): bv32 { x & 0xFF }

  function Part1(x: bv32): bv32 { (x >> 8) & 0xFF }

  function Part2(x: bv32): bv32 { (x >> 16) & 0xFF }

  function Part3(x: bv32): bv32 { x >> 24 }

  lemma Field0(x: bv32)
    ensures Part0(Bytewise(Fours(Pairs(x)))) == LowBits(Part0(x))
  {}

  lemma Field1(x: bv32)
    ensures Part1(Bytewise(Fours(Pairs(x)))) == LowBits(Part1(x))
  {}

  lemma Field2(x: bv32)
    ensures Part2(Bytewise(Fours(Pairs(x)))) == LowBits(Part2(x))
  {}

  lemma Field3(x: bv32)
    ensures Part3(Bytewise(Fours(Pairs(x)))) == LowBits(Part3(x))
  {}

  lemma Rejoin(y: bv32)
    ensures Join(Part0(y), Part1(y), Part2(y), Part3(y)) == y
  {}

  lemma ByteFields(x: bv32)
    ensures Bytewise(Fours(Pairs(x)))
      == Join(LowBits(Part0(x)), LowBits(Part1(x)), LowBits(Part2(x)), LowBits(Part3(x)))
  {
    Field0(x);
    Field1(x);
    Field2(x);
    Field3(x);
    Rejoin(Bytewise(Fours(Pairs(x))));
    hide LowBits, Pairs, Fours, Bytewise, Join, Part0, Part1, Part2, Part3;
  }

  lemma LoadedParts(b0: bv8, b1: bv8, b2: bv8, b3: bv8)
    ensures var x := Load(b0, b1, b2, b3);
      Part0(x) == Widen(b0) && Part1(x) == Widen(b1) && Part2(x) == Widen(b2) && Part3(x) == Widen(b3)
  {}

  lemma AddFields(a: bv32, b: bv32, c: bv32, d: bv32)
    requires Small(a) && Small(b) && Small(c) && Small(d)
    ensures TopByte(Join(a, b, c, d)) == Sum4(a, b, c, d)
  {}

  lemma LowBitsSmall(x: bv32)
    ensures Small(LowBits(x))
  {}

  /** The parallel count adds up the counts of the four bytes. */
  lemma SwarAdds(b0: bv8, b1: bv8, b2: bv8, b3: bv8)
    ensures Swar(Load(b0, b1, b2, b3))
      == Sum4(LowBits(Widen(b0)), LowBits(Widen(b1)), LowBits(Widen(b2)), LowBits(Widen(b3)))
  {
    hide LowBits, Load, Pairs, Fours, Bytewise, Join, TopByte, Small, Widen, Sum4, Part0, Part1, Part2, Part3;
    ByteFields(Load(b0, b1, b2, b3));
    LoadedParts(b0, b1, b2, b3);
    LowBitsSmall(Widen(b0));
    LowBitsSmall(Widen(b1));
    LowBitsSmall(Widen(b2));
    LowBitsSmall(Widen(b3));
    AddFields(LowBits(Widen(b0)), LowBits(Widen(b1)), LowBits(Widen(b2)), LowBits(Widen(b3)));
  }

  // ---------------------------------------------------------------- counts as numbers

  function Term(x: bv32, k: nat): bv32
    requires k < 8
  {
    match k
    case 0 => (x >> 7) & 1 case 1 => (x >> 6) & 1 case 2 => (x >> 5) & 1 case 3 => (x >> 4) & 1
    case 4 => (x >> 3) & 1 case 5 => (x >> 2) & 1 case 6 => (x >> 1) & 1 case _ => x & 1
  }

  lemma TermIsBit(b: bv8)
    ensures Term(Widen(b), 0) == (if b & 0x80 != 0 then 1 else 0)
      && Term(Widen(b), 1) == (if b & 0x40 != 0 then 1 else 0)
    ensures Term(Widen(b), 2) == (if b & 0x20 != 0 then 1 else 0)
      && Term(Widen(b), 3) == (if b & 0x10 != 0 then 1 else 0)
    ensures Term(Widen(b), 4) == (if b & 8 != 0 then 1 else 0) && Term(Widen(b), 5) == (if b & 4 != 0 then 1 else 0)
    ensures Term(Widen(b), 6) == (if b & 2 != 0 then 1 else 0) && Term(Widen(b), 7) == (if b & 1 != 0 then 1 else 0)
  {}

  lemma TermNumber(b: bv8, k: nat)
    requires k < 8
    ensures Number(Term(Widen(b), k)) == One(ByteBit(b, k))
  {
    TermIsBit(b);
    hide Number, Term, Widen;
    OneOrZero(Term(Widen(b), k), ByteBit(b, k));
  }

  lemma OneOrZero(x: bv32, one: bool)
    requires x == if one then 1 else 0
    ensures Number(x) == One(one)
  {
    assert Number(0) == 0 && Number(1) == 1;
  }

  function Sum8(t0: bv32, t1: bv32, t2: bv32, t3: bv32, t4: bv32, t5: bv32, t6: bv32, t7: bv32): bv32 {
    Plus(Plus(Plus(Plus(Plus(Plus(Plus(t7, t6), t5), t4), t3), t2), t1), t0)
  }

  predicate Bit(x: bv32) { x <= 1 }

  lemma SumFits(a: bv32, b: bv32, c: bv32, d: bv32, e: bv32, f: bv32, g: bv32, h: bv32)
    requires Bit(a) && Bit(b) && Bit(c) && Bit(d) && Bit(e) && Bit(f) && Bit(g) && Bit(h)
    ensures Fits(h, g) && Fits(Plus(h, g), f) && Fits(Plus(Plus(h, g), f), e) && Fits(Plus(Plus(Plus(h, g), f), e), d)
    ensures var s := Plus(Plus(Plus(Plus(h, g), f), e), d);
      Fits(s, c) && Fits(Plus(s, c), b) && Fits(Plus(Plus(s, c), b), a)
  {}

  lemma Sum8Number(a: bv32, b: bv32, c: bv32, d: bv32, e: bv32, f: bv32, g: bv32, h: bv32)
    requires Bit(a) && Bit(b) && Bit(c) && Bit(d) && Bit(e) && Bit(f) && Bit(g) && Bit(h)
    ensures Number(Sum8(a, b, c, d, e, f, g, h))
         == Number(a) + Number(b) + Number(c) + Number(d) + Number(e) + Number(f) + Number(g) + Number(h)
  {
    SumFits(a, b, c, d, e, f, g, h);
    hide Number, Plus, Fits, Bit;
    NumberAdd(h, g);
    var s := Plus(h, g);
    NumberAdd(s, f);
    s := Plus(s, f);
    NumberAdd(s, e);
    s := Plus(s, e);
    NumberAdd(s, d);
    s := Plus(s, d);
    NumberAdd(s, c);
    s := Plus(s, c);
    NumberAdd(s, b);
    s := Plus(s, b);
    NumberAdd(s, a);
  }

  lemma LowBitsAreTerms(w: bv32)
    ensures LowBits(w)
      == Sum8(Term(w, 0), Term(w, 1), Term(w, 2), Term(w, 3), Term(w, 4), Term(w, 5), Term(w, 6), Term(w, 7))
    ensures Bit(Term(w, 0)) && Bit(Term(w, 1)) && Bit(Term(w, 2)) && Bit(Term(w, 3))
    ensures Bit(Term(w, 4)) && Bit(Term(w, 5)) && Bit(Term(w, 6)) && Bit(Term(w, 7))
  {}

  lemma TermNumbers(b: bv8)
    ensures var w := Widen(b);
      ByteCount(b) == Number(Term(w, 0)) + Number(Term(w, 1)) + Number(Term(w, 2)) + Number(Term(w, 3))
                    + Number(Term(w, 4)) + Number(Term(w, 5)) + Number(Term(w, 6)) + Number(Term(w, 7))
  {
    hide Term, Number, ByteBit, Widen, One;
    TermNumber(b, 0);
    TermNumber(b, 1);
    TermNumber(b, 2);
    TermNumber(b, 3);
    TermNumber(b, 4);
    TermNumber(b, 5);
    TermNumber(b, 6);
    TermNumber(b, 7);
  }

  /** The added bits of a byte are its count. */
  lemma LowBitsNumber(b: bv8)
    ensures Number(LowBits(Widen(b))) == ByteCount(b)
  {
    var w := Widen(b);
    hide LowBits, Term, Number, Sum8, Bit, ByteCount, Widen;
    LowBitsAreTerms(w);
    Sum8Number(Term(w, 0), Term(w, 1), Term(w, 2), Term(w, 3), Term(w, 4), Term(w, 5), Term(w, 6), Term(w, 7));
    TermNumbers(b);
  }

  lemma FourFit(a: bv32, b: bv32, c: bv32, d: bv32)
    requires Small(a) && Small(b) && Small(c) && Small(d)
    ensures Fits(a, b) && Fits(c, d) && Fits(Plus(a, b), Plus(c, d))
  {}

  /** The parallel count of four bytes, as a number. */
  lemma SwarCounts(b0: bv8, b1: bv8, b2: bv8, b3: bv8)
    ensures Number(Swar(Load(b0, b1, b2, b3))) == ByteCount(b0) + ByteCount(b1) + ByteCount(b2) + ByteCount(b3)
  {
    SwarAdds(b0, b1, b2, b3);
    LowBitsNumber(b0);
    LowBitsNumber(b1);
    LowBitsNumber(b2);
    LowBitsNumber(b3);
    LowBitsSmall(Widen(b0));
    LowBitsSmall(Widen(b1));
    LowBitsSmall(Widen(b2));
    LowBitsSmall(Widen(b3));
    hide LowBits, Load, Swar, Widen, Number, Plus, Fits, Small, ByteCount;
    var a, b, c, d := LowBits(Widen(b0)), LowBits(Widen(b1)), LowBits(Widen(b2)), LowBits(Widen(b3));
    FourFit(a, b, c, d);
    NumberAdd(a, b);
    NumberAdd(c, d);
    NumberAdd(Plus(a, b), Plus(c, d));
  }
}
