/** redisPopcount, redisBitpos and the computation of bitopCommand in their own form. */
module BitStrings {
  import opened BitOps

  lemma CountWord(s: seq<bv8>, i: nat)
    requires i + 4 <= |s|
    ensures CountBits(s, 8 * (i + 4)) == CountBits(s, 8 * i) + Number(Swar(Load(s[i], s[i + 1], s[i + 2], s[i + 3])))
  {
    hide CountBits, ByteCount, Number, Swar, Load;
    CountByte(s, i);
    CountByte(s, i + 1);
    CountByte(s, i + 2);
    CountByte(s, i + 3);
    SwarCounts(s[i], s[i + 1], s[i + 2], s[i + 3]);
  }

  predicate AtMost32(x: bv32) { x <= 32 }

  lemma SwarBound(b0: bv8, b1: bv8, b2: bv8, b3: bv8)
    ensures AtMost32(Swar(Load(b0, b1, b2, b3)))
  {
    SwarAdds(b0, b1, b2, b3);
    LowBitsSmall(Widen(b0));
    LowBitsSmall(Widen(b1));
    LowBitsSmall(Widen(b2));
    LowBitsSmall(Widen(b3));
    hide LowBits, Load, Swar, Widen;
  }

  lemma FourCountsFit(a: bv32, b: bv32, c: bv32, d: bv32)
    requires AtMost32(a) && AtMost32(b) && AtMost32(c) && AtMost32(d)
    ensures Fits(a, b) && Fits(Plus(a, b), c) && Fits(Plus(Plus(a, b), c), d)
  {}

  /** Sixteen bytes: four words counted in parallel and added in 32 bits. */
  function Sixteen(s: seq<bv8>, i: nat): bv32
    requires i + 16 <= |s|
  {
    var a, b := Swar(Load(s[i], s[i + 1], s[i + 2], s[i + 3])), Swar(Load(s[i + 4], s[i + 5], s[i + 6], s[i + 7]));
    var c, d := Swar(Load(s[i + 8], s[i + 9], s[i + 10], s[i + 11])),
      Swar(Load(s[i + 12], s[i + 13], s[i + 14], s[i + 15]));
    Plus(Plus(Plus(a, b), c), d)
  }

  lemma CountSixteen(s: seq<bv8>, i: nat)
    requires i + 16 <= |s|
    ensures CountBits(s, 8 * (i + 16)) == CountBits(s, 8 * i) + Number(Sixteen(s, i))
  {
    hide CountBits, Number, Swar, Load, Plus, Fits, AtMost32;
    CountWord(s, i);
    CountWord(s, i + 4);
    CountWord(s, i + 8);
    CountWord(s, i + 12);
    SwarBound(s[i], s[i + 1], s[i + 2], s[i + 3]);
    SwarBound(s[i + 4], s[i + 5], s[i + 6], s[i + 7]);
    SwarBound(s[i + 8], s[i + 9], s[i + 10], s[i + 11]);
    SwarBound(s[i + 12], s[i + 13], s[i + 14], s[i + 15]);
    var a, b := Swar(Load(s[i], s[i + 1], s[i + 2], s[i + 3])), Swar(Load(s[i + 4], s[i + 5], s[i + 6], s[i + 7]));
    var c, d := Swar(Load(s[i + 8], s[i + 9], s[i + 10], s[i + 11])),
      Swar(Load(s[i + 12], s[i + 13], s[i + 14], s[i + 15]));
    FourCountsFit(a, b, c, d);
    NumberAdd(a, b);
    NumberAdd(Plus(a, b), c);
    NumberAdd(Plus(Plus(a, b), c), d);
  }

  /** redisPopcount of a string at an address: single bytes up to a multiple of four, sixteen bytes at a time, and
      the bytes that are left. */
  method Popcount(s: seq<bv8>, address: nat) returns (bits: nat)
    ensures bits == CountBits(s, 8 * |s|)
  {
    hide CountBits, Sixteen, Number, ByteCount;
    CountNothing(s);
    var i: nat, count: nat := 0, |s|;
    bits := 0;
    while (address + i) % 4 != 0 && count > 0
      invariant i + count == |s| && bits == CountBits(s, 8 * i)
      decreases count
    {
      CountByte(s, i);
      bits := bits + ByteCount(s[i]);
      i, count := i + 1, count - 1;
    }
    while count >= 16
      invariant i + count == |s| && bits == CountBits(s, 8 * i)
    {
      CountSixteen(s, i);
      bits := bits + Number(Sixteen(s, i));
      i, count := i + 16, count - 16;
    }
    while count > 0
      invariant i + count == |s| && bits == CountBits(s, 8 * i)
    {
      CountByte(s, i);
      bits := bits + ByteCount(s[i]);
      i, count := i + 1, count - 1;
    }
  }

  lemma CountNothing(s: seq<bv8>)
    ensures CountBits(s, 0) == 0
  {}

  // ---------------------------------------------------------------- the first bit of a kind

  /** No bit of this kind before position n. */
  ghost predicate NoneBefore(s: seq<bv8>, bit: bool, n: nat) {
    n <= 8 * |s| && forall k :: 0 <= k < n ==> BitAt(s, k) != bit
  }

  function SkipByte(bit: bool): bv8 {
    if bit then 0 else 0xFF
  }

  lemma SkippedBits(bit: bool, k: nat)
    requires k < 8
    ensures ByteBit(SkipByte(bit), k) != bit
  {}

  lemma SkipBytes(s: seq<bv8>, bit: bool, i: nat, n: nat)
    requires NoneBefore(s, bit, 8 * i) && i + n <= |s| && forall j :: i <= j < i + n ==> s[j] == SkipByte(bit)
    ensures NoneBefore(s, bit, 8 * (i + n))
  {
    hide ByteBit, SkipByte;
    forall k | 8 * i <= k < 8 * (i + n) ensures BitAt(s, k) != bit {
      assert i <= k / 8 < i + n;
      SkippedBits(bit, k % 8);
    }
  }

  /** Eight bytes of the string from i on, zeros past its end: the word that is scanned. */
  function Loaded(s: seq<bv8>, i: nat): (w: seq<bv8>)
    requires i <= |s|
    ensures |w| == 8 && forall j :: 0 <= j < 8 ==> w[j] == if i + j < |s| then s[i + j] else 0
  {
    seq(8, j requires 0 <= j < 8 => if i + j < |s| then s[i + j] else 0)
  }

  lemma LoadedBit(s: seq<bv8>, i: nat, k: nat)
    requires i <= |s| && k < 64
    ensures BitAt(Loaded(s, i), k) == if 8 * i + k < 8 * |s| then BitAt(s, 8 * i + k) else false
  {
    assert (8 * i + k) / 8 == i + k / 8 && (8 * i + k) % 8 == k % 8;
    ZeroBits(k % 8);
    hide ByteBit;
  }

  lemma ZeroBits(k: nat)
    requires k < 8
    ensures !ByteBit(0, k)
  {}

  /** A byte that is not skipped has a bit of the wanted kind. */
  lemma KeptByte(b: bv8, bit: bool)
    requires b != SkipByte(bit)
    ensures exists k :: 0 <= k < 8 && ByteBit(b, k) == bit
  {
    if forall k :: 0 <= k < 8 ==> ByteBit(b, k) != bit {
      assert ByteBit(b, 0) != bit && ByteBit(b, 1) != bit && ByteBit(b, 2) != bit && ByteBit(b, 3) != bit;
      assert ByteBit(b, 4) != bit && ByteBit(b, 5) != bit && ByteBit(b, 6) != bit && ByteBit(b, 7) != bit;
      EightBits(b);
    }
  }

  lemma EightBits(b: bv8)
    ensures b != 0 ==>
      ByteBit(b, 0) || ByteBit(b, 1) || ByteBit(b, 2) || ByteBit(b, 3) || ByteBit(b, 4) || ByteBit(b, 5)
        || ByteBit(b, 6) || ByteBit(b, 7)
    ensures b != 0xFF ==>
      !(ByteBit(b, 0) && ByteBit(b, 1) && ByteBit(b, 2) && ByteBit(b, 3) && ByteBit(b, 4) && ByteBit(b, 5)
        && ByteBit(b, 6) && ByteBit(b, 7))
  {}

  /** Some bit of the word is of the wanted kind. */
  ghost predicate SomeBit(w: seq<bv8>, bit: bool, from: nat) {
    |w| == 8 && exists k :: from <= k < 64 && BitAt(w, k) == bit
  }

  /** In the loaded word: a byte that stopped the skipping, or the zero after the end of the string. */
  lemma WordHasBit(s: seq<bv8>, bit: bool, i: nat)
    requires i <= |s|
    requires if |s| - i < 8 then !bit || (exists j :: i <= j < |s| && s[j] != 0)
             else exists j :: i <= j < i + 8 && s[j] != SkipByte(bit)
    ensures SomeBit(Loaded(s, i), bit, 0)
  {
    if |s| - i < 8 && !bit {
      LoadedBit(s, i, 8 * (|s| - i));
    } else {
      var j :| i <= j < i + 8 && j < |s| && s[j] != SkipByte(bit);
      KeptByte(s[j], bit);
      var k :| 0 <= k < 8 && ByteBit(s[j], k) == bit;
      hide ByteBit;
      var n := 8 * (j - i) + k;
      LoadedBit(s, i, n);
      assert (8 * i + n) / 8 == j && (8 * i + n) % 8 == k;
    }
  }

  /** The scanned word decides: the bit found in it is the first of its kind in the string. */
  lemma FoundInWord(s: seq<bv8>, bit: bool, i: nat, j: nat)
    requires i <= |s| && NoneBefore(s, bit, 8 * i) && j < 64 && BitAt(Loaded(s, i), j) == bit
    requires forall k :: 0 <= k < j ==> BitAt(Loaded(s, i), k) != bit
    ensures FirstBit(s, bit, 8 * i + j)
  {
    hide BitAt;
    if 8 * i + j > 8 * |s| { LoadedBit(s, i, 8 * |s| - 8 * i); }
    LoadedBit(s, i, j);
    var n := if 8 * i + j < 8 * |s| then 8 * i + j else 8 * |s|;
    forall k | 0 <= k < n ensures BitAt(s, k) != bit {
      if k >= 8 * i { LoadedBit(s, i, k - 8 * i); }
    }
  }

  /** What redisBitpos promises: the position of the first bit of the kind; past the end a zero, but no one. */
  ghost predicate FirstBit(s: seq<bv8>, bit: bool, pos: int) {
    if pos == -1 then bit && NoneBefore(s, bit, 8 * |s|)
    else 0 <= pos && NoneBefore(s, bit, pos) && if pos < 8 * |s| then BitAt(s, pos) == bit else !bit
  }

  /** One string has only one such position. */
  lemma FirstBitIsUnique(s: seq<bv8>, bit: bool, p: int, q: int)
    requires FirstBit(s, bit, p) && FirstBit(s, bit, q)
    ensures p == q
  {
    hide BitAt;
  }

  /** redisBitpos of a string at an address: bytes up to a word boundary, whole words, then the bits of one word. */
  method Bitpos(s: seq<bv8>, address: nat, bit: bool) returns (pos: int)
    ensures FirstBit(s, bit, pos)
  {
    hide BitAt;
    var skipval := SkipByte(bit);
    var i: nat := 0;
    while (address + i) % 8 != 0 && i < |s| && s[i] == skipval
      invariant i <= |s| && NoneBefore(s, bit, 8 * i)
      decreases |s| - i
    {
      SkipBytes(s, bit, i, 1);
      i := i + 1;
    }
    while |s| - i >= 8 && s[i..i + 8] == seq(8, _ => skipval)
      invariant i <= |s| && NoneBefore(s, bit, 8 * i)
      decreases |s| - i
    {
      assert forall j :: i <= j < i + 8 ==> s[j] == s[i..i + 8][j - i];
      SkipBytes(s, bit, i, 8);
      i := i + 8;
    }
    if |s| - i >= 8 { WordDiffers(s, i, skipval); }
    pos := ScanWord(s, i, bit);
  }

  lemma WordDiffers(s: seq<bv8>, i: nat, v: bv8)
    requires i + 8 <= |s|
    ensures s[i..i + 8] == seq(8, _ => v) || exists j :: i <= j < i + 8 && s[j] != v
  {
    if forall j :: i <= j < i + 8 ==> s[j] == v { assert s[i..i + 8] == seq(8, _ => v); }
  }

  /** The end of redisBitpos; the source's panic after its loop is never reached. */
  method ScanWord(s: seq<bv8>, i: nat, bit: bool) returns (pos: int)
    requires i <= |s| && NoneBefore(s, bit, 8 * i)
    requires |s| - i >= 8 ==> exists j :: i <= j < i + 8 && s[j] != SkipByte(bit)
    ensures FirstBit(s, bit, pos)
  {
    hide BitAt;
    var word := Loaded(s, i);
    if bit && word == [0, 0, 0, 0, 0, 0, 0, 0] {
      assert forall j :: i <= j < i + 8 && j < |s| ==> s[j] == word[j - i];
      SkipBytes(s, bit, i, |s| - i);
      return -1;
    }
    if |s| - i < 8 && bit {
      NonZeroByte(s, i);
    }
    WordHasBit(s, bit, i);
    var j: nat := 0;
    while BitAt(word, j) != bit
      invariant j < 64 && SomeBit(word, bit, j) && forall k :: 0 <= k < j ==> BitAt(word, k) != bit
      decreases 64 - j
    {
      j := j + 1;
    }
    FoundInWord(s, bit, i, j);
    return 8 * i + j;
  }

  lemma NonZeroByte(s: seq<bv8>, i: nat)
    requires i <= |s| && Loaded(s, i) != [0, 0, 0, 0, 0, 0, 0, 0]
    ensures exists j :: i <= j < |s| && s[j] != 0
  {
    var w := Loaded(s, i);
    var j :| 0 <= j < 8 && w[j] != 0;
    assert s[i + j] != 0;
  }

  // ---------------------------------------------------------------- combining strings

  datatype Op = And | Or | Xor | Not

  function Apply(op: Op, x: bv8, y: bv8): bv8 {
    match op case And => x & y case Or => x | y case Xor => x ^ y case Not => x
  }

  function Inverted(x: bv8): bv8 { !x }

  function ByteAt(s: seq<bv8>, j: nat): bv8 {
    if j < |s| then s[j] else 0
  }

  /** Byte j of the result for the first n strings. */
  function Combine(op: Op, srcs: seq<seq<bv8>>, j: nat, n: nat): bv8
    requires 1 <= n <= |srcs|
  {
    if n == 1 then if op == Not then Inverted(ByteAt(srcs[0], j)) else ByteAt(srcs[0], j)
    else Apply(op, Combine(op, srcs, j, n - 1), ByteAt(srcs[n - 1], j))
  }

  function PaddedBit(s: seq<bv8>, k: nat): bool {
    if k < 8 * |s| then BitAt(s, k) else false
  }

  function ApplyBit(op: Op, x: bool, y: bool): bool {
    match op case And => x && y case Or => x || y case Xor => x != y case Not => x
  }

  /** The operation bit by bit on strings padded with zeros. */
  function CombineBits(op: Op, srcs: seq<seq<bv8>>, k: nat, n: nat): bool
    requires 1 <= n <= |srcs|
  {
    if n == 1 then if op == Not then !PaddedBit(srcs[0], k) else PaddedBit(srcs[0], k)
    else ApplyBit(op, CombineBits(op, srcs, k, n - 1), PaddedBit(srcs[n - 1], k))
  }

  predicate OneBit(m: bv8) { m != 0 && m & (m - 1) == 0 }

  lemma MaskLaws(x: bv8, y: bv8, m: bv8)
    requires OneBit(m)
    ensures (x & y) & m != 0 <==> x & m != 0 && y & m != 0
    ensures (x | y) & m != 0 <==> x & m != 0 || y & m != 0
    ensures (x ^ y) & m != 0 <==> (x & m != 0) != (y & m != 0)
    ensures Inverted(x) & m != 0 <==> x & m == 0
  {}

  lemma MaskIsOneBit(k: nat)
    requires k < 8
    ensures OneBit(Mask(k))
  {}

  lemma ApplyBitwise(op: Op, x: bv8, y: bv8, k: nat)
    requires k < 8
    ensures ByteBit(Apply(op, x, y), k) == ApplyBit(op, ByteBit(x, k), ByteBit(y, k))
    ensures ByteBit(Inverted(x), k) == !ByteBit(x, k)
  {
    MaskIsOneBit(k);
    MaskLaws(x, y, Mask(k));
    hide Mask, OneBit, Inverted;
  }

  lemma PaddedByteBit(s: seq<bv8>, j: nat, k: nat)
    requires k < 8
    ensures ByteBit(ByteAt(s, j), k) == PaddedBit(s, 8 * j + k)
  {
    ZeroBits(k);
    assert (8 * j + k) / 8 == j && (8 * j + k) % 8 == k;
    hide ByteBit;
  }

  /** Combining bytes is combining their bits. */
  lemma {:induction false} CombineIsBitwise(op: Op, srcs: seq<seq<bv8>>, j: nat, n: nat, k: nat)
    requires 1 <= n <= |srcs| && k < 8
    ensures ByteBit(Combine(op, srcs, j, n), k) == CombineBits(op, srcs, 8 * j + k, n)
  {
    PaddedByteBit(srcs[n - 1], j, k);
    ApplyBitwise(op, ByteAt(srcs[n - 1], j), 0, k);
    hide ByteBit, Apply, ByteAt, PaddedBit, ApplyBit, Inverted;
    if n > 1 {
      CombineIsBitwise(op, srcs, j, n - 1, k);
      ApplyBitwise(op, Combine(op, srcs, j, n - 1), ByteAt(srcs[n - 1], j), k);
    }
  }

  /** Bytes from..to of the result are those of the first n strings combined. */
  ghost predicate Combined(res: seq<bv8>, op: Op, srcs: seq<seq<bv8>>, from: nat, to: nat, n: nat) {
    1 <= n <= |srcs| && to <= |res| && forall j :: from <= j < to ==> res[j] == Combine(op, srcs, j, n)
  }

  method Lengths(srcs: seq<seq<bv8>>) returns (maxlen: nat, minlen: nat)
    requires srcs != []
    ensures forall i :: 0 <= i < |srcs| ==> minlen <= |srcs[i]| <= maxlen
    ensures exists i :: 0 <= i < |srcs| && |srcs[i]| == maxlen
  {
    maxlen, minlen := |srcs[0]|, |srcs[0]|;
    for j := 1 to |srcs|
      invariant forall i :: 0 <= i < j ==> minlen <= |srcs[i]| <= maxlen
      invariant exists i :: 0 <= i < j && |srcs[i]| == maxlen
    {
      if |srcs[j]| > maxlen { maxlen := |srcs[j]|; }
      if |srcs[j]| < minlen { minlen := |srcs[j]|; }
    }
  }

  /** Four words, 32 bytes, of one more string worked into the result. */
  method WordStep(res: array<bv8>, op: Op, srcs: seq<seq<bv8>>, j: nat, n: nat)
    requires 1 <= n < |srcs| && j + 32 <= res.Length && j + 32 <= |srcs[n]| && Combined(res[..], op, srcs, j, j + 32, n)
    modifies res
    ensures Combined(res[..], op, srcs, j, j + 32, n + 1)
    ensures forall k :: 0 <= k < res.Length && !(j <= k < j + 32) ==> res[k] == old(res[k])
  {
    hide Apply;
    forall k | j <= k < j + 32 { res[k] := Apply(op, res[k], srcs[n][k]); }
  }

  /** One turn of the unrolled loops: four words of all strings. */
  method WordTurn(res: array<bv8>, op: Op, srcs: seq<seq<bv8>>, j: nat)
    requires srcs != [] && (op == Not ==> |srcs| == 1) && j + 32 <= res.Length
    requires forall i :: 0 <= i < |srcs| ==> j + 32 <= |srcs[i]|
    requires forall k :: j <= k < j + 32 ==> res[k] == srcs[0][k]
    modifies res
    ensures Combined(res[..], op, srcs, j, j + 32, |srcs|)
    ensures forall k :: 0 <= k < res.Length && !(j <= k < j + 32) ==> res[k] == old(res[k])
  {
    if op == Not {
      forall k | j <= k < j + 32 { res[k] := Inverted(res[k]); }
      return;
    }
    assert Combined(res[..], op, srcs, j, j + 32, 1);
    hide Combined;
    var i := 1;
    while i < |srcs|
      invariant 1 <= i <= |srcs| && Combined(res[..], op, srcs, j, j + 32, i)
      invariant forall k :: 0 <= k < res.Length && !(j <= k < j + 32) ==> res[k] == old(res[k])
    {
      WordStep(res, op, srcs, j, i);
      i := i + 1;
    }
  }

  /** The vanilla algorithm for one byte. */
  method ByteLoop(op: Op, srcs: seq<seq<bv8>>, j: nat) returns (output: bv8)
    requires srcs != [] && (op == Not ==> |srcs| == 1)
    ensures output == Combine(op, srcs, j, |srcs|)
  {
    hide Apply;
    output := if |srcs[0]| <= j then 0 else srcs[0][j];
    if op == Not { output := Inverted(output); }
    var i := 1;
    while i < |srcs|
      invariant 1 <= i <= |srcs| && output == Combine(op, srcs, j, i)
    {
      var byte := if |srcs[i]| <= j then 0 else srcs[i][j];
      output := Apply(op, output, byte);
      i := i + 1;
    }
  }

  /** The computation of bitopCommand: words as long as every string has them, then bytes. */
  method Bitop(op: Op, srcs: seq<seq<bv8>>) returns (r: seq<bv8>)
    requires srcs != [] && (op == Not ==> |srcs| == 1)
    ensures forall i :: 0 <= i < |srcs| ==> |srcs[i]| <= |r|
    ensures exists i :: 0 <= i < |srcs| && |srcs[i]| == |r|
    ensures forall j :: 0 <= j < |r| ==> r[j] == Combine(op, srcs, j, |srcs|)
  {
    var maxlen, minlen := Lengths(srcs);
    var res := new bv8[maxlen](_ => 0);
    var j: nat := 0;
    hide Combine;
    if minlen > 0 && |srcs| <= 16 {
      j := FastPath(res, op, srcs, minlen);
    }
    while j < maxlen
      invariant j <= maxlen && Combined(res[..], op, srcs, 0, j, |srcs|)
    {
      var output := ByteLoop(op, srcs, j);
      res[j] := output;
      j := j + 1;
    }
    r := res[..];
  }

  method FastPath(res: array<bv8>, op: Op, srcs: seq<seq<bv8>>, minlen0: nat) returns (j: nat)
    requires srcs != [] && (op == Not ==> |srcs| == 1) && forall i :: 0 <= i < |srcs| ==> minlen0 <= |srcs[i]|
    requires minlen0 <= res.Length
    modifies res
    ensures j <= minlen0 && Combined(res[..], op, srcs, 0, j, |srcs|)
  {
    forall k | 0 <= k < minlen0 { res[k] := srcs[0][k]; }
    var minlen := minlen0;
    j := 0;
    hide Combine;
    while minlen >= 32
      invariant j + minlen == minlen0 && Combined(res[..], op, srcs, 0, j, |srcs|)
      invariant forall k :: j <= k < minlen0 ==> res[k] == srcs[0][k]
    {
      WordTurn(res, op, srcs, j);
      j := j + 32;
      minlen := minlen - 32;
    }
  }
}
