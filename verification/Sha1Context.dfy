/** The SHA-1 code of sha1.c: a transform that keeps only sixteen words of the schedule and lets its five
    variables change roles instead of places, and a context fed in pieces of any sizes. */
module Sha1Context {
  import opened Sha1

  /** A word of the buffer as a little-endian machine loads it. */
  function Loaded(block: seq<bv8>, i: nat): bv32
    requires |block| == 64 && i < 16
  {
    BigEndian(block[4 * i + 3], block[4 * i + 2], block[4 * i + 1], block[4 * i])
  }

  function Rol8(x: bv32): bv32 { (x << 8) | (x >> 24) }

  function Rol24(x: bv32): bv32 { (x << 24) | (x >> 8) }

  /** blk0: two rotations and two masks. */
  function Swapped(l: bv32): bv32 {
    (Rol24(l) & 0xFF00FF00) | (Rol8(l) & 0x00FF00FF)
  }

  lemma SwapBytes(b0: bv8, b1: bv8, b2: bv8, b3: bv8)
    ensures Swapped(BigEndian(b3, b2, b1, b0)) == BigEndian(b0, b1, b2, b3)
  {}

  function MacroCh(w: bv32, x: bv32, y: bv32): bv32 { (w & (x ^ y)) ^ y }

  function MacroParity(w: bv32, x: bv32, y: bv32): bv32 { w ^ x ^ y }

  function MacroMaj(w: bv32, x: bv32, y: bv32): bv32 { ((w | x) & y) | (w & x) }

  /** The round functions of the macros R0 and R1, R2, R3, R4. */
  function MacroF(t: nat, w: bv32, x: bv32, y: bv32): bv32 {
    if t < 20 then MacroCh(w, x, y)
    else if t < 40 then MacroParity(w, x, y)
    else if t < 60 then MacroMaj(w, x, y)
    else MacroParity(w, x, y)
  }

  function MacroSum(z: bv32, f: bv32, x: bv32, k: bv32, v: bv32): bv32 { z + (f + x + k + v) }

  lemma ChoiceForms(x: bv32, y: bv32, z: bv32)
    ensures (x & (y ^ z)) ^ z == (x & y) ^ (!x & z)
  {}

  lemma MajorityForms(x: bv32, y: bv32, z: bv32)
    ensures ((x | y) & z) | (x & y) == (x & y) ^ (x & z) ^ (y & z)
  {}

  lemma ChoiceAgrees(x: bv32, y: bv32, z: bv32)
    ensures MacroCh(x, y, z) == Ch(x, y, z)
  {
    ChoiceForms(x, y, z);
  }

  lemma MajorityAgrees(x: bv32, y: bv32, z: bv32)
    ensures MacroMaj(x, y, z) == Maj(x, y, z)
  {
    MajorityForms(x, y, z);
  }

  lemma MacroFIsF(t: nat, w: bv32, x: bv32, y: bv32)
    ensures MacroF(t, w, x, y) == F(t, w, x, y)
  {
    ChoiceAgrees(w, x, y);
    MajorityAgrees(w, x, y);
    hide MacroCh, MacroMaj, Ch, Maj;
  }

  lemma SumOrder(z: bv32, f: bv32, x: bv32, k: bv32, v: bv32)
    ensures MacroSum(z, f, x, k, v) == Sum(v, f, z, k, x)
  {}

  /** The five variables, from the one that plays the first role on. */
  function Roles(r: seq<bv32>, p: nat): Words
    requires |r| == 5 && p < 5
  {
    Words(r[p], r[(p + 1) % 5], r[(p + 2) % 5], r[(p + 3) % 5], r[(p + 4) % 5])
  }

  /** The circular block with the first i words of the schedule worked in. */
  ghost predicate Circular(l: seq<bv32>, block: seq<bv8>, i: nat) {
    && |l| == 16 && |block| == 64
    && (forall t: nat :: t < i <= t + 16 ==> l[t % 16] == W(block, t))
    && forall j: nat :: i <= j < 16 ==> l[j] == Loaded(block, j)
  }

  /** blk0 and blk. */
  function NextWord(l: seq<bv32>, i: nat): bv32
    requires |l| == 16
  {
    if i < 16 then Swapped(l[i]) else Rol1(Xor(l[(i + 13) % 16], l[(i + 8) % 16], l[(i + 2) % 16], l[i % 16]))
  }

  lemma Distinct16(t: nat, i: nat)
    requires t < i < t + 16
    ensures t % 16 != i % 16
  {}

  lemma Behind16(i: nat)
    requires i >= 16
    ensures (i + 13) % 16 == (i - 3) % 16 && (i + 8) % 16 == (i - 8) % 16 && (i + 2) % 16 == (i - 14) % 16
      && i % 16 == (i - 16) % 16
  {
    Plus16(i - 3);
    Plus16(i - 8);
    Plus16(i - 14);
    Plus16(i - 16);
  }

  lemma Plus16(a: nat)
    ensures (a + 16) % 16 == a % 16
  {}

  lemma NextWordIsW(l: seq<bv32>, block: seq<bv8>, i: nat)
    requires Circular(l, block, i)
    ensures NextWord(l, i) == W(block, i)
  {
    if i < 16 {
      SwapBytes(block[4 * i], block[4 * i + 1], block[4 * i + 2], block[4 * i + 3]);
      assert l[i] == Loaded(block, i);
      hide Swapped, BigEndian;
    } else {
      Recurrence(block, i);
      Behind16(i);
      hide W, Rol1, Xor, Loaded;
      assert l[(i - 3) % 16] == W(block, i - 3);
      assert l[(i - 8) % 16] == W(block, i - 8);
      assert l[(i - 14) % 16] == W(block, i - 14);
      assert l[(i - 16) % 16] == W(block, i - 16);
    }
  }

  /** The sixteen words kept agree with the schedule of eighty. */
  lemma CircularStep(l: seq<bv32>, block: seq<bv8>, i: nat)
    requires Circular(l, block, i)
    ensures NextWord(l, i) == W(block, i) && Circular(l[i % 16 := NextWord(l, i)], block, i + 1)
  {
    NextWordIsW(l, block, i);
    var l' := l[i % 16 := NextWord(l, i)];
    hide W, NextWord, Loaded;
    forall t: nat | t < i + 1 <= t + 16 ensures l'[t % 16] == W(block, t) {
      if t < i { Distinct16(t, i); }
    }
  }

  lemma Recurrence(block: seq<bv8>, i: nat)
    requires |block| == 64 && i >= 16
    ensures W(block, i) == Rol1(Xor(W(block, i - 3), W(block, i - 8), W(block, i - 14), W(block, i - 16)))
  {}

  /** What one macro makes of the variables: z gets the sum, w is rotated. */
  function Played(r: seq<bv32>, p: nat, x: bv32, t: nat): (r': seq<bv32>)
    requires |r| == 5 && p < 5
    ensures |r'| == 5
  {
    var f := MacroF(t, r[(p + 1) % 5], r[(p + 2) % 5], r[(p + 3) % 5]);
    var z := MacroSum(r[(p + 4) % 5], f, x, K(t), Rol5(r[p]));
    r[(p + 4) % 5 := z][(p + 1) % 5 := Rol30(r[(p + 1) % 5])]
  }

  /** Five places, the roles of the last two of which are replaced, read from the last place on. */
  lemma RolesMove<T>(r: seq<T>, p: nat, z: T, w: T)
    requires |r| == 5 && p < 5
    ensures var r', q := r[(p + 4) % 5 := z][(p + 1) % 5 := w], (p + 4) % 5;
      && r'[q] == z && r'[(q + 1) % 5] == r[p] && r'[(q + 2) % 5] == w
      && r'[(q + 3) % 5] == r[(p + 2) % 5] && r'[(q + 4) % 5] == r[(p + 3) % 5]
  {
    if p == 0 {
    } else if p == 1 {
    } else if p == 2 {
    } else if p == 3 {
    } else {
      assert p == 4;
    }
  }

  /** After a macro the roles move on by one place, and the variables are those of the next round. */
  lemma RoundByRoles(r: seq<bv32>, p: nat, x: bv32, t: nat)
    requires |r| == 5 && p < 5
    ensures Roles(Played(r, p, x, t), (p + 4) % 5) == Round(Roles(r, p), x, t)
  {
    hide MacroF, F, K, Rol5, Rol30, MacroSum, Sum;
    var w, y0, y1, z := r[(p + 1) % 5], r[(p + 2) % 5], r[(p + 3) % 5], r[(p + 4) % 5];
    MacroFIsF(t, w, y0, y1);
    SumOrder(z, F(t, w, y0, y1), x, K(t), Rol5(r[p]));
    RolesMove(r, p, MacroSum(z, MacroF(t, w, y0, y1), x, K(t), Rol5(r[p])), Rol30(w));
  }

  // ---------------------------------------------------------------- lengths and pieces

  const WORD: nat := 0x1_0000_0000

  /** The bit count in two words, as SHA1Update adds to it. */
  lemma CountStep(c0: nat, c1: nat, len: nat, n: nat)
    requires c0 < WORD && c1 < WORD && len < WORD && c1 * WORD + c0 == 8 * n % (WORD * WORD)
    ensures var c0' := (c0 + len * 8 % WORD) % WORD;
      var c1' := ((if c0' < c0 then (c1 + 1) % WORD else c1) + len / 0x2000_0000) % WORD;
      c1' * WORD + c0' == 8 * (n + len) % (WORD * WORD)
  {
    var low, high := len * 8 % WORD, len / 0x2000_0000;
    assert len * 8 == high * WORD + low;
    var c0' := (c0 + low) % WORD;
    var carry := if c0' < c0 then 1 else 0;
    assert c0 + low == carry * WORD + c0';
    var q := 8 * n / (WORD * WORD);
    var sum := c1 + carry + high;
    var q' := sum / WORD;
    var c1' := sum % WORD;
    assert 8 * (n + len) == (q + q') * (WORD * WORD) + (c1' * WORD + c0');
    ModIs(8 * (n + len), q + q', c1' * WORD + c0');
    CarryOnce(c1, carry, high);
  }

  lemma CarryOnce(c1: nat, carry: nat, high: nat)
    requires c1 < WORD && carry <= 1
    ensures ((if carry == 1 then (c1 + 1) % WORD else c1) + high) % WORD == (c1 + carry + high) % WORD
  {}

  lemma ModIs(a: nat, q: nat, r: nat)
    requires a == q * (WORD * WORD) + r && r < WORD * WORD
    ensures a % (WORD * WORD) == r
  {}

  /** The position in the buffer, read off the bit count. */
  lemma PositionFromCount(c0: nat, c1: nat, n: nat)
    requires c0 < WORD && c1 < WORD && c1 * WORD + c0 == 8 * n % (WORD * WORD)
    ensures c0 / 8 % 64 == n % 64
  {
    var q := 8 * n / (WORD * WORD);
    var z := q * WORD + c1;
    assert 8 * n == z * WORD + c0;
    assert c0 == 8 * (n - 0x2000_0000 * z);
    Multiple64(n, 0x80_0000 * z, c0 / 8);
  }

  lemma Multiple64(n: nat, m: nat, d: nat)
    requires d == n - 64 * m
    ensures d % 64 == n % 64
  {}

  /** SHA1Update adds the length to the position in 32 bits to see whether a block is full. The test is right
      exactly when that sum does not wrap; otherwise a full block is taken for an unfinished one, and all of the data
      for the rest of the buffer, which it does not fit. At every position that means lengths up to 2^32 - 64. */
  lemma UpdateTestExact(j: nat, len: nat)
    requires j < 64 && len < WORD
    ensures (FullBlockTest(j, len) <==> j + len > 63) <==> j + len < WORD
    ensures j + len >= WORD ==> !FullBlockTest(j, len) && j + len > 64
    ensures (forall i: nat :: i < 64 ==> (FullBlockTest(i, len) <==> i + len > 63)) <==> len <= WORD - 64
  {
    if len > WORD - 64 { assert !FullBlockTest(WORD - len, len); }
  }

  /** The shortest data that is not recognised as a full block, at the last position of the buffer. */
  lemma UpdateTestFails()
    ensures !FullBlockTest(63, WORD - 63) && 63 + (WORD - 63) > 63
  {}

  predicate FullBlockTest(j: nat, len: nat) {
    (j + len) % WORD > 63
  }

  // ---------------------------------------------------------------- the context

  /** Cutting one block off what is still to be hashed. */
  lemma HashStep(h: Words, t: seq<bv8>, k: nat)
    requires k + 64 <= |t|
    ensures Hash(Compress(h, t[k..k + 64]), t[k + 64..]) == Hash(h, t[k..])
  {
    assert t[k..][..64] == t[k..k + 64] && t[k..][64..] == t[k + 64..];
    hide Compress;
  }

  /** A message that grows: its hash goes on from the bytes after the last whole block. */
  lemma HashGrows(m: seq<bv8>, data: seq<bv8>)
    ensures var r := |m| % 64;
      Hash(INITIAL, m + data) == Hash(Hash(INITIAL, m), m[|m| - r..] + data)
  {
    var n := |m| - |m| % 64;
    HashWhole(INITIAL, m);
    assert m + data == m[..n] + (m[n..] + data);
    HashAppend(INITIAL, m[..n], m[n..] + data);
  }

  /** The bytes after the last whole block of a longer message. */
  lemma RestGrows(m: seq<bv8>, data: seq<bv8>, t: seq<bv8>, k: nat)
    requires t == m[|m| - |m| % 64..] + data && k % 64 == 0 && k <= |t| < k + 64
    ensures |m + data| % 64 == |t| - k && (m + data)[|m + data| - (|t| - k)..] == t[k..]
  {
    var n := |m| - |m| % 64;
    assert m + data == m[..n] + t;
    assert (m[..n] + t)[n + k..] == t[k..];
  }

  lemma StartRounds(l: seq<bv32>, r: seq<bv32>, h: Words, block: seq<bv8>)
    requires |l| == 16 && |r| == 5 && |block| == 64 && forall j :: 0 <= j < 16 ==> l[j] == Loaded(block, j)
    requires Words(r[0], r[1], r[2], r[3], r[4]) == h
    ensures Circular(l, block, 0) && Roles(r, 0) == Rounds(h, block, 0)
  {
    hide Loaded, W;
  }

  lemma EndRounds(h: Words, block: seq<bv8>, r: seq<bv32>, p: nat)
    requires |block| == 64 && |r| == 5 && p < 5 && Roles(r, p) == Rounds(h, block, 80)
    ensures AddWords(h, Words(r[p], r[(p + 1) % 5], r[(p + 2) % 5], r[(p + 3) % 5], r[(p + 4) % 5]))
      == Compress(h, block)
  {
    hide Rounds, AddWords;
  }

  lemma NextRound(h: Words, block: seq<bv8>, i: nat)
    requires |block| == 64
    ensures Rounds(h, block, i + 1) == Round(Rounds(h, block, i), W(block, i), i)
  {}

  /** One of the eighty macros: a word of the schedule, then the variables. */
  method PlayRound(l: array<bv32>, r: array<bv32>, p: nat, i: nat, ghost block: seq<bv8>, ghost h: Words)
    requires r.Length == 5 && p < 5 && Circular(l[..], block, i) && Roles(r[..], p) == Rounds(h, block, i)
    requires l.Length == 16 && |block| == 64
    modifies l, r
    ensures Circular(l[..], block, i + 1) && Roles(r[..], (p + 4) % 5) == Rounds(h, block, i + 1)
  {
    hide *;
    CircularStep(l[..], block, i);
    RoundByRoles(r[..], p, NextWord(l[..], i), i);
    NextRound(h, block, i);
    var x := NextWord(l[..], i);
    ghost var was := r[..];
    Store(l, i % 16, x);
    assert r[..] == was;
    ghost var words := l[..];
    Play(r, p, x, i);
    assert l[..] == words;
  }

  method Store(l: array<bv32>, j: nat, x: bv32)
    requires j < l.Length
    modifies l
    ensures l[..] == old(l[..])[j := x]
  {
    l[j] := x;
  }

  /** z and w of one of the macros R0 to R4. */
  method Play(r: array<bv32>, p: nat, x: bv32, t: nat)
    requires r.Length == 5 && p < 5
    modifies r
    ensures r[..] == Played(old(r[..]), p, x, t)
  {
    hide MacroF, K, MacroSum, Rol5, Rol30;
    var f := MacroF(t, r[(p + 1) % 5], r[(p + 2) % 5], r[(p + 3) % 5]);
    r[(p + 4) % 5] := MacroSum(r[(p + 4) % 5], f, x, K(t), Rol5(r[p]));
    r[(p + 1) % 5] := Rol30(r[(p + 1) % 5]);
  }

  class Context {
    var state: Words
    var count0: nat
    var count1: nat
    const buffer: array<bv8>
    ghost var message: seq<bv8>

    /** The context of a message: the hash of its whole blocks, the rest of it, and its length in bits. */
    ghost predicate Valid()
      reads this, buffer
    {
      && buffer.Length == 64 && count0 < WORD && count1 < WORD
      && count1 * WORD + count0 == 8 * |message| % (WORD * WORD)
      && state == Hash(INITIAL, message)
      && buffer[..|message| % 64] == message[|message| - |message| % 64..]
    }

    /** SHA1Init */
    constructor ()
      ensures Valid() && message == [] && fresh(buffer)
    {
      state, count0, count1 := INITIAL, 0, 0;
      buffer := new bv8[64](_ => 0);
      message := [];
    }

    /** SHA1Transform */
    method Transform(block: seq<bv8>)
      requires |block| == 64
      modifies this`state
      ensures state == Compress(old(state), block)
    {
      ghost var h := state;
      var l := new bv32[16](i requires 0 <= i < 16 => Loaded(block, i));
      var r := new bv32[5];
      r[0], r[1], r[2], r[3], r[4] := state.a, state.b, state.c, state.d, state.e;
      var p: nat, i: nat := 0, 0;
      StartRounds(l[..], r[..], state, block);
      hide *;
      while i < 80
        invariant p < 5 && i <= 80 && Circular(l[..], block, i) && Roles(r[..], p) == Rounds(h, block, i)
        modifies l, r
      {
        PlayRound(l, r, p, i, block, h);
        p := (p + 4) % 5;
        i := i + 1;
      }
      EndRounds(h, block, r[..], p);
      state := AddWords(state, Words(r[p], r[(p + 1) % 5], r[(p + 2) % 5], r[(p + 3) % 5], r[(p + 4) % 5]));
    }

    /** The length part of SHA1Update: the position in the buffer. */
    method AddToCount(len: nat) returns (j: nat)
      requires len < WORD && Valid()
      modifies this`count0, this`count1
      ensures j == |message| % 64 && count0 < WORD && count1 < WORD
      ensures count1 * WORD + count0 == 8 * (|message| + len) % (WORD * WORD)
    {
      PositionFromCount(count0, count1, |message|);
      CountStep(count0, count1, len, |message|);
      j := count0;
      count0 := (count0 + len * 8 % WORD) % WORD;
      if count0 < j { count1 := (count1 + 1) % WORD; }
      count1 := (count1 + len / 0x2000_0000) % WORD;
      j := j / 8 % 64;
    }

    /** memcpy into the buffer. */
    method Copy(j: nat, data: seq<bv8>)
      requires j + |data| <= buffer.Length
      modifies buffer
      ensures buffer[..j + |data|] == old(buffer[..j]) + data
    {
      forall i | 0 <= i < |data| { buffer[j + i] := data[i]; }
    }

    /** SHA1Update, when the position and the length do not wrap around 32 bits together. */
    method Update(data: seq<bv8>)
      requires Valid() && |message| % 64 + |data| < WORD
      modifies this`state, this`count0, this`count1, this`message, buffer
      ensures Valid() && message == old(message) + data
    {
      hide *;
      ghost var m, h := message, state;
      ValidParts();
      var j := AddToCount(|data|);
      ghost var t := buffer[..j] + data;
      HashGrows(m, data);
      ghost var k;
      var i;
      i, j, k := HashBlocks(data, j, t, h);
      RestGrows(m, data, t, k);
      HashRest(state, t[k..]);
      Copy(j, data[i..]);
      message := m + data;
      BackInOrder();
    }

    lemma ValidParts()
      requires Valid()
      ensures buffer.Length == 64 && state == Hash(INITIAL, message)
      ensures buffer[..|message| % 64] == message[|message| - |message| % 64..]
    {}

    lemma BackInOrder()
      requires buffer.Length == 64 && count0 < WORD && count1 < WORD
      requires count1 * WORD + count0 == 8 * |message| % (WORD * WORD)
      requires state == Hash(INITIAL, message)
      requires buffer[..|message| % 64] == message[|message| - |message| % 64..]
      ensures Valid()
    {}

    /** The part of SHA1Update that hashes whole blocks: how many bytes of the data are used up, and where in
        the buffer the rest goes. */
    method HashBlocks(data: seq<bv8>, j: nat, ghost t: seq<bv8>, ghost h: Words) returns (i: nat, j': nat, ghost k: nat)
      requires buffer.Length == 64 && j < 64 && t == buffer[..j] + data && state == h && j + |data| < WORD
      modifies this`state, buffer
      ensures i <= |data| && k % 64 == 0 && k <= |t| < k + 64 && |t| - k == j' + (|data| - i)
      ensures t[k..] == buffer[..j'] + data[i..] && Hash(state, t[k..]) == Hash(h, t)
    {
      assert t[0..] == t;
      hide Hash, Compress;
      if !FullBlockTest(j, |data|) { return 0, j, 0; }
      i := 64 - j;
      Copy(j, data[..i]);
      assert buffer[..] == t[0..64];
      HashStep(state, t, 0);
      Transform(buffer[..]);
      i := Blocks(data, i, t, j, h);
      k := j + i;
      return i, 0, k;
    }

    /** The loop of SHA1Update over whole blocks of the data. */
    method Blocks(data: seq<bv8>, i0: nat, ghost t: seq<bv8>, ghost j: nat, ghost h: Words) returns (i: nat)
      requires j < 64 && |t| == j + |data| && t[j..] == data && i0 <= |data| && (j + i0) % 64 == 0
      requires Hash(state, t[j + i0..]) == Hash(h, t) && j + |data| < WORD
      modifies this`state
      ensures i0 <= i <= |data| < i + 64 && (j + i) % 64 == 0 && Hash(state, t[j + i..]) == Hash(h, t)
    {
      i := i0;
      hide Hash, Compress;
      while (i + 63) % WORD < |data|
        invariant i0 <= i <= |data| && (j + i) % 64 == 0 && Hash(state, t[j + i..]) == Hash(h, t)
      {
        HashStep(state, t, j + i);
        assert data[i..i + 64] == t[j + i..j + i + 64];
        Transform(data[i..i + 64]);
        i := i + 64;
      }
    }

    /** SHA1Final: the padding goes through SHA1Update like any data. */
    method Final() returns (digest: seq<bv8>)
      requires Valid() && |message| < 0x2000_0000_0000_0000
      modifies this, buffer
      ensures digest == MessageDigest(old(message))
    {
      ghost var m := message;
      var finalcount := FinalCount();
      assert |finalcount| == 8;
      Update([0x80]);
      PadZeros(m);
      Update(finalcount);
      PaddedWhole(m, finalcount);
      hide Hash, NumberBytes, MessageDigest, Digest;
      assert state == Hash(INITIAL, message);
      digest := DigestBytes();
    }

    /** The loop of SHA1Final. */
    method PadZeros(ghost m: seq<bv8>)
      requires Valid() && message == m + [0x80]
      modifies this`state, this`count0, this`count1, this`message, buffer
      ensures Valid() && message == m + [0x80] + Zeros(ZeroCount(|m|))
    {
      ghost var n: nat := 0;
      assert m + [0x80] + Zeros(0) == m + [0x80];
      CountIsPosition();
      ZeroCountSteps(m, n);
      assert ZeroCount(|m|) >= 0;
      hide *;
      while count0 / 8 % 64 != 56
        invariant Valid() && n <= ZeroCount(|m|) && message == m + [0x80] + Zeros(n)
        invariant count0 / 8 % 64 == 56 <==> n == ZeroCount(|m|)
        decreases ZeroCount(|m|) - n
      {
        PadZero(m, n);
        n := n + 1;
      }
    }

    method PadZero(ghost m: seq<bv8>, ghost n: nat)
      requires Valid() && n < ZeroCount(|m|) && message == m + [0x80] + Zeros(n)
      modifies this`state, this`count0, this`count1, this`message, buffer
      ensures Valid() && message == m + [0x80] + Zeros(n + 1)
      ensures count0 / 8 % 64 == 56 <==> n + 1 == ZeroCount(|m|)
    {
      assert |message| % 64 + |[0]| < WORD;
      hide *;
      Update([0]);
      OneMoreZero(m, n);
      CountIsPosition();
      ZeroCountSteps(m, n + 1);
      assert |message| == |m| + 1 + (n + 1);
    }

    lemma CountIsPosition()
      requires Valid()
      ensures count0 / 8 % 64 == |message| % 64
    {
      PositionFromCount(count0, count1, |message|);
    }

    /** The bit count, most significant byte first. */
    method FinalCount() returns (finalcount: seq<bv8>)
      requires Valid() && |message| < 0x2000_0000_0000_0000
      ensures finalcount == NumberBytes(8 * |message| / WORD) + NumberBytes(8 * |message| % WORD)
    {
      CountParts(count0, count1, |message|);
      finalcount := NumberBytes(count1) + NumberBytes(count0);
    }

    /** The loop that writes the state out. */
    method DigestBytes() returns (digest: seq<bv8>)
      ensures digest == Digest(state)
    {
      var words := [state.a, state.b, state.c, state.d, state.e];
      digest := [];
      var i := 0;
      hide WordBytes;
      while i < 20
        invariant i <= 20 && |digest| == i && forall k :: 0 <= k < i ==> digest[k] == WordBytes(words[k / 4])[k % 4]
      {
        digest := digest + [WordBytes(words[i / 4])[i % 4]];
        i := i + 1;
      }
      TwentyBytes(digest, words);
    }
  }

  lemma OneMoreZero(m: seq<bv8>, n: nat)
    ensures m + [0x80] + Zeros(n) + [0] == m + [0x80] + Zeros(n + 1)
  {
    assert Zeros(n + 1) == Zeros(n) + [0];
  }

  lemma FourBytes(d: seq<bv8>, w: seq<bv32>, j: nat)
    requires |d| == 20 && |w| == 5 && j < 5 && forall k :: 0 <= k < 20 ==> d[k] == WordBytes(w[k / 4])[k % 4]
    ensures d[4 * j..4 * j + 4] == WordBytes(w[j])
  {
    hide WordBytes;
    forall b | 0 <= b < 4 ensures d[4 * j + b] == WordBytes(w[j])[b] {
      assert (4 * j + b) / 4 == j && (4 * j + b) % 4 == b;
    }
  }

  lemma FiveWordsMakeWhole<T>(d: seq<T>)
    requires |d| == 20
    ensures d == d[0..4] + d[4..8] + d[8..12] + d[12..16] + d[16..20]
  {}

  lemma TwentyBytes(d: seq<bv8>, w: seq<bv32>)
    requires |d| == 20 && |w| == 5 && forall k :: 0 <= k < 20 ==> d[k] == WordBytes(w[k / 4])[k % 4]
    ensures d == WordBytes(w[0]) + WordBytes(w[1]) + WordBytes(w[2]) + WordBytes(w[3]) + WordBytes(w[4])
  {
    hide WordBytes;
    FourBytes(d, w, 0);
    FourBytes(d, w, 1);
    FourBytes(d, w, 2);
    FourBytes(d, w, 3);
    FourBytes(d, w, 4);
    FiveWordsMakeWhole(d);
  }

  lemma CountParts(c0: nat, c1: nat, n: nat)
    requires c0 < WORD && c1 < WORD && c1 * WORD + c0 == 8 * n % (WORD * WORD) && n < 0x2000_0000_0000_0000
    ensures c1 == 8 * n / WORD && c0 == 8 * n % WORD
  {
    assert 8 * n % (WORD * WORD) == 8 * n;
  }

  /** Zero bytes are added until 56 bytes are in the buffer. */
  lemma ZeroCountSteps(m: seq<bv8>, n: nat)
    requires n <= ZeroCount(|m|)
    ensures (|m| + 1 + n) % 64 == 56 <==> n == ZeroCount(|m|)
  {}

  lemma PaddedWhole(m: seq<bv8>, length: seq<bv8>)
    requires |m| < 0x2000_0000_0000_0000 && length == NumberBytes(8 * |m| / WORD) + NumberBytes(8 * |m| % WORD)
    ensures MessageDigest(m) == Digest(Hash(INITIAL, m + [0x80] + Zeros(ZeroCount(|m|)) + length))
  {}

  lemma HashRest(h: Words, rest: seq<bv8>)
    requires |rest| < 64
    ensures Hash(h, rest) == h
  {}
}
