/** The two register encodings of hyperloglog.c at byte level. Bytes are the integers below 256;
    `b & 63` is `b % 64`, `b >> k` divides by a power of two, and an `|` of disjoint bits is a sum. */
module HllCodec {

  import opened Bytes

  const REGISTERS: nat := 16384
  const DENSE_BYTES: nat := 12288

  /** 2^k */
  function Shift(k: nat): (p: nat)
    requires k <= 8
    ensures p > 0
  {
    if k == 0 then 1 else if k == 2 then 4 else if k == 4 then 16 else if k == 6 then 64 else if k == 8 then 256
    else if k == 1 then 2 else if k == 3 then 8 else if k == 5 then 32 else 128
  }

  // ---------------------------------------------------------------- dense: six bits per register

  /** `x >> k` and `x & (m - 1)` for m = 2^k. */
  function Hi(x: nat, m: nat): nat
    requires m > 0
  {
    x / m
  }

  function Lo(x: nat, m: nat): (l: nat)
    requires m > 0
    ensures l < m
  {
    x % m
  }

  /** The six bits from bit fb of b0 on, continued in b1. */
  function GetBits(fb: nat, b0: Byte, b1: Byte): (v: nat)
    requires fb <= 8
    ensures v < 64
  {
    Lo(Hi(b0, Shift(fb)) + b1 * Shift(8 - fb), 64)
  }

  /** HLL_DENSE_GET_REGISTER; the byte after the last register is read too. */
  function DenseGet(p: seq<Byte>, r: nat): (v: nat)
    requires r * 6 / 8 + 1 < |p|
    ensures v < 64
  {
    GetBits(r * 6 % 8, p[r * 6 / 8], p[r * 6 / 8 + 1])
  }

  /** The first byte of HLL_DENSE_SET_REGISTER: clear six bits from bit fb on, put the value there. */
  function FirstByte(b: Byte, fb: nat, v: nat): (b': Byte)
    requires fb in {0, 2, 4, 6} && v < 64
  {
    HiBound(b);
    match fb
    case 0 => Hi(b, 64) * 64 + v
    case 2 => Lo(b, 4) + v * 4
    case 4 => Lo(b, 16) + Lo(v, 16) * 16
    case _ => Lo(b, 64) + Lo(v, 4) * 64
  }

  /** The second byte: `& ~(63 >> (8 - fb))` and `| v >> (8 - fb)`. */
  function SecondByte(b: Byte, fb: nat, v: nat): (b': Byte)
    requires fb in {0, 2, 4, 6} && v < 64
  {
    HiBound(b);
    HiBound(v);
    match fb
    case 4 => Hi(b, 4) * 4 + Hi(v, 16)
    case 6 => Hi(b, 16) * 16 + Hi(v, 4)
    case _ => b
  }

  lemma HiBound(b: Byte)
    ensures Hi(b, 4) < 64 && Hi(b, 16) < 16 && Hi(b, 64) < 4
    ensures b < 64 ==> Hi(b, 4) < 16 && Hi(b, 16) < 4
  {}

  lemma FbCases(g: nat)
    ensures 4 * g * 6 / 8 == 3 * g && 4 * g * 6 % 8 == 0
    ensures (4 * g + 1) * 6 / 8 == 3 * g && (4 * g + 1) * 6 % 8 == 6
    ensures (4 * g + 2) * 6 / 8 == 3 * g + 1 && (4 * g + 2) * 6 % 8 == 4
    ensures (4 * g + 3) * 6 / 8 == 3 * g + 2 && (4 * g + 3) * 6 % 8 == 2
  {}

  lemma FbIsEven(r: nat)
    ensures r * 6 % 8 in {0, 2, 4, 6}
  {
    FbCases(r / 4);
    assert r == 4 * (r / 4) || r == 4 * (r / 4) + 1 || r == 4 * (r / 4) + 2 || r == 4 * (r / 4) + 3;
  }

  function DenseSet(p: seq<Byte>, r: nat, v: nat): (p': seq<Byte>)
    requires r * 6 / 8 + 1 < |p| && v < 64
    ensures |p'| == |p|
  {
    FbIsEven(r);
    var i := r * 6 / 8;
    p[i := FirstByte(p[i], r * 6 % 8, v)][i + 1 := SecondByte(p[i + 1], r * 6 % 8, v)]
  }

  lemma Bits0(b0: Byte, b1: Byte)
    ensures GetBits(0, b0, b1) == Lo(b0, 64)
  {}

  lemma Bits2(b0: Byte, b1: Byte)
    ensures GetBits(2, b0, b1) == Hi(b0, 4)
  {}

  lemma Bits4(b0: Byte, b1: Byte)
    ensures GetBits(4, b0, b1) == Hi(b0, 16) + Lo(b1, 4) * 16
  {
    assert b0 / 16 + b1 * 16 == 64 * (b1 / 4) + (b0 / 16 + b1 % 4 * 16);
    Low64(b1 / 4, b0 / 16 + b1 % 4 * 16);
  }

  lemma Low64(q: nat, r: nat)
    requires r < 64
    ensures (64 * q + r) % 64 == r
  {}

  lemma Bits6(b0: Byte, b1: Byte)
    ensures GetBits(6, b0, b1) == Hi(b0, 64) + Lo(b1, 16) * 4
  {
    assert b0 / 64 + b1 * 4 == 64 * (b1 / 16) + (b0 / 64 + b1 % 16 * 4);
    Low64(b1 / 16, b0 / 64 + b1 % 16 * 4);
  }

  /** The registers of one group of three bytes. */
  lemma GetInGroup(p: seq<Byte>, g: nat)
    requires 3 * g + 3 < |p|
    ensures DenseGet(p, 4 * g) == Lo(p[3 * g], 64)
    ensures DenseGet(p, 4 * g + 1) == Hi(p[3 * g], 64) + Lo(p[3 * g + 1], 16) * 4
    ensures DenseGet(p, 4 * g + 2) == Hi(p[3 * g + 1], 16) + Lo(p[3 * g + 2], 4) * 16
    ensures DenseGet(p, 4 * g + 3) == Hi(p[3 * g + 2], 4)
  {
    FbCases(g);
    hide GetBits, Hi, Lo;
    Bits0(p[3 * g], p[3 * g + 1]);
    Bits6(p[3 * g], p[3 * g + 1]);
    Bits4(p[3 * g + 1], p[3 * g + 2]);
    Bits2(p[3 * g + 2], p[3 * g + 3]);
  }

  lemma HiLo(x: nat)
    ensures x == 64 * Hi(x, 64) + Lo(x, 64) && x == 16 * Hi(x, 16) + Lo(x, 16) && x == 4 * Hi(x, 4) + Lo(x, 4)
  {}

  /** The layout of the dense form: three bytes hold four registers, least significant bits first. */
  lemma DenseLayout(p: seq<Byte>, g: nat)
    requires 3 * g + 3 < |p|
    ensures p[3 * g] as int + 256 * p[3 * g + 1] as int + 65536 * p[3 * g + 2] as int
         == DenseGet(p, 4 * g) + 64 * DenseGet(p, 4 * g + 1) + 4096 * DenseGet(p, 4 * g + 2)
           + 262144 * DenseGet(p, 4 * g + 3)
  {
    GetInGroup(p, g);
    HiLo(p[3 * g]);
    HiLo(p[3 * g + 1]);
    HiLo(p[3 * g + 2]);
    hide DenseGet, Hi, Lo;
  }

  lemma Split64(h: nat, l: nat)
    requires l < 64
    ensures Hi(h * 64 + l, 64) == h && Lo(h * 64 + l, 64) == l
  {}

  lemma Split16(h: nat, l: nat)
    requires l < 16
    ensures Hi(h * 16 + l, 16) == h && Lo(h * 16 + l, 16) == l
  {}

  lemma Split4(h: nat, l: nat)
    requires l < 4
    ensures Hi(h * 4 + l, 4) == h && Lo(h * 4 + l, 4) == l
  {}

  lemma AfterSet0(b: Byte, v: nat)
    requires v < 64
    ensures Lo(FirstByte(b, 0, v), 64) == v && Hi(FirstByte(b, 0, v), 64) == Hi(b, 64)
  {
    hide Hi, Lo;
    Split64(Hi(b, 64), v);
  }

  lemma AfterSet6(b0: Byte, b1: Byte, v: nat)
    requires v < 64
    ensures Lo(FirstByte(b0, 6, v), 64) == Lo(b0, 64) && Hi(FirstByte(b0, 6, v), 64) == Lo(v, 4)
    ensures Lo(SecondByte(b1, 6, v), 16) == Hi(v, 4) && Hi(SecondByte(b1, 6, v), 16) == Hi(b1, 16)
  {
    HiBound(v);
    hide Hi, Lo;
    Split64(Lo(v, 4), Lo(b0, 64));
    Split16(Hi(b1, 16), Hi(v, 4));
  }

  lemma AfterSet4(b1: Byte, b2: Byte, v: nat)
    requires v < 64
    ensures Lo(FirstByte(b1, 4, v), 16) == Lo(b1, 16) && Hi(FirstByte(b1, 4, v), 16) == Lo(v, 16)
    ensures Lo(SecondByte(b2, 4, v), 4) == Hi(v, 16) && Hi(SecondByte(b2, 4, v), 4) == Hi(b2, 4)
  {
    HiBound(v);
    hide Hi, Lo;
    Split16(Lo(v, 16), Lo(b1, 16));
    Split4(Hi(b2, 4), Hi(v, 16));
  }

  lemma AfterSet2(b2: Byte, v: nat)
    requires v < 64
    ensures Lo(FirstByte(b2, 2, v), 4) == Lo(b2, 4) && Hi(FirstByte(b2, 2, v), 4) == v
  {
    hide Hi, Lo;
    Split4(v, Lo(b2, 4));
  }

  /** Setting a register in the group it belongs to. */
  lemma SetInGroup(p: seq<Byte>, g: nat, v: nat)
    requires 3 * g + 3 < |p| && v < 64
    ensures DenseSet(p, 4 * g, v) == p[3 * g := FirstByte(p[3 * g], 0, v)]
    ensures DenseSet(p, 4 * g + 1, v)
      == p[3 * g := FirstByte(p[3 * g], 6, v)][3 * g + 1 := SecondByte(p[3 * g + 1], 6, v)]
    ensures DenseSet(p, 4 * g + 2, v)
      == p[3 * g + 1 := FirstByte(p[3 * g + 1], 4, v)][3 * g + 2 := SecondByte(p[3 * g + 2], 4, v)]
    ensures DenseSet(p, 4 * g + 3, v) == p[3 * g + 2 := FirstByte(p[3 * g + 2], 2, v)]
  {
    FbCases(g);
    assert SecondByte(p[3 * g + 1], 0, v) == p[3 * g + 1] && SecondByte(p[3 * g + 3], 2, v) == p[3 * g + 3];
    hide FirstByte, SecondByte, Hi, Lo;
  }

  /** The registers of a group, given its three bytes. */
  ghost predicate Group(p: seq<Byte>, g: nat, r0: nat, r1: nat, r2: nat, r3: nat) {
    && 3 * g + 3 < |p|
    && DenseGet(p, 4 * g) == r0 && DenseGet(p, 4 * g + 1) == r1 && DenseGet(p, 4 * g + 2) == r2
      && DenseGet(p, 4 * g + 3) == r3
  }

  lemma OwnGroup(p: seq<Byte>, g: nat, v: nat)
    requires 3 * g + 3 < |p| && v < 64
    ensures var r0, r1, r2, r3 := DenseGet(p, 4 * g), DenseGet(p, 4 * g + 1), DenseGet(p, 4 * g + 2),
      DenseGet(p, 4 * g + 3);
      && Group(DenseSet(p, 4 * g, v), g, v, r1, r2, r3) && Group(DenseSet(p, 4 * g + 1, v), g, r0, v, r2, r3)
      && Group(DenseSet(p, 4 * g + 2, v), g, r0, r1, v, r3) && Group(DenseSet(p, 4 * g + 3, v), g, r0, r1, r2, v)
  {
    SetInGroup(p, g, v);
    AfterSet0(p[3 * g], v);
    AfterSet6(p[3 * g], p[3 * g + 1], v);
    AfterSet4(p[3 * g + 1], p[3 * g + 2], v);
    AfterSet2(p[3 * g + 2], v);
    HiLo(v);
    hide DenseSet, DenseGet, FirstByte, SecondByte, Hi, Lo;
    GetInGroup(p, g);
    GetInGroup(DenseSet(p, 4 * g, v), g);
    GetInGroup(DenseSet(p, 4 * g + 1, v), g);
    GetInGroup(DenseSet(p, 4 * g + 2, v), g);
    GetInGroup(DenseSet(p, 4 * g + 3, v), g);
  }

  lemma OtherGroup(p: seq<Byte>, g: nat, r: nat, v: nat, g': nat)
    requires 3 * g + 3 < |p| && 3 * g' + 3 < |p| && v < 64 && 4 * g <= r < 4 * g + 4 && g' != g
    ensures r * 6 / 8 + 1 < |p|
    ensures var q := DenseSet(p, r, v);
      q[3 * g'] == p[3 * g'] && q[3 * g' + 1] == p[3 * g' + 1] && q[3 * g' + 2] == p[3 * g' + 2]
  {
    FbCases(g);
    SetInGroup(p, g, v);
    hide DenseSet, FirstByte, SecondByte;
  }

  /** Setting one register changes that register and no other. */
  lemma GetAfterSet(p: seq<Byte>, r: nat, v: nat, r': nat)
    requires |p| == DENSE_BYTES + 1 && v < 64 && r < REGISTERS && r' < REGISTERS
    ensures DenseGet(DenseSet(p, r, v), r') == if r' == r then v else DenseGet(p, r')
  {
    hide DenseGet, DenseSet;
    var g, g' := r / 4, r' / 4;
    if g == g' {
      OwnGroup(p, g, v);
      assert r == 4 * g || r == 4 * g + 1 || r == 4 * g + 2 || r == 4 * g + 3;
      assert r' == 4 * g || r' == 4 * g + 1 || r' == 4 * g + 2 || r' == 4 * g + 3;
    } else {
      OtherGroup(p, g, r, v, g');
      GetInGroup(p, g');
      GetInGroup(DenseSet(p, r, v), g');
      assert r' == 4 * g' || r' == 4 * g' + 1 || r' == 4 * g' + 2 || r' == 4 * g' + 3;
    }
  }

  function DenseRegs(p: seq<Byte>): (s: seq<nat>)
    requires |p| == DENSE_BYTES + 1
    ensures |s| == REGISTERS
  {
    seq(REGISTERS, r requires 0 <= r < REGISTERS => DenseGet(p, r))
  }

  lemma DenseSetRegs(p: seq<Byte>, r: nat, v: nat)
    requires |p| == DENSE_BYTES + 1 && r < REGISTERS && v < 64
    ensures DenseRegs(DenseSet(p, r, v)) == DenseRegs(p)[r := v]
  {
    var p' := DenseSet(p, r, v);
    hide DenseSet, DenseGet;
    forall r' | 0 <= r' < REGISTERS ensures DenseRegs(p')[r'] == DenseRegs(p)[r := v][r'] {
      GetAfterSet(p, r, v, r');
    }
  }

  lemma DenseZero(p: seq<Byte>)
    requires |p| == DENSE_BYTES + 1 && forall i :: 0 <= i < |p| ==> p[i] == 0
    ensures DenseRegs(p) == Rep(0, REGISTERS)
  {
    forall r | 0 <= r < REGISTERS ensures DenseGet(p, r) == 0 {}
  }

  // ---------------------------------------------------------------- sparse: runs of registers

  predicate IsZero(b: Byte) { b / 64 == 0 }

  predicate IsXZero(b: Byte) { b / 64 == 1 }

  predicate IsVal(b: Byte) { b >= 128 }

  const VAL_MAX_VALUE: nat := 32
  const VAL_MAX_LEN: nat := 4
  const ZERO_MAX_LEN: nat := 64

  function ZeroLen(b: Byte): nat { b % 64 + 1 }

  function XZeroLen(b0: Byte, b1: Byte): nat { b0 % 64 * 256 + b1 + 1 }

  function ValValue(b: Byte): nat { b / 4 % 32 + 1 }

  function ValLen(b: Byte): nat { b % 4 + 1 }

  function Rep(v: nat, n: nat): (s: seq<nat>)
    ensures |s| == n && forall i :: 0 <= i < n ==> s[i] == v
  {
    seq(n, _ => v)
  }

  /** The length in bytes of the opcode that starts with b. */
  function OpSize(b: Byte): nat {
    if IsXZero(b) then 2 else 1
  }

  /** No XZERO opcode is cut off at the end. */
  predicate WellFormed(s: seq<Byte>) {
    s == [] || (OpSize(s[0]) <= |s| && WellFormed(s[OpSize(s[0])..]))
  }

  /** The value and the number of the registers described by the opcode at the start of s. */
  function OpValue(s: seq<Byte>): nat
    requires s != []
  {
    if IsVal(s[0]) then ValValue(s[0]) else 0
  }

  function OpSpan(s: seq<Byte>): (n: nat)
    requires s != []
    ensures 1 <= n <= REGISTERS && (IsVal(s[0]) ==> n <= VAL_MAX_LEN)
  {
    if IsZero(s[0]) then ZeroLen(s[0])
    else if IsXZero(s[0]) then XZeroLen(s[0], if |s| > 1 then s[1] else 0)
    else ValLen(s[0])
  }

  /** The registers described by the opcodes of s, up to one that is cut off. */
  function SparseRegs(s: seq<Byte>): (r: seq<nat>) {
    if s == [] || OpSize(s[0]) > |s| then [] else Rep(OpValue(s), OpSpan(s)) + SparseRegs(s[OpSize(s[0])..])
  }

  lemma {:induction false} SparseAppend(a: seq<Byte>, b: seq<Byte>)
    requires WellFormed(a)
    ensures WellFormed(a + b) <==> WellFormed(b)
    ensures WellFormed(b) ==> SparseRegs(a + b) == SparseRegs(a) + SparseRegs(b)
  {
    if a == [] {
      assert a + b == b;
    } else {
      var n := OpSize(a[0]);
      hide Rep, IsXZero, IsZero, IsVal;
      assert (a + b)[n..] == a[n..] + b;
      SparseAppend(a[n..], b);
      if WellFormed(b) {
        assert OpValue(a + b) == OpValue(a) && OpSpan(a + b) == OpSpan(a);
      }
    }
  }

  lemma OneOp(op: seq<Byte>)
    requires op != [] && |op| == OpSize(op[0])
    ensures WellFormed(op) && SparseRegs(op) == Rep(OpValue(op), OpSpan(op))
  {
    assert op[|op|..] == [];
    hide Rep, OpValue, OpSpan;
  }

  lemma FirstOp(s: seq<Byte>)
    requires s != [] && WellFormed(s)
    ensures var n := OpSize(s[0]);
      n <= |s| && WellFormed(s[..n]) && WellFormed(s[n..]) && SparseRegs(s[..n]) == Rep(OpValue(s), OpSpan(s))
  {
    var op := s[..OpSize(s[0])];
    assert OpValue(op) == OpValue(s) && OpSpan(op) == OpSpan(s);
    hide Rep, OpValue, OpSpan, SparseRegs;
    OneOp(op);
  }

  lemma Reassociate<T>(a: seq<T>, t: seq<T>, n: nat)
    requires n <= |t|
    ensures a + t == (a + t[..n]) + t[n..]
  {}

  /** One more opcode after a. */
  lemma OneMore(a: seq<Byte>, t: seq<Byte>)
    requires WellFormed(a) && WellFormed(t) && t != []
    ensures var n := OpSize(t[0]);
      && n <= |t| && WellFormed(a + t[..n]) && WellFormed(t[n..])
      && SparseRegs(a + t[..n]) == SparseRegs(a) + Rep(OpValue(t), OpSpan(t))
      && SparseRegs(a + t) == SparseRegs(a + t[..n]) + SparseRegs(t[n..])
  {
    var n := OpSize(t[0]);
    hide Rep, OpValue, OpSpan, WellFormed, SparseRegs, OpSize;
    FirstOp(t);
    SparseAppend(a, t[..n]);
    SparseAppend(a + t[..n], t[n..]);
    Reassociate(a, t, n);
  }

  lemma Slices<T>(s: seq<T>, p: nat, n: nat)
    requires p + n <= |s|
    ensures s == s[..p] + s[p..] && s[..p + n] == s[..p] + s[p..][..n] && s[p..][n..] == s[p + n..]
  {}

  /** Moving one opcode on from an opcode boundary p. */
  lemma NextOp(s: seq<Byte>, p: nat)
    requires WellFormed(s) && p < |s| && WellFormed(s[..p])
    ensures var n := OpSize(s[p]);
      && p + n <= |s| && WellFormed(s[..p + n]) && WellFormed(s[p + n..])
      && SparseRegs(s[..p + n]) == SparseRegs(s[..p]) + Rep(OpValue(s[p..]), OpSpan(s[p..]))
      && SparseRegs(s) == SparseRegs(s[..p + n]) + SparseRegs(s[p + n..])
  {
    var n := OpSize(s[p]);
    hide Rep, OpValue, OpSpan, WellFormed, SparseRegs, OpSize;
    Slices(s, p, 0);
    SparseAppend(s[..p], s[p..]);
    OneMore(s[..p], s[p..]);
    Slices(s, p, n);
  }

  /** Replacing the opcodes between two boundaries replaces their registers. */
  lemma Splice(a: seq<Byte>, m: seq<Byte>, b: seq<Byte>)
    requires WellFormed(a) && WellFormed(m) && WellFormed(b)
    ensures WellFormed(a + m) && WellFormed(a + m + b)
    ensures SparseRegs(a + m + b) == SparseRegs(a) + SparseRegs(m) + SparseRegs(b)
  {
    SparseAppend(a, m);
    SparseAppend(a + m, b);
  }

  // ---------------------------------------------------------------- writing opcodes

  /** HLL_SPARSE_VAL_SET */
  function ValCode(v: nat, len: nat): (b: Byte)
    requires 1 <= v <= VAL_MAX_VALUE && 1 <= len <= VAL_MAX_LEN
    ensures IsVal(b) && ValValue(b) == v && ValLen(b) == len
  {
    (v - 1) * 4 + (len - 1) + 128
  }

  /** HLL_SPARSE_ZERO_SET or HLL_SPARSE_XZERO_SET */
  function ZeroCode(len: nat): (s: seq<Byte>)
    requires 1 <= len <= REGISTERS
    ensures |s| == if len > ZERO_MAX_LEN then 2 else 1
  {
    if len > ZERO_MAX_LEN then [(len - 1) / 256 + 64, (len - 1) % 256] else [len - 1]
  }

  /** The opcodes bit by bit: 00xxxxxx and 01xxxxxx yyyyyyyy for zeros, each field one less than what it stands for. */
  lemma KnownZeroOpcodes()
    ensures ZeroCode(1) == [0x00] && ZeroCode(64) == [0x3F]
    ensures ZeroCode(65) == [0x40, 0x40] && ZeroCode(16384) == [0x7F, 0xFF]
  {}

  /** And 1vvvvvxx for values. */
  lemma KnownValOpcode()
    ensures ValCode(3, 2) == 0x89
  {}

  lemma LargestValOpcode()
    ensures ValCode(32, 4) == 0xFF
  {}

  lemma ValCodeRegs(v: nat, len: nat)
    requires 1 <= v <= VAL_MAX_VALUE && 1 <= len <= VAL_MAX_LEN
    ensures WellFormed([ValCode(v, len)]) && SparseRegs([ValCode(v, len)]) == Rep(v, len)
  {
    var s := [ValCode(v, len)];
    assert s[1..] == [];
  }

  lemma ZeroCodeRegs(len: nat)
    requires 1 <= len <= REGISTERS
    ensures WellFormed(ZeroCode(len)) && SparseRegs(ZeroCode(len)) == Rep(0, len)
  {
    var s := ZeroCode(len);
    assert s[|s|..] == [];
  }

  /** A run of equal registers as opcodes; empty for an empty run. */
  function RunCode(v: nat, len: nat): (s: seq<Byte>)
    requires if v == 0 then len <= REGISTERS else v <= VAL_MAX_VALUE && len <= VAL_MAX_LEN
    ensures |s| <= 2 && (v != 0 ==> |s| <= 1)
  {
    if len == 0 then [] else if v == 0 then ZeroCode(len) else [ValCode(v, len)]
  }

  lemma RunCodeRegs(v: nat, len: nat)
    requires if v == 0 then len <= REGISTERS else v <= VAL_MAX_VALUE && len <= VAL_MAX_LEN
    ensures WellFormed(RunCode(v, len)) && SparseRegs(RunCode(v, len)) == Rep(v, len)
  {
    if len > 0 {
      if v == 0 { ZeroCodeRegs(len); } else { ValCodeRegs(v, len); }
    }
  }

  predicate CanSplit(v: nat, span: nat) {
    if v == 0 then span <= REGISTERS else v <= VAL_MAX_VALUE && span <= VAL_MAX_LEN
  }

  /** The opcodes a run of registers is split into when the register after the first `left` ones is
      set to `count`. */
  function SplitCode(v: nat, left: nat, count: nat, right: nat): (s: seq<Byte>)
    requires CanSplit(v, left + 1 + right)
    requires 1 <= count <= VAL_MAX_VALUE
    ensures 1 <= |s| <= 5
  {
    RunCode(v, left) + [ValCode(count, 1)] + RunCode(v, right)
  }

  lemma SplitCodeRegs(v: nat, left: nat, count: nat, right: nat)
    requires CanSplit(v, left + 1 + right)
    requires 1 <= count <= VAL_MAX_VALUE
    ensures WellFormed(SplitCode(v, left, count, right))
    ensures SparseRegs(SplitCode(v, left, count, right)) == Rep(v, left + 1 + right)[left := count]
  {
    var a, m, b := RunCode(v, left), [ValCode(count, 1)], RunCode(v, right);
    assert SplitCode(v, left, count, right) == a + m + b;
    RunCodeRegs(v, left);
    ValCodeRegs(count, 1);
    RunCodeRegs(v, right);
    hide RunCode, ValCode, SplitCode, WellFormed, SparseRegs;
    Splice(a, m, b);
    assert Rep(v, left) + Rep(count, 1) + Rep(v, right) == Rep(v, left + 1 + right)[left := count];
  }

  /** The opcode at boundary p replaced by opcodes for the same registers with one of them raised. */
  lemma ReplaceOp(s: seq<Byte>, p: nat, m: seq<Byte>, i: nat, count: nat)
    requires WellFormed(s) && p < |s| && WellFormed(s[..p]) && WellFormed(m)
    requires p + OpSize(s[p]) <= |s| && i < OpSpan(s[p..])
    requires SparseRegs(m) == Rep(OpValue(s[p..]), OpSpan(s[p..]))[i := count]
    ensures var s' := s[..p] + m + s[p + OpSize(s[p])..]; var k := |SparseRegs(s[..p])| + i;
      WellFormed(s') && k < |SparseRegs(s)| && SparseRegs(s') == SparseRegs(s)[k := count]
  {
    hide OpValue, OpSpan, WellFormed, SparseRegs, OpSize;
    NextOp(s, p);
    Splice(s[..p], m, s[p + OpSize(s[p])..]);
  }

  lemma MergedRuns(x: Byte, y: Byte)
    requires IsVal(x) && IsVal(y) && ValValue(x) == ValValue(y) && ValLen(x) + ValLen(y) <= VAL_MAX_LEN
    ensures WellFormed([x]) && WellFormed([y]) && WellFormed([ValCode(ValValue(x), ValLen(x) + ValLen(y))])
    ensures SparseRegs([x]) + SparseRegs([y]) == SparseRegs([ValCode(ValValue(x), ValLen(x) + ValLen(y))])
  {
    ValCodeRegs(ValValue(x), ValLen(x) + ValLen(y));
    OneOp([x]);
    OneOp([y]);
    hide SparseRegs;
  }

  /** Two adjacent runs of the same value become one. */
  lemma MergeOps(a: seq<Byte>, x: Byte, y: Byte, b: seq<Byte>)
    requires WellFormed(a) && WellFormed(a + ([x] + [y]) + b) && IsVal(x) && IsVal(y)
    requires ValValue(x) == ValValue(y) && ValLen(x) + ValLen(y) <= VAL_MAX_LEN
    ensures var s' := a + [ValCode(ValValue(x), ValLen(x) + ValLen(y))] + b;
      WellFormed(s') && SparseRegs(s') == SparseRegs(a + ([x] + [y]) + b)
  {
    var m := ValCode(ValValue(x), ValLen(x) + ValLen(y));
    MergedRuns(x, y);
    hide *;
    SparseAppend([x], [y]);
    SparseAppend(a, [x] + [y]);
    SparseAppend(a + ([x] + [y]), b);
    SparseAppend(a, [m]);
    SparseAppend(a + [m], b);
  }

  /** The sparse form holds no value above 32. */
  lemma {:induction false} SparseBound(s: seq<Byte>)
    ensures forall i :: 0 <= i < |SparseRegs(s)| ==> SparseRegs(s)[i] <= VAL_MAX_VALUE
  {
    if s != [] && OpSize(s[0]) <= |s| {
      SparseBound(s[OpSize(s[0])..]);
      assert OpValue(s) <= VAL_MAX_VALUE;
      hide OpValue, OpSpan, OpSize;
    }
  }
}
