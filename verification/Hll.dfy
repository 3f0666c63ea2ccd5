/** The HyperLogLog object of hyperloglog.c: a byte buffer edited in place, sparse until it has to
    become dense. The header's encoding byte and its cache validity bit are fields of their own. */
module Hll {
  import opened Words
  import opened Bytes
  import opened HllCodec
  import opened HllMax

  const HDR_SIZE: nat := 16

  /** No VAL opcode describes a register past the last one; the source would write past its buffer. */
  ghost predicate InRange(regs: seq<nat>) {
    forall i :: REGISTERS <= i < |regs| ==> regs[i] == 0
  }

  /** The first n registers of a possibly shorter or longer list, zeros elsewhere. */
  ghost function FirstRegs(regs: seq<nat>, n: nat): (r: seq<nat>)
    ensures |r| == REGISTERS
  {
    seq(REGISTERS, i => if 0 <= i < n && i < |regs| then regs[i] else 0)
  }

  /** hllPatLen */
  method PatLen(hash: Hash, ele: seq<Byte>) returns (count: nat, index: nat)
    ensures count == PatCount(hash(ele)) && index == PatIndex(hash(ele))
  {
    var h := hash(ele);
    index := Val(h[..INDEX_BITS]);
    h := h[63 := true];
    var bit := INDEX_BITS;
    count := 1;
    while !h[bit]
      invariant INDEX_BITS <= bit < 64 && count == bit - INDEX_BITS + 1
      invariant FirstOne(h, bit) == FirstOne(h, INDEX_BITS)
      decreases 64 - bit
    {
      count := count + 1;
      bit := bit + 1;
    }
  }

  /** HLL_DENSE_SET_REGISTER */
  method SetRegister(p: array<Byte>, r: nat, v: nat)
    requires p.Length == DENSE_BYTES + 1 && r < REGISTERS && v < 64
    modifies p
    ensures p[..] == DenseSet(old(p[..]), r, v) && DenseRegs(p[..]) == DenseRegs(old(p[..]))[r := v]
  {
    DenseSetRegs(p[..], r, v);
    FbIsEven(r);
    var i, fb := r * 6 / 8, r * 6 % 8;
    hide FirstByte, SecondByte, DenseGet;
    p[i] := FirstByte(p[i], fb, v);
    p[i + 1] := SecondByte(p[i + 1], fb, v);
  }

  /** hllDenseAdd */
  method DenseAdd(hash: Hash, p: array<Byte>, ele: seq<Byte>) returns (changed: bool)
    requires p.Length == DENSE_BYTES + 1
    modifies p
    ensures DenseRegs(p[..]) == Raise(DenseRegs(old(p[..])), PatIndex(hash(ele)), PatCount(hash(ele)))
    ensures changed == (PatCount(hash(ele)) > DenseRegs(old(p[..]))[PatIndex(hash(ele))])
  {
    var count, index := PatLen(hash, ele);
    var oldcount := DenseGet(p[..], index);
    hide DenseGet;
    if count > oldcount {
      SetRegister(p, index, count);
      return true;
    }
    return false;
  }

  lemma FirstRegsZero(regs: seq<nat>, n: nat, len: nat)
    requires RunAt(regs, n, len, 0)
    ensures FirstRegs(regs, n + len) == FirstRegs(regs, n)
  {}

  lemma FirstRegsAll(regs: seq<nat>)
    requires |regs| == REGISTERS
    ensures FirstRegs(regs, REGISTERS) == regs
  {}

  /** Registers idx .. idx + n - 1 hold v. */
  ghost predicate RunAt(regs: seq<nat>, idx: nat, n: nat, v: nat) {
    idx + n <= |regs| && forall i :: idx <= i < idx + n ==> regs[i] == v
  }

  lemma OpAt(body: seq<Byte>, p: nat, idx: nat)
    requires WellFormed(body) && p < |body| && WellFormed(body[..p]) && |SparseRegs(body[..p])| == idx
    ensures var n, runlen := OpSize(body[p]), OpSpan(body[p..]);
      && p + n <= |body| && WellFormed(body[..p + n]) && |SparseRegs(body[..p + n])| == idx + runlen
      && RunAt(SparseRegs(body), idx, runlen, OpValue(body[p..]))
  {
    NextOp(body, p);
    hide WellFormed, SparseRegs, OpSpan, OpValue, OpSize;
  }

  /** One opcode of the loops over the sparse form: the value, the number of registers and the number
      of bytes. */
  method ReadOp(body: seq<Byte>, p: nat, ghost idx: nat) returns (v: nat, runlen: nat, n: nat)
    requires WellFormed(body) && p < |body| && WellFormed(body[..p]) && |SparseRegs(body[..p])| == idx
    ensures n >= 1 && p + n <= |body| && WellFormed(body[..p + n]) && |SparseRegs(body[..p + n])| == idx + runlen
    ensures RunAt(SparseRegs(body), idx, runlen, v) && v <= VAL_MAX_VALUE
  {
    OpAt(body, p, idx);
    hide WellFormed, SparseRegs, RunAt;
    if IsZero(body[p]) {
      v, runlen, n := 0, ZeroLen(body[p]), 1;
    } else if IsXZero(body[p]) {
      v, runlen, n := 0, XZeroLen(body[p], body[p + 1]), 2;
    } else {
      v, runlen, n := ValValue(body[p]), ValLen(body[p]), 1;
    }
  }

  /** The inner loop of hllSparseToDense over one VAL opcode. */
  method SetRun(p: array<Byte>, idx: nat, v: nat, runlen: nat, ghost regs: seq<nat>)
    requires p.Length == DENSE_BYTES + 1 && 0 < v < 64 && RunAt(regs, idx, runlen, v) && InRange(regs)
    requires DenseRegs(p[..]) == FirstRegs(regs, idx)
    modifies p
    ensures DenseRegs(p[..]) == FirstRegs(regs, idx + runlen)
  {
    hide DenseRegs, DenseSet;
    var i := idx;
    while i < idx + runlen
      invariant idx <= i <= idx + runlen && DenseRegs(p[..]) == FirstRegs(regs, i)
    {
      assert regs[i] != 0;
      SetRegister(p, i, v);
      assert FirstRegs(regs, i)[i := v] == FirstRegs(regs, i + 1);
      i := i + 1;
    }
  }

  /** Where hllSparseAdd found register `index`: the opcode at p describes registers first ..
      first + span - 1, and prev is a boundary at or before p. */
  ghost predicate Located(body: seq<Byte>, index: nat, p: nat, first: nat, span: nat, prev: nat) {
    && WellFormed(body) && p < |body| && WellFormed(body[..p]) && |SparseRegs(body[..p])| == first
    && p + OpSize(body[p]) <= |body| && span == OpSpan(body[p..])
    && first <= index < first + span <= |SparseRegs(body)|
    && prev <= p && WellFormed(body[..prev])
    && forall i :: first <= i < first + span ==> SparseRegs(body)[i] == OpValue(body[p..])
  }

  /** The loop of step 1 at boundary p. */
  ghost predicate Searching(body: seq<Byte>, index: nat, p: nat, first: nat, prev: nat) {
    && p <= |body| && WellFormed(body[..p]) && |SparseRegs(body[..p])| == first <= index
    && prev <= p && WellFormed(body[..prev])
  }

  lemma SearchOp(body: seq<Byte>, index: nat, p: nat, first: nat, prev: nat)
    requires WellFormed(body) && p < |body| && Searching(body, index, p, first, prev)
    ensures var span, n := OpSpan(body[p..]), OpSize(body[p]);
      if index < first + span then Located(body, index, p, first, span, prev)
      else Searching(body, index, p + n, first + span, p)
    ensures p + OpSize(body[p]) <= |body|
  {
    var span, n := OpSpan(body[p..]), OpSize(body[p]);
    NextOp(body, p);
    hide WellFormed, SparseRegs, OpSpan, OpValue, OpSize;
    if index < first + span {
      LocatedAt(body, index, p, first, span, prev);
    }
  }

  lemma LocatedAt(body: seq<Byte>, index: nat, p: nat, first: nat, span: nat, prev: nat)
    requires WellFormed(body) && p < |body| && Searching(body, index, p, first, prev)
    requires span == OpSpan(body[p..]) && index < first + span && p + OpSize(body[p]) <= |body|
    requires SparseRegs(body) == SparseRegs(body[..p]) + Rep(OpValue(body[p..]), span)
      + SparseRegs(body[p + OpSize(body[p])..])
    ensures Located(body, index, p, first, span, prev)
  {
    hide WellFormed, SparseRegs, OpSpan, OpValue, OpSize;
  }

  /** The registers after the located opcode is replaced by m. */
  lemma Replaced(body: seq<Byte>, index: nat, p: nat, first: nat, span: nat, prev: nat, m: seq<Byte>, count: nat)
    requires Located(body, index, p, first, span, prev) && Replacement(body, index, p, first, span, m, count)
    ensures var body' := body[..p] + m + body[p + OpSize(body[p])..];
      && WellFormed(body') && SparseRegs(body') == SparseRegs(body)[index := count]
      && prev <= |body'| && WellFormed(body'[..prev])
  {
    ReplaceOp(body, p, m, index - first, count);
    assert (body[..p] + m + body[p + OpSize(body[p])..])[..prev] == body[..prev];
    hide WellFormed, SparseRegs, OpSpan, OpValue, OpSize;
  }

  /** m describes the registers of the opcode at p with register `index` set to count. */
  ghost predicate Replacement(body: seq<Byte>, index: nat, p: nat, first: nat, span: nat, m: seq<Byte>, count: nat) {
    && p < |body| && first <= index < first + span && WellFormed(m) && |m| <= OpSize(body[p]) + 3
    && SparseRegs(m) == Rep(OpValue(body[p..]), span)[index - first := count]
  }

  /** The opcode at p can hold at most 4 registers of a value, 64 zeros in one byte. */
  lemma LocatedOp(body: seq<Byte>, index: nat, p: nat, first: nat, span: nat, prev: nat)
    requires Located(body, index, p, first, span, prev)
    ensures var v := OpValue(body[p..]);
      && p + OpSize(body[p]) <= |body| && first <= index < first + span
      && CanSplit(v, span)
      && (OpSize(body[p]) == 2 || (OpSize(body[p]) == 1 && span <= ZERO_MAX_LEN))
  {}

  lemma SplitCodeSize(v: nat, left: nat, count: nat, right: nat)
    requires CanSplit(v, left + 1 + right)
    requires 1 <= count <= VAL_MAX_VALUE
    ensures left + 1 + right <= ZERO_MAX_LEN ==> |SplitCode(v, left, count, right)| <= 3
    ensures left == 0 && right == 0 ==> SplitCode(v, left, count, right) == [ValCode(count, 1)]
  {
    hide ValCode;
  }

  lemma SplitIsReplacement(body: seq<Byte>, index: nat, p: nat, first: nat, span: nat, prev: nat, count: nat, v: nat,
                           right: nat)
    requires Located(body, index, p, first, span, prev) && v == OpValue(body[p..]) < count <= VAL_MAX_VALUE
    requires right == first + span - 1 - index
    ensures first <= index && index - first + 1 + right == span && CanSplit(v, index - first + 1 + right)
    ensures Replacement(body, index, p, first, span, SplitCode(v, index - first, count, right), count)
    ensures span == 1 ==> SplitCode(v, index - first, count, right) == [ValCode(count, 1)]
  {
    LocatedOp(body, index, p, first, span, prev);
    hide *;
    var left: nat := index - first;
    assert left + 1 + right == span;
    SplitCodeRegs(v, left, count, right);
    SplitCodeSize(v, left, count, right);
    MakeReplacement(body, index, p, first, span, SplitCode(v, left, count, right), count);
  }

  lemma MakeReplacement(body: seq<Byte>, index: nat, p: nat, first: nat, span: nat, m: seq<Byte>, count: nat)
    requires p < |body| && first <= index < first + span && WellFormed(m) && |m| <= OpSize(body[p]) + 3
    requires SparseRegs(m) == Rep(OpValue(body[p..]), span)[index - first := count]
    ensures Replacement(body, index, p, first, span, m, count)
  {}

  lemma LocatedValue(body: seq<Byte>, index: nat, p: nat, first: nat, span: nat, prev: nat)
    requires Located(body, index, p, first, span, prev)
    ensures p < |body| && span > 0 && index < |SparseRegs(body)|
    ensures SparseRegs(body)[index] == OpValue(body[p..]) == if IsVal(body[p]) then ValValue(body[p]) else 0
  {}

  /** The result of an addition: 1 when the register was raised, 0 when it already held as much, -1,
      with nothing changed, only for a corrupted object. */
  ghost predicate Outcome(regs: seq<nat>, regs': seq<nat>, index: nat, count: nat, r: int) {
    if r == -1 then |regs| != REGISTERS && regs' == regs
    else index < |regs| && regs' == Raise(regs, index, count) && r == if count > regs[index] then 1 else 0
  }

  /** The registers after some additions, of which one has raised a register exactly if `updated`. */
  ghost predicate Grown(regs: seq<nat>, regs': seq<nat>, updated: bool) {
    |regs'| == |regs| && (forall i :: 0 <= i < |regs| ==> regs[i] <= regs'[i]) && updated == (regs' != regs)
  }

  lemma GrownStart(regs: seq<nat>)
    ensures Grown(regs, regs, false)
  {}

  lemma GrownEnd(hash: Hash, regs: seq<nat>, regs': seq<nat>, updated: bool)
    requires Grown(regs, regs', updated) && |regs| == REGISTERS
    ensures updated == (regs' != regs) && AddAll(hash, regs', []) == regs'
  {}

  lemma AddStep(hash: Hash, es: seq<seq<Byte>>, j: nat, regs: seq<nat>, was: seq<nat>, now: seq<nat>, r: int,
                updated: bool)
    requires j < |es| && |was| == REGISTERS && Grown(regs, was, updated)
    requires Outcome(was, now, PatIndex(hash(es[j])), PatCount(hash(es[j])), r)
    ensures |now| == REGISTERS && Grown(regs, now, updated || r == 1)
    ensures AddAll(hash, now, es[j + 1..]) == AddAll(hash, was, es[j..])
  {
    hide PatIndex, PatCount;
    assert es[j..][1..] == es[j + 1..];
    if r == 1 {
      var i := PatIndex(hash(es[j]));
      assert now[i] > regs[i];
    }
  }

  /** Two adjacent VAL opcodes of one value that fit into one. */
  ghost predicate CanMerge(body: seq<Byte>, p: nat) {
    && p + 1 < |body| && IsVal(body[p]) && IsVal(body[p + 1])
    && ValValue(body[p]) == ValValue(body[p + 1]) && ValLen(body[p]) + ValLen(body[p + 1]) <= 4
  }

  /** The same at a boundary. */
  ghost predicate Mergeable(body: seq<Byte>, p: nat) {
    p + 1 < |body| && WellFormed(body[..p]) && CanMerge(body, p)
  }

  /** The n opcodes from q on end at p, and none of them can be merged with the next. */
  ghost predicate Compact(body: seq<Byte>, q: nat, n: nat, p: nat)
    decreases n
  {
    if n == 0 then q == p
    else
      && q < |body| && !CanMerge(body, q) && q + OpSize(body[q]) <= p
      && Compact(body, q + OpSize(body[q]), n - 1, p)
  }

  lemma {:induction false} CompactExtends(body: seq<Byte>, q: nat, n: nat, p: nat)
    requires Compact(body, q, n, p) && p < |body| && !CanMerge(body, p)
    ensures Compact(body, q, n + 1, p + OpSize(body[p]))
    decreases n
  {
    hide CanMerge;
    if n > 0 { CompactExtends(body, q + OpSize(body[q]), n - 1, p); }
  }

  /** A merge at p leaves what was passed before as it was: the merged opcode is longer and of the same value. */
  lemma {:induction false} CompactKept(body: seq<Byte>, q: nat, n: nat, p: nat, m: Byte)
    requires Compact(body, q, n, p) && CanMerge(body, p)
    requires IsVal(m) && ValValue(m) == ValValue(body[p]) && ValLen(m) >= ValLen(body[p])
    ensures Compact(body[..p] + [m] + body[p + 2..], q, n, p)
    decreases n
  {
    if n > 0 {
      CompactKept(body, q + OpSize(body[q]), n - 1, p, m);
      var body' := body[..p] + [m] + body[p + 2..];
      assert body'[q] == body[q] && body'[p] == m && (q + 1 < p ==> body'[q + 1] == body[q + 1]);
    }
  }

  ghost function MergedOp(body: seq<Byte>, p: nat): Byte
    requires Mergeable(body, p)
  {
    ValCode(ValValue(body[p]), ValLen(body[p]) + ValLen(body[p + 1]))
  }

  lemma MergedAt(body: seq<Byte>, p: nat)
    requires WellFormed(body) && Mergeable(body, p)
    ensures p + 2 <= |body|
    ensures var s := body[..p] + [MergedOp(body, p)] + body[p + 2..];
      WellFormed(s) && SparseRegs(s) == SparseRegs(body) && WellFormed(s[..p])
  {
    var m := MergedOp(body, p);
    var x, y := body[p], body[p + 1];
    assert WellFormed(body[..p]) && IsVal(x) && IsVal(y) && ValValue(x) == ValValue(y)
      && ValLen(x) + ValLen(y) <= VAL_MAX_LEN;
    assert m == ValCode(ValValue(x), ValLen(x) + ValLen(y));
    hide *;
    PairSlices(body, p);
    MergeOps(body[..p], x, y, body[p + 2..]);
    TakeFront(body[..p], [m], body[p + 2..]);
  }

  /** The opcodes that step D puts in the place of one, with `left` registers before the raised one and
      `right` after it. */
  method BuildSplit(v: nat, left: nat, count: nat, right: nat) returns (m: seq<Byte>)
    requires CanSplit(v, left + 1 + right) && 1 <= count <= VAL_MAX_VALUE
    ensures m == SplitCode(v, left, count, right)
  {
    hide ZeroCode, ValCode;
    m := [];
    if left != 0 { m := m + if v == 0 then ZeroCode(left) else [ValCode(v, left)]; }
    m := m + [ValCode(count, 1)];
    if right != 0 { m := m + if v == 0 then ZeroCode(right) else [ValCode(v, right)]; }
  }

  /** The bytes a run of n registers takes. */
  function RunSize(v: nat, n: nat): nat {
    if n == 0 then 0 else if v == 0 && n > 64 then 2 else 1
  }

  /** The bytes of what takes the place of the opcode at p: the run before the register, the register, the run after. */
  function NewSize(body: seq<Byte>, p: nat, first: nat, span: nat, index: nat): nat
    requires p < |body| && first <= index < first + span
  {
    RunSize(OpValue(body[p..]), index - first) + 1 + RunSize(OpValue(body[p..]), first + span - 1 - index)
  }

  lemma SplitSize(v: nat, left: nat, count: nat, right: nat)
    requires CanSplit(v, left + 1 + right) && 1 <= count <= VAL_MAX_VALUE
    ensures |SplitCode(v, left, count, right)| == RunSize(v, left) + 1 + RunSize(v, right)
  {}

  /** Steps B, C and D of hllSparseAdd: what to put in the place of the opcode at p. */
  method NewOps(body: seq<Byte>, p: nat, first: nat, span: nat, ghost prev: nat, index: nat, count: nat)
    returns (m: seq<Byte>)
    requires Located(body, index, p, first, span, prev)
    requires OpValue(body[p..]) < count <= VAL_MAX_VALUE
    ensures Replacement(body, index, p, first, span, m, count)
    ensures p < |body| && first <= index < first + span && |m| == NewSize(body, p, first, span, index)
  {
    LocatedValue(body, index, p, first, span, prev);
    LocatedOp(body, index, p, first, span, prev);
    ghost var newSize := NewSize(body, p, first, span, index);
    assert newSize ==
      RunSize(OpValue(body[p..]), index - first) + 1 + RunSize(OpValue(body[p..]), first + span - 1 - index);
    hide *;
    var v := if IsVal(body[p]) then ValValue(body[p]) else 0;
    assert v == OpValue(body[p..]);
    var left: nat, right: nat := index - first, first + span - 1 - index;
    SplitIsReplacement(body, index, p, first, span, prev, count, v, right);
    assert CanSplit(v, left + 1 + right);
    SplitSize(v, left, count, right);
    if !IsXZero(body[p]) && span == 1 {
      m := [ValCode(count, 1)];
    } else {
      m := BuildSplit(v, left, count, right);
    }
  }

  /** The registers of `before` raised to those of regs in the first n positions. */
  ghost function Merged(before: seq<nat>, regs: seq<nat>, n: nat): (r: seq<nat>)
    ensures |r| == |before|
  {
    seq(|before|, i requires 0 <= i < |before| => if i < n && i < |regs| then Max(before[i], regs[i]) else before[i])
  }

  lemma ZerosMerged(before: seq<nat>, regs: seq<nat>, n: nat, len: nat)
    requires RunAt(regs, n, len, 0)
    ensures Merged(before, regs, n + len) == Merged(before, regs, n)
  {}

  lemma DenseRegAt(p: seq<Byte>, i: nat)
    requires |p| == DENSE_BYTES + 1 && i < REGISTERS
    ensures i * 6 / 8 + 1 < |p| && DenseRegs(p)[i] == DenseGet(p, i)
  {}

  /** One register of the loop of hllMerge over the dense form. */
  method RaiseMax(max: array<nat>, i: nat, val: nat, ghost before: seq<nat>, ghost regs: seq<nat>)
    requires max.Length == REGISTERS == |before| && i < REGISTERS && i < |regs| && val == regs[i]
    requires max[..] == Merged(before, regs, i)
    modifies max
    ensures max[..] == Merged(before, regs, i + 1)
  {
    if val > max[i] { max[i] := val; }
  }

  /** The inner loop of hllMerge over one VAL opcode. */
  method MergeRun(max: array<nat>, i0: nat, v: nat, runlen: nat, ghost before: seq<nat>, ghost regs: seq<nat>)
    requires max.Length == REGISTERS == |before| && v > 0 && RunAt(regs, i0, runlen, v) && InRange(regs)
    requires max[..] == Merged(before, regs, i0)
    modifies max
    ensures max[..] == Merged(before, regs, i0 + runlen)
  {
    hide Merged;
    var i := i0;
    while i < i0 + runlen
      invariant i0 <= i <= i0 + runlen && max[..] == Merged(before, regs, i)
    {
      assert regs[i] != 0;
      RaiseMax(max, i, v, before, regs);
      i := i + 1;
    }
  }

  lemma PrefixGrows(was: seq<nat>, regs: seq<nat>, j: nat)
    requires j < |was| == |regs| && was[..j] == regs[..j]
    ensures was[j := regs[j]][..j + 1] == regs[..j + 1]
  {
    var now := was[j := regs[j]];
    assert now[..j + 1] == now[..j] + [now[j]] && now[..j] == was[..j] && regs[..j + 1] == regs[..j] + [regs[j]];
  }

  class Hll {
    const hash: Hash
    var dense: bool
    var buf: array<Byte>
    var len: nat
    var cacheValid: bool

    ghost predicate Fits()
      reads this
    {
      if dense then len == DENSE_BYTES && buf.Length == DENSE_BYTES + 1 else len < buf.Length
    }

    function Body(): seq<Byte>
      reads this, buf
      requires len <= buf.Length
    {
      buf[..len]
    }

    /** The registers the object stands for. */
    ghost function Regs(): seq<nat>
      reads this, buf
      requires Fits()
    {
      if dense then DenseRegs(buf[..]) else SparseRegs(Body())
    }

    /** An object whose sparse form can be walked without leaving it; it may still be too short or too
        long, which is what the source calls corrupted. */
    ghost predicate Readable()
      reads this, buf
    {
      Fits() && (dense || (WellFormed(Body()) && InRange(SparseRegs(Body()))))
    }

    ghost predicate Valid()
      reads this, buf
    {
      Readable() && |Regs()| == REGISTERS
    }

    /** createHLLObject: one XZERO opcode for all registers. */
    constructor (hash: Hash)
      ensures Valid() && !dense && fresh(buf) && this.hash == hash && Regs() == Rep(0, REGISTERS) && cacheValid
    {
      this.hash := hash;
      dense, cacheValid := false, true;
      var s := ZeroCode(REGISTERS);
      ZeroCodeRegs(REGISTERS);
      len := |s|;
      buf := new Byte[3](i => if 0 <= i < |s| then s[i] else 0);
      new;
      assert Body() == s;
    }

    /** sdsMakeRoomFor */
    method MakeRoom(n: nat)
      requires Fits() && !dense
      modifies this`buf
      ensures Fits() && Body() == old(Body()) && buf.Length > len + n && (buf == old(buf) || fresh(buf))
    {
      if buf.Length <= len + n {
        var b := new Byte[len + n + 1](_ => 0);
        forall i | 0 <= i < len { b[i] := buf[i]; }
        buf := b;
      }
    }

    /** memmove of what follows an opcode, and memcpy of its replacement. */
    method ReplaceBytes(p: nat, n: nat, m: seq<Byte>)
      requires Fits() && !dense && p + n <= len && len + |m| - n < buf.Length
      modifies this`len, buf
      ensures Fits() && Body() == old(Body()[..p]) + m + old(Body()[p + n..])
    {
      ghost var was, body := buf[..], Body();
      assert body[..p] == was[..p] && body[p + n..] == was[p + n..len];
      MoveAndWrite(p, n, m);
      len := len + |m| - n;
      assert Body() == buf[..][..len];
    }

    method MoveAndWrite(p: nat, n: nat, m: seq<Byte>)
      requires p + n <= len && len < buf.Length && len + |m| - n < buf.Length
      modifies buf
      ensures var was := old(buf[..]); buf[..][..len + |m| - n] == was[..p] + m + was[p + n..len]
    {
      hide *;
      ghost var was := buf[..];
      var count: nat := len - (p + n);
      MoveBytes(p + n, p + |m|, count);
      WriteBytes(p, m);
      BytesReplaced(was, p, n, count, m);
    }

    /** memmove */
    method MoveBytes(from: nat, to: nat, count: nat)
      requires from + count <= buf.Length && to + count <= buf.Length
      modifies buf
      ensures buf[..] == Moved(old(buf[..]), from, to, count)
    {
      ghost var was := buf[..];
      forall i | 0 <= i < count { buf[to + i] := buf[from + i]; }
      assert buf[..] == was[..to] + was[from..from + count] + was[to + count..];
    }

    /** memcpy */
    method WriteBytes(p: nat, m: seq<Byte>)
      requires p + |m| <= buf.Length
      modifies buf
      ensures buf[..] == Overwritten(old(buf[..]), p, m)
    {
      ghost var was := buf[..];
      forall i | 0 <= i < |m| { buf[p + i] := m[i]; }
      assert buf[..] == was[..p] + m + was[p + |m|..];
    }

    /** Step 1 of hllSparseAdd. */
    method Locate(index: nat) returns (p: nat, first: nat, span: nat, prev: nat)
      requires Readable() && !dense && (index < |Regs()| || len == 0)
      ensures if len == 0 then span == 0 else Located(Body(), index, p, first, span, prev)
    {
      ghost var body := Body();
      p, first, span, prev := 0, 0, 0, 0;
      assert body[..0] == [];
      assert body[..|body|] == body;
      hide WellFormed, SparseRegs, Located, Searching;
      while p < len
        invariant p <= len && (p == 0 ==> span == 0) && WellFormed(body) && Searching(body, index, p, first, prev)
      {
        SearchOp(body, index, p, first, prev);
        assert body[p..][0] == buf[p];
        var oplen := 1;
        if IsZero(buf[p]) {
          span := ZeroLen(buf[p]);
        } else if IsVal(buf[p]) {
          span := ValLen(buf[p]);
        } else {
          assert body[p..][1] == buf[p + 1];
          span := XZeroLen(buf[p], buf[p + 1]);
          oplen := 2;
        }
        if index <= first + span - 1 { return; }
        prev := p;
        p := p + oplen;
        first := first + span;
      }
      assert len == 0;
    }

    /** Step 4 of hllSparseAdd: merging adjacent VAL opcodes from boundary p0 on changes no register. Of the next five
        opcodes, less one for every merge, none can be merged with its successor any more. */
    method MergeFrom(p0: nat)
      requires Readable() && !dense && p0 <= len && WellFormed(Body()[..p0])
      modifies this`len, buf
      ensures Readable() && Regs() == old(Regs()) && len <= old(len)
      ensures exists n: nat, p: nat ::
        Compact(Body(), p0, n, p) && p <= len && (p == len || n + (old(len) - len) == 5)
    {
      var p: nat, scanlen := p0, 5;
      ghost var n: nat := 0;
      assert Compact(Body(), p0, 0, p0) && Fits();
      hide *;
      while p < len && scanlen > 0
        invariant !dense && p <= len <= old(len) && Readable() && Fits() && Regs() == old(Regs())
        invariant WellFormed(Body()[..p]) && Compact(Body(), p0, n, p) && n + (old(len) - len) + scanlen == 5
        decreases scanlen
      {
        scanlen := scanlen - 1;
        p, n := MergeTurn(p, p0, n);
      }
    }

    /** One turn of its loop: a merge, or a move to the next opcode. */
    method MergeTurn(p: nat, ghost p0: nat, ghost n: nat) returns (p': nat, ghost n': nat)
      requires Readable() && !dense && p < len && WellFormed(Body()[..p]) && Compact(Body(), p0, n, p)
      modifies this`len, buf
      ensures Readable() && Fits() && Regs() == old(Regs()) && p' <= len <= old(len) && WellFormed(Body()[..p'])
      ensures Compact(Body(), p0, n', p') && n' + (old(len) - len) == n + 1
    {
      hide *;
      OpEnds(p);
      ghost var body := Body();
      if IsVal(buf[p]) && p + 1 < len && IsVal(buf[p + 1]) && ValValue(buf[p]) == ValValue(buf[p + 1])
         && ValLen(buf[p]) + ValLen(buf[p + 1]) <= VAL_MAX_LEN {
        MergeAt(p, p0, n);
        return p, n;
      }
      CompactExtends(body, p0, n, p);
      return p + (if IsXZero(buf[p]) then 2 else 1), n + 1;
    }

    lemma OpEnds(p: nat)
      requires Readable() && !dense && p < len && WellFormed(Body()[..p])
      ensures p < |Body()| == len < buf.Length && Body()[p] == buf[p] && Fits()
      ensures var n := if IsXZero(buf[p]) then 2 else 1;
        n == OpSize(buf[p]) && p + n <= len && WellFormed(Body()[..p + n])
      ensures Mergeable(Body(), p) <==> CanMerge(Body(), p)
      ensures CanMerge(Body(), p) <==>
        IsVal(buf[p]) && p + 1 < len && IsVal(buf[p + 1]) && ValValue(buf[p]) == ValValue(buf[p + 1])
        && ValLen(buf[p]) + ValLen(buf[p + 1]) <= VAL_MAX_LEN
    {
      NextOp(Body(), p);
      hide WellFormed, SparseRegs, OpSpan, OpValue;
    }

    method MergeAt(p: nat, ghost q: nat, ghost n: nat)
      requires Readable() && !dense && Mergeable(Body(), p) && Compact(Body(), q, n, p)
      modifies this`len, buf
      ensures Readable() && Fits() && Regs() == old(Regs()) && p <= len && len == old(len) - 1
      ensures WellFormed(Body()[..p]) && Compact(Body(), q, n, p)
    {
      ghost var body := Body();
      MergedAt(body, p);
      var m := ValCode(ValValue(buf[p]), ValLen(buf[p]) + ValLen(buf[p + 1]));
      assert m == MergedOp(body, p);
      assert CanMerge(body, p) && IsVal(m) && ValValue(m) == ValValue(body[p]) && ValLen(m) >= ValLen(body[p]);
      hide WellFormed, SparseRegs, Mergeable, MergedOp, CanMerge, Compact;
      CompactKept(body, q, n, p, m);
      ReplaceBytes(p, 2, [m]);
    }

    /** Step 3 of hllSparseAdd: the opcode at p gives way to m. */
    method ReplaceLocated(p: nat, m: seq<Byte>, ghost index: nat, ghost first: nat, ghost span: nat, prev: nat,
                          ghost count: nat)
      requires Readable() && !dense && Located(Body(), index, p, first, span, prev) && len + 3 < buf.Length
      requires index < REGISTERS && Replacement(Body(), index, p, first, span, m, count)
      modifies this`len, buf
      ensures Readable() && Regs() == old(Regs())[index := count] && prev <= len && WellFormed(Body()[..prev])
      ensures len == old(len) + |m| - old(OpSize(buf[p]))
    {
      ghost var body := Body();
      Replaced(body, index, p, first, span, prev, m, count);
      assert |m| <= OpSize(buf[p]) + 3 && p + OpSize(buf[p]) <= len;
      hide WellFormed, SparseRegs, OpValue, Located, Replacement;
      ReplaceBytes(p, if IsXZero(buf[p]) then 2 else 1, m);
    }

    /** hllSparseToDense; false (REDIS_ERR) is returned for a sparse form that does not describe exactly
        the right number of registers, and nothing changes then. */
    method SparseToDense() returns (ok: bool)
      requires Readable()
      modifies this
      ensures Readable() && cacheValid == old(cacheValid) && ok == (|old(Regs())| == REGISTERS)
      ensures ok ==> Valid() && dense && Regs() == old(Regs()) && (fresh(buf) || old(dense))
      ensures !ok || old(dense) ==> buf == old(buf) && len == old(len) && dense == old(dense)
    {
      if dense { return true; }
      ghost var body, regs := Body(), Regs();
      var p := new Byte[DENSE_BYTES + 1](_ => 0);
      DenseZero(p[..]);
      assert FirstRegs(regs, 0) == Rep(0, REGISTERS);
      assert body[..0] == [];
      assert body[..|body|] == body;
      hide DenseRegs, FirstRegs, RunAt, SparseRegs, WellFormed;
      var idx, i: nat := 0, 0;
      while i < len
        invariant i <= len && WellFormed(body[..i]) && |SparseRegs(body[..i])| == idx
        invariant DenseRegs(p[..]) == FirstRegs(regs, idx)
        modifies p
      {
        var v, runlen, n := ReadOp(Body(), i, idx);
        if v != 0 {
          SetRun(p, idx, v, runlen, regs);
        } else {
          FirstRegsZero(regs, idx, runlen);
        }
        idx := idx + runlen;
        i := i + n;
      }
      if idx != REGISTERS { return false; }
      FirstRegsAll(regs);
      dense, buf, len := true, p, DENSE_BYTES;
      return true;
    }

    /** Step 3 with its size check; false asks for the dense form, and nothing changes then. That happens exactly when
        the new opcodes take more bytes than the old one and the size limit has no room for them. */
    method UpdateLocated(p: nat, first: nat, span: nat, prev: nat, index: nat, count: nat, maxBytes: nat)
      returns (done: bool)
      requires Readable() && !dense && Located(Body(), index, p, first, span, prev) && len + 3 < buf.Length
      requires index < REGISTERS && OpValue(Body()[p..]) < count <= VAL_MAX_VALUE
      modifies this`len, buf
      ensures Readable()
      ensures if done then Regs() == old(Regs())[index := count] && prev <= len && WellFormed(Body()[..prev])
              else Regs() == old(Regs()) && len == old(len)
      ensures if done then len <= old(len) || HDR_SIZE + len <= maxBytes else HDR_SIZE + len + 3 > maxBytes
      ensures old(p < |Body()| && first <= index < first + span)
      ensures var more := old(NewSize(Body(), p, first, span, index) - OpSize(buf[p]));
        done == (more <= 0 || HDR_SIZE + old(len) + more <= maxBytes) && (done ==> len == old(len) + more)
    {
      LocatedOp(Body(), index, p, first, span, prev);
      var m := NewOps(Body(), p, first, span, prev, index, count);
      hide *;
      var deltalen := |m| - OpSize(buf[p]);
      if deltalen > 0 && HDR_SIZE + len + deltalen > maxBytes { return false; }
      ReplaceLocated(p, m, index, first, span, prev, count);
      return true;
    }

    /** The promotion at the end of hllSparseAdd: the addition to the dense form does change a
        register. */
    method Promote(ele: seq<Byte>) returns (r: int)
      requires Readable() && !dense
      requires PatIndex(hash(ele)) < |Regs()| ==> Regs()[PatIndex(hash(ele))] < PatCount(hash(ele))
      modifies this
      ensures Readable() && cacheValid == old(cacheValid) && (buf == old(buf) || fresh(buf))
      ensures Outcome(old(Regs()), Regs(), PatIndex(hash(ele)), PatCount(hash(ele)), r) && (r == 1 ==> dense)
        && (!dense ==> len == old(len))
    {
      hide PatIndex, PatCount, DenseRegs, WellFormed, SparseRegs;
      var ok := SparseToDense();
      if !ok { return -1; }
      var dense_retval := DenseAdd(hash, buf, ele);
      assert dense_retval;
      return 1;
    }

    /** hllSparseAdd */
    method SparseAdd(ele: seq<Byte>, maxBytes: nat) returns (r: int)
      requires Readable() && !dense && (len == 0 || PatIndex(hash(ele)) < |Regs()|)
      modifies this, buf
      ensures Readable() && (buf == old(buf) || fresh(buf))
      ensures Outcome(old(Regs()), Regs(), PatIndex(hash(ele)), PatCount(hash(ele)), r)
      ensures cacheValid == (old(cacheValid) && (r == 1 ==> dense))
      ensures if dense then PatCount(hash(ele)) > VAL_MAX_VALUE || HDR_SIZE + old(len) + 3 > maxBytes
              else len <= old(len) || HDR_SIZE + len <= maxBytes
    {
      SparseBound(Body());
      hide PatIndex, PatCount, DenseRegs, WellFormed, SparseRegs, Located, OpValue;
      var count, index := PatLen(hash, ele);
      if count > VAL_MAX_VALUE {
        r := Promote(ele);
        return;
      }
      MakeRoom(3);
      var p, first, span, prev := Locate(index);
      if span == 0 { return -1; }
      LocatedValue(Body(), index, p, first, span, prev);
      if IsVal(buf[p]) {
        var oldcount := ValValue(buf[p]);
        if oldcount >= count { return 0; }
      }
      r := Update(ele, p, first, span, prev, index, count, maxBytes);
    }

    /** hllSparseAdd from step B on, for a register that has to be raised. */
    method Update(ele: seq<Byte>, p: nat, first: nat, span: nat, prev: nat, index: nat, count: nat, maxBytes: nat)
      returns (r: int)
      requires Readable() && !dense && Located(Body(), index, p, first, span, prev) && len + 3 < buf.Length
      requires index == PatIndex(hash(ele)) < |Regs()| && count == PatCount(hash(ele))
      requires OpValue(Body()[p..]) == Regs()[index] < count <= VAL_MAX_VALUE
      modifies this, buf
      ensures Readable() && (buf == old(buf) || fresh(buf))
      ensures Outcome(old(Regs()), Regs(), index, count, r) && cacheValid == (old(cacheValid) && (r == 1 ==> dense))
      ensures if dense then HDR_SIZE + old(len) + 3 > maxBytes else len <= old(len) || HDR_SIZE + len <= maxBytes
    {
      hide PatIndex, PatCount, DenseRegs, WellFormed, SparseRegs, Located, OpValue;
      var done := UpdateLocated(p, first, span, prev, index, count, maxBytes);
      if !done {
        r := Promote(ele);
        return;
      }
      MergeFrom(prev);
      cacheValid := false;
      return 1;
    }

    /** hllAdd */
    method Add(ele: seq<Byte>, maxBytes: nat) returns (r: int)
      requires Readable() && (dense || len == 0 || PatIndex(hash(ele)) < |Regs()|)
      modifies this, buf
      ensures Readable() && (buf == old(buf) || fresh(buf))
      ensures Outcome(old(Regs()), Regs(), PatIndex(hash(ele)), PatCount(hash(ele)), r)
        && (if r == 1 then cacheValid ==> old(cacheValid) else cacheValid == old(cacheValid))
      ensures !dense ==> !old(dense) && (len <= old(len) || HDR_SIZE + len <= maxBytes)
    {
      if dense {
        hide PatIndex, PatCount, DenseRegs, WellFormed, SparseRegs;
        var changed := DenseAdd(hash, buf, ele);
        r := if changed then 1 else 0;
      } else {
        r := SparseAdd(ele, maxBytes);
      }
    }

    /** hllAdd on an object that is not corrupted. */
    method AddValid(ele: seq<Byte>, maxBytes: nat) returns (r: int)
      requires Valid()
      modifies this, buf
      ensures Valid() && Fits() && |Regs()| == REGISTERS && (buf == old(buf) || fresh(buf))
      ensures Outcome(old(Regs()), Regs(), PatIndex(hash(ele)), PatCount(hash(ele)), r)
        && (if r == 1 then cacheValid ==> old(cacheValid) else cacheValid == old(cacheValid))
      ensures !dense ==> !old(dense) && (len <= old(len) || HDR_SIZE + len <= maxBytes)
    {
      hide PatIndex, PatCount, DenseRegs, WellFormed, SparseRegs;
      r := Add(ele, maxBytes);
    }

    /** HLL_INVALIDATE_CACHE */
    method InvalidateCache()
      requires Valid()
      modifies this`cacheValid
      ensures Valid() && Regs() == old(Regs()) && !cacheValid
    {
      cacheValid := false;
    }

    /** The loop of pfaddCommand over the elements; the result is whether anything was raised. */
    method AddMany(es: seq<seq<Byte>>, maxBytes: nat) returns (updated: bool)
      requires Valid()
      modifies this, buf
      ensures Valid() && Regs() == AddAll(hash, old(Regs()), es) && updated == (Regs() != old(Regs()))
      ensures cacheValid == (old(cacheValid) && !updated)
      ensures !dense ==> !old(dense) && (len <= old(len) || 16 + len <= maxBytes)
    {
      assert HDR_SIZE == 16;
      hide *;
      ValidFits();
      ghost var regs := Regs();
      GrownStart(regs);
      updated := AddEach(es, maxBytes, regs);
      GrownEnd(hash, regs, Regs(), updated);
      if updated { InvalidateCache(); }
      ValidFits();
    }

    lemma ValidFits()
      requires Valid()
      ensures Fits() && |Regs()| == REGISTERS
    {}

    method AddEach(es: seq<seq<Byte>>, maxBytes: nat, ghost regs: seq<nat>) returns (updated: bool)
      requires Valid() && Fits() && regs == Regs() && |regs| == REGISTERS && Grown(regs, regs, false)
      modifies this, buf
      ensures Valid() && Fits() && |Regs()| == REGISTERS
      ensures AddAll(hash, Regs(), []) == AddAll(hash, regs, es) && Grown(regs, Regs(), updated)
      ensures if updated then cacheValid ==> old(cacheValid) else cacheValid == old(cacheValid)
      ensures !dense ==> !old(dense) && (len <= old(len) || HDR_SIZE + len <= maxBytes)
    {
      hide *;
      updated := false;
      var j := 0;
      assert es[0..] == es;
      while j < |es|
        invariant j <= |es| && Valid() && Fits() && |Regs()| == REGISTERS
        invariant AddAll(hash, Regs(), es[j..]) == AddAll(hash, regs, es) && Grown(regs, Regs(), updated)
        invariant (cacheValid ==> old(cacheValid)) && (!updated ==> cacheValid == old(cacheValid))
        invariant buf == old(buf) || fresh(buf)
        invariant !dense ==> !old(dense) && (len <= old(len) || HDR_SIZE + len <= maxBytes)
      {
        updated := AddNext(es, j, maxBytes, updated, regs);
        j := j + 1;
      }
      assert es[j..] == [];
    }

    /** One turn of the loop of PFADD. */
    method AddNext(es: seq<seq<Byte>>, j: nat, maxBytes: nat, updated0: bool, ghost regs: seq<nat>)
      returns (updated: bool)
      requires Valid() && j < |es| && Grown(regs, Regs(), updated0)
      modifies this, buf
      ensures Valid() && Fits() && |Regs()| == REGISTERS && (buf == old(buf) || fresh(buf))
      ensures AddAll(hash, Regs(), es[j + 1..]) == AddAll(hash, old(Regs()), es[j..]) && Grown(regs, Regs(), updated)
      ensures (cacheValid ==> old(cacheValid)) && (!updated ==> !updated0 && cacheValid == old(cacheValid))
        && (!dense ==> !old(dense) && (len <= old(len) || HDR_SIZE + len <= maxBytes))
    {
      hide *;
      ValidFits();
      ghost var was := Regs();
      var retval := AddValid(es[j], maxBytes);
      AddStep(hash, es, j, regs, was, Regs(), retval, updated0);
      updated := updated0 || retval == 1;
    }

    /** hllMerge; false (REDIS_ERR) for a sparse form with a wrong number of registers. */
    method Merge(max: array<nat>) returns (ok: bool)
      requires Readable() && max.Length == REGISTERS
      modifies max
      ensures ok == (|Regs()| == REGISTERS)
      ensures ok ==> max[..] == MaxRegs(old(max[..]), Regs())
    {
      ghost var before, regs := max[..], Regs();
      assert |regs| == REGISTERS ==> Merged(before, regs, REGISTERS) == MaxRegs(before, regs);
      hide DenseRegs, SparseRegs, WellFormed, Merged, MaxRegs;
      if dense {
        MergeDense(max, before);
        ok := true;
      } else {
        ok := MergeSparse(max, before);
      }
    }

    method MergeDense(max: array<nat>, ghost before: seq<nat>)
      requires Fits() && dense && max.Length == REGISTERS == |before| && max[..] == before
      modifies max
      ensures |Regs()| == REGISTERS && max[..] == Merged(before, Regs(), REGISTERS)
    {
      ghost var regs := Regs();
      assert Merged(before, regs, 0) == before;
      hide DenseGet, DenseRegs, Merged;
      for i := 0 to REGISTERS
        invariant max[..] == Merged(before, regs, i)
      {
        DenseRegAt(buf[..], i);
        RaiseMax(max, i, DenseGet(buf[..], i), before, regs);
      }
    }

    method MergeSparse(max: array<nat>, ghost before: seq<nat>) returns (ok: bool)
      requires Readable() && !dense && max.Length == REGISTERS == |before| && max[..] == before
      modifies max
      ensures ok == (|Regs()| == REGISTERS)
      ensures ok ==> max[..] == Merged(before, Regs(), REGISTERS)
    {
      ghost var regs := Regs();
      assert Merged(before, regs, 0) == before;
      assert Body()[..0] == [] && Body()[..len] == Body();
      hide SparseRegs, WellFormed, Merged;
      var i, p: nat := 0, 0;
      while p < len
        invariant p <= len && WellFormed(Body()[..p]) && |SparseRegs(Body()[..p])| == i
        invariant max[..] == Merged(before, regs, i)
      {
        var regval, runlen, n := ReadOp(Body(), p, i);
        if regval == 0 { ZerosMerged(before, regs, i, runlen); } else {
          MergeRun(max, i, regval, runlen, before, regs);
        }
        i := i + runlen;
        p := p + n;
      }
      ok := i == REGISTERS;
    }

    /** What pfmergeCommand does with the merged registers. */
    method Store(max: array<nat>) returns (ok: bool)
      requires Readable() && max.Length == REGISTERS && forall i :: 0 <= i < REGISTERS ==> max[i] < 64
      modifies this, buf
      ensures ok == (|old(Regs())| == REGISTERS)
      ensures ok ==> Valid() && dense && Regs() == old(max[..]) && !cacheValid
      ensures !ok ==> Readable() && Regs() == old(Regs())
    {
      hide DenseRegs, WellFormed, SparseRegs;
      ghost var regs := max[..];
      ok := SparseToDense();
      if !ok { return; }
      cacheValid := false;
      var j := 0;
      while j < REGISTERS
        invariant j <= REGISTERS && Valid() && max[..] == regs && dense && !cacheValid
        invariant Regs()[..j] == regs[..j]
        modifies buf
      {
        ghost var was := DenseRegs(buf[..]);
        SetRegister(buf, j, max[j]);
        PrefixGrows(was, regs, j);
        j := j + 1;
      }
    }
  }

  lemma PairSlices<T>(s: seq<T>, p: nat)
    requires p + 2 <= |s|
    ensures s == s[..p] + ([s[p]] + [s[p + 1]]) + s[p + 2..]
  {}

  ghost function Moved<T>(was: seq<T>, from: nat, to: nat, count: nat): (r: seq<T>)
    requires from + count <= |was| && to + count <= |was|
    ensures |r| == |was|
  {
    was[..to] + was[from..from + count] + was[to + count..]
  }

  ghost function Overwritten<T>(was: seq<T>, p: nat, m: seq<T>): (r: seq<T>)
    requires p + |m| <= |was|
    ensures |r| == |was|
  {
    was[..p] + m + was[p + |m|..]
  }

  lemma BytesReplaced<T>(was: seq<T>, p: nat, n: nat, count: nat, m: seq<T>)
    requires p + n + count <= |was| && p + |m| + count <= |was|
    ensures Overwritten(Moved(was, p + n, p + |m|, count), p, m)[..p + |m| + count]
         == was[..p] + m + was[p + n..p + n + count]
  {}

  lemma TakeFront<T>(a: seq<T>, m: seq<T>, b: seq<T>)
    ensures (a + m + b)[..|a|] == a
  {}
}
