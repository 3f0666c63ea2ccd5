/** What a HyperLogLog stands for: register i holds the largest pattern count among the elements
    added so far that fall into register i. */
module HllMax {
  import opened Words
  import opened Bytes
  import opened HllCodec

  /** The hash function of the source is left arbitrary. */
  type Hash = seq<Byte> -> Word

  const INDEX_BITS: nat := 14
  const MAX_COUNT: nat := 50

  function FirstOne(h: Word, k: nat): (r: nat)
    requires k < 64 && h[63]
    ensures k <= r < 64 && h[r] && forall j :: k <= j < r ==> !h[j]
    decreases 64 - k
  {
    if h[k] then k else FirstOne(h, k + 1)
  }

  /** The register an element falls into: the low 14 bits of its hash. */
  function PatIndex(h: Word): (i: nat)
    ensures i < REGISTERS
  {
    ValBound(h[..INDEX_BITS]);
    assert Pow2(14) == 16384 by { assert Pow2(7) == 128; PowAdd(7, 7); }
    Val(h[..INDEX_BITS])
  }

  /** The number of zero bits above the index bits, plus one; bit 63 counts as set. */
  function PatCount(h: Word): (c: nat)
    ensures 1 <= c <= MAX_COUNT
    ensures forall j :: INDEX_BITS <= j < INDEX_BITS + c - 1 ==> !h[j]
    ensures c == MAX_COUNT || h[INDEX_BITS + c - 1]
  {
    var marked := h[63 := true];
    assert forall j :: INDEX_BITS <= j < 63 ==> marked[j] == h[j];
    var first := FirstOne(marked, INDEX_BITS);
    assert forall j :: INDEX_BITS <= j < first ==> !marked[j];
    first - INDEX_BITS + 1
  }

  /** The index is the hash modulo 2^14. */
  lemma PatIndexIsMod(h: Word)
    ensures PatIndex(h) == Val(h) % 16384
  {
    assert Pow2(14) == 16384 by { assert Pow2(7) == 128; PowAdd(7, 7); }
    ValPrefix(h, 14);
  }

  function Raise(regs: seq<nat>, i: nat, count: nat): (r: seq<nat>)
    requires i < |regs|
    ensures |r| == |regs|
  {
    if count > regs[i] then regs[i := count] else regs
  }

  function AddAll(hash: Hash, regs: seq<nat>, es: seq<seq<Byte>>): (r: seq<nat>)
    requires |regs| == REGISTERS
    ensures |r| == REGISTERS
    decreases |es|
  {
    if es == [] then regs
    else AddAll(hash, Raise(regs, PatIndex(hash(es[0])), PatCount(hash(es[0]))), es[1..])
  }

  function Max(a: nat, b: nat): nat {
    if a > b then a else b
  }

  /** The largest count among the elements that fall into register i, 0 when there is none. */
  function Largest(hash: Hash, es: seq<seq<Byte>>, i: nat): (c: nat) {
    if es == [] then 0
    else Max(if PatIndex(hash(es[0])) == i then PatCount(hash(es[0])) else 0, Largest(hash, es[1..], i))
  }

  lemma {:induction false} LargestIsLargest(hash: Hash, es: seq<seq<Byte>>, i: nat)
    ensures forall e :: e in es && PatIndex(hash(e)) == i ==> PatCount(hash(e)) <= Largest(hash, es, i)
    ensures var c := Largest(hash, es, i);
      c == 0 || exists e :: e in es && PatIndex(hash(e)) == i && PatCount(hash(e)) == c
  {
    if es != [] {
      hide PatIndex, PatCount;
      LargestIsLargest(hash, es[1..], i);
      assert es == [es[0]] + es[1..];
    }
  }

  /** After any sequence of additions register i is the largest count among what it held and the
      counts of the elements that fall into it. */
  lemma {:induction false} RegistersAreMaxima(hash: Hash, regs: seq<nat>, es: seq<seq<Byte>>, i: nat)
    requires |regs| == REGISTERS && i < REGISTERS
    ensures AddAll(hash, regs, es)[i] == Max(regs[i], Largest(hash, es, i))
    decreases |es|
  {
    if es != [] {
      hide PatIndex, PatCount;
      RegistersAreMaxima(hash, Raise(regs, PatIndex(hash(es[0])), PatCount(hash(es[0]))), es[1..], i);
    }
  }

  lemma SameElementsSameLargest(hash: Hash, a: seq<seq<Byte>>, b: seq<seq<Byte>>, i: nat)
    requires forall e :: e in a ==> e in b
    ensures Largest(hash, a, i) <= Largest(hash, b, i)
  {
    LargestIsLargest(hash, a, i);
    LargestIsLargest(hash, b, i);
  }

  /** Neither the order nor the repetition of additions matters. */
  lemma OrderAndRepetition(hash: Hash, regs: seq<nat>, a: seq<seq<Byte>>, b: seq<seq<Byte>>)
    requires |regs| == REGISTERS && forall e :: e in a <==> e in b
    ensures AddAll(hash, regs, a) == AddAll(hash, regs, b)
  {
    hide Largest, AddAll;
    forall i | 0 <= i < REGISTERS ensures AddAll(hash, regs, a)[i] == AddAll(hash, regs, b)[i] {
      RegistersAreMaxima(hash, regs, a, i);
      RegistersAreMaxima(hash, regs, b, i);
      SameElementsSameLargest(hash, a, b, i);
      SameElementsSameLargest(hash, b, a, i);
    }
  }

  function MaxRegs(a: seq<nat>, b: seq<nat>): (r: seq<nat>)
    requires |a| == |b|
    ensures |r| == |a|
  {
    seq(|a|, i requires 0 <= i < |a| => Max(a[i], b[i]))
  }

  lemma {:induction false} LargestAppend(hash: Hash, a: seq<seq<Byte>>, b: seq<seq<Byte>>, i: nat)
    ensures Largest(hash, a + b, i) == Max(Largest(hash, a, i), Largest(hash, b, i))
  {
    if a == [] {
      assert a + b == b;
    } else {
      assert (a + b)[1..] == a[1..] + b;
      LargestAppend(hash, a[1..], b, i);
    }
  }

  /** Merging the registers of two HyperLogLogs gives the registers of the union of their elements. */
  lemma MergeIsUnion(hash: Hash, a: seq<seq<Byte>>, b: seq<seq<Byte>>)
    ensures var zero := Rep(0, REGISTERS);
      MaxRegs(AddAll(hash, zero, a), AddAll(hash, zero, b)) == AddAll(hash, zero, a + b)
  {
    var zero := Rep(0, REGISTERS);
    hide AddAll, Largest;
    forall i | 0 <= i < REGISTERS
      ensures MaxRegs(AddAll(hash, zero, a), AddAll(hash, zero, b))[i] == AddAll(hash, zero, a + b)[i]
    {
      RegistersAreMaxima(hash, zero, a, i);
      RegistersAreMaxima(hash, zero, b, i);
      RegistersAreMaxima(hash, zero, a + b, i);
      LargestAppend(hash, a, b, i);
    }
  }
}
