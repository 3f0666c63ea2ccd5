/** 64-bit `unsigned long` values as bits, least significant first, with their two readings:
    `Val`, the number, and `Rank`, the number whose bits are reversed. */
module Words {

  type Word = w: seq<bool> | |w| == 64 witness seq(64, _ => false)

  function Pow2(k: nat): (p: nat)
    ensures p > 0
  {
    if k == 0 then 1 else 2 * Pow2(k - 1)
  }

  function Val(s: seq<bool>): (n: nat)
  {
    if s == [] then 0 else (if s[0] then 1 else 0) + 2 * Val(s[1..])
  }

  /** The number with the first bit as the most significant one. */
  function Rank(s: seq<bool>): (n: nat)
  {
    if s == [] then 0 else (if s[0] then Pow2(|s| - 1) else 0) + Rank(s[1..])
  }

  function Zeros(n: nat): (s: seq<bool>)
    ensures |s| == n && forall i :: 0 <= i < n ==> !s[i]
  {
    seq(n, _ => false)
  }

  // ---------------------------------------------------------------- machine operations

  function And(a: Word, b: Word): Word {
    seq(64, i requires 0 <= i < 64 => a[i] && b[i])
  }

  function Or(a: Word, b: Word): Word {
    seq(64, i requires 0 <= i < 64 => a[i] || b[i])
  }

  function Xor(a: Word, b: Word): Word {
    seq(64, i requires 0 <= i < 64 => a[i] != b[i])
  }

  function Not(a: Word): Word {
    seq(64, i requires 0 <= i < 64 => !a[i])
  }

  function ShiftLeft(a: Word, s: nat): Word {
    seq(64, i requires 0 <= i < 64 => i >= s && a[i - s])
  }

  function ShiftRight(a: Word, s: nat): Word {
    seq(64, i requires 0 <= i < 64 => i + s < 64 && a[i + s])
  }

  /** Adding one: the carry ripples through the leading ones. */
  function Increment(s: seq<bool>): (r: seq<bool>)
    ensures |r| == |s|
  {
    if s == [] then [] else if s[0] then [false] + Increment(s[1..]) else [true] + s[1..]
  }

  function Reversed(s: seq<bool>): (r: seq<bool>)
    ensures |r| == |s|
  {
    seq(|s|, i requires 0 <= i < |s| => s[|s| - 1 - i])
  }

  /** size - 1 for a table of 2^k buckets. */
  function Mask(k: nat): Word {
    seq(64, i => i < k)
  }

  // ---------------------------------------------------------------- numbers

  lemma {:induction false} PowAdd(a: nat, b: nat)
    ensures Pow2(a + b) == Pow2(a) * Pow2(b)
  {
    if a > 0 { PowAdd(a - 1, b); }
  }

  lemma {:induction false} ValBound(s: seq<bool>)
    ensures Val(s) < Pow2(|s|)
  {
    if s != [] { ValBound(s[1..]); }
  }

  lemma {:induction false} RankBound(s: seq<bool>)
    ensures Rank(s) < Pow2(|s|)
  {
    if s != [] { RankBound(s[1..]); }
  }

  lemma DoubleProduct(a: int, b: int)
    ensures (2 * a) * b == 2 * (a * b)
  {}

  lemma {:induction false} ValAppend(s: seq<bool>, t: seq<bool>)
    ensures Val(s + t) == Val(s) + Pow2(|s|) * Val(t)
  {
    if s == [] {
      assert s + t == t;
    } else {
      assert (s + t)[1..] == s[1..] + t;
      ValAppend(s[1..], t);
      DoubleProduct(Pow2(|s| - 1), Val(t));
    }
  }

  lemma Distribute(a: int, b: int, m: int)
    ensures (a + b) * m == a * m + b * m
  {}

  lemma {:induction false} RankAppend(s: seq<bool>, t: seq<bool>)
    ensures Rank(s + t) == Rank(s) * Pow2(|t|) + Rank(t)
  {
    if s == [] {
      assert s + t == t;
    } else {
      assert (s + t)[1..] == s[1..] + t;
      RankAppend(s[1..], t);
      PowAdd(|s| - 1, |t|);
      var high, low, m := if s[0] then Pow2(|s| - 1) else 0, Rank(s[1..]), Pow2(|t|);
      Distribute(high, low, m);
      assert Rank(s) == high + low && Rank(s + t) == high * m + Rank(s[1..] + t);
    }
  }

  lemma {:induction false} ZerosValue(n: nat)
    ensures Val(Zeros(n)) == 0 && Rank(Zeros(n)) == 0
  {
    if n > 0 {
      assert Zeros(n)[1..] == Zeros(n - 1);
      ZerosValue(n - 1);
    }
  }

  lemma {:induction false} ValInjective(s: seq<bool>, t: seq<bool>)
    requires |s| == |t| && Val(s) == Val(t)
    ensures s == t
  {
    if s != [] {
      ValInjective(s[1..], t[1..]);
      assert s == [s[0]] + s[1..] && t == [t[0]] + t[1..];
    }
  }

  lemma {:induction false} RankInjective(s: seq<bool>, t: seq<bool>)
    requires |s| == |t| && Rank(s) == Rank(t)
    ensures s == t
  {
    if s != [] {
      RankBound(s[1..]);
      RankBound(t[1..]);
      RankInjective(s[1..], t[1..]);
      assert s == [s[0]] + s[1..] && t == [t[0]] + t[1..];
    }
  }

  /** The low k bits of a number are its remainder modulo 2^k. */
  lemma ValPrefix(s: seq<bool>, k: nat)
    requires k <= |s|
    ensures Val(s) % Pow2(k) == Val(s[..k])
  {
    assert s == s[..k] + s[k..];
    ValAppend(s[..k], s[k..]);
    ValBound(s[..k]);
    ModUnique(Val(s), Pow2(k), Val(s[k..]), Val(s[..k]));
  }

  lemma ModUnique(n: nat, m: nat, q: nat, r: nat)
    requires m > 0 && r < m && n == r + m * q
    ensures n % m == r && n / m == q
  {
    var d := n / m;
    Distribute(q - d, d, m);
    assert m * (q - d) == n % m - r;
    AtLeastOneMultiple(q - d, m);
    AtLeastOneMultiple(d - q, m);
  }

  lemma AtLeastOneMultiple(a: int, m: nat)
    ensures a >= 1 ==> m * a >= m
    ensures a <= 0 ==> m * a <= 0
  {}

  /** `h & sizemask` is the remainder by the table size. */
  lemma AndMaskIsMod(w: Word, k: nat)
    requires k <= 64
    ensures Val(And(w, Mask(k))) == Val(w) % Pow2(k) == Val(w[..k])
  {
    assert And(w, Mask(k)) == w[..k] + Zeros(64 - k);
    ValAppend(w[..k], Zeros(64 - k));
    ZerosValue(64 - k);
    ValPrefix(w, k);
  }

  lemma {:induction false} IncrementValue(s: seq<bool>)
    ensures Val(Increment(s)) == if Val(s) + 1 == Pow2(|s|) then 0 else Val(s) + 1
  {
    if s != [] {
      IncrementValue(s[1..]);
    }
  }

  /** Incrementing looks only upwards: a prefix is incremented on its own. */
  lemma {:induction false} IncrementPrefix(s: seq<bool>, k: nat)
    requires k <= |s|
    ensures Increment(s)[..k] == Increment(s[..k])
  {
    if k > 0 {
      assert s[..k][1..] == s[1..][..k - 1];
      if s[0] { IncrementPrefix(s[1..], k - 1); }
    }
  }

  /** A carry out of all ones. */
  lemma {:induction false} IncrementCarries(n: nat, t: seq<bool>)
    ensures Increment(seq(n, _ => true) + t) == Zeros(n) + Increment(t)
  {
    var ones := seq(n, _ => true);
    if n == 0 {
      assert ones + t == t;
    } else {
      assert (ones + t)[1..] == seq(n - 1, _ => true) + t;
      IncrementCarries(n - 1, t);
      assert Zeros(n) == [false] + Zeros(n - 1);
    }
  }

  lemma {:induction false} RankIsReversedVal(s: seq<bool>)
    ensures Rank(s) == Val(Reversed(s))
  {
    if s != [] {
      RankIsReversedVal(s[1..]);
      assert Reversed(s) == Reversed(s[1..]) + [s[0]];
      ValAppend(Reversed(s[1..]), [s[0]]);
      assert Val([s[0]]) == if s[0] then 1 else 0;
    }
  }

  // ---------------------------------------------------------------- rev

  function Mod(i: int, m: int): int
    requires m > 0
  {
    i % m
  }

  lemma ModIs(i: nat, m: nat, q: nat, r: nat)
    requires m > 0 && r < m && i == r + m * q
    ensures Mod(i, m) == r
  {
    ModUnique(i, m, q, r);
  }

  lemma ModParts(i: nat, m: nat) returns (q: nat, r: nat)
    requires m > 0
    ensures r == Mod(i, m) < m && i == r + m * q
  {
    q, r := i / m, i % m;
  }

  /** Where bit i comes from once blocks of s bits have been put in reverse order. */
  function Source(i: int, s: int): int
    requires s > 0
  {
    64 - s - i + 2 * Mod(i, s)
  }

  /** Halving the block size from 2h to h: the mask keeps the lower halves, and a bit comes from the
      half its partner block held. */
  lemma SourceHalves(i: nat, h: nat, c: nat)
    requires h > 0 && i < 64 && 64 == 2 * h * c
    ensures (Mod(i, 4 * h) < 2 * h) != (i >= h && Mod(i - h, 4 * h) < 2 * h) <==> Mod(i, 2 * h) < h
    ensures Mod(i, 2 * h) < h ==> i + h < 64 && Source(i + h, 2 * h) == Source(i, h)
    ensures Mod(i, 2 * h) >= h ==> i >= h && Source(i - h, 2 * h) == Source(i, h)
  {
    hide *;
    var q, r := ModParts(i, 4 * h);
    MaskHalves(i, h, q, r);
    var k, m := ModParts(i, 2 * h);
    SourceBit(i, h, c, k, m);
  }

  lemma MaskHalves(i: nat, h: nat, q: nat, r: nat)
    requires h > 0 && r == Mod(i, 4 * h) < 4 * h && i == r + 4 * h * q
    ensures Mod(i, 2 * h) == if r < 2 * h then r else r - 2 * h
    ensures i >= h ==> Mod(i - h, 4 * h) == if r >= h then r - h else r + 3 * h
    ensures r >= h ==> i >= h
  {
    hide Mod;
    if r < 2 * h { ModIs(i, 2 * h, 2 * q, r); } else { ModIs(i, 2 * h, 2 * q + 1, r - 2 * h); }
    if r >= h {
      ModIs(i - h, 4 * h, q, r - h);
    } else if i >= h {
      assert q > 0;
      Distribute(q - 1, 1, 4 * h);
      ModIs(i - h, 4 * h, q - 1, r + 3 * h);
    }
  }

  lemma SourceBit(i: nat, h: nat, c: nat, k: nat, m: nat)
    requires h > 0 && i < 64 && 64 == 2 * h * c && m < 2 * h && i == m + 2 * h * k
    ensures Mod(i, 2 * h) == m
    ensures m < h ==> i + h < 64 && Source(i + h, 2 * h) == Source(i, h)
    ensures m >= h ==> i >= h && Source(i - h, 2 * h) == Source(i, h)
  {
    hide Mod;
    var x := h * k;
    assert 2 * h * k == 2 * x && h * (2 * k) == 2 * x;
    ModIs(i, 2 * h, k, m);
    BlockFits(i, h, c, k, m);
    if m < h {
      ModIs(i + h, 2 * h, k, m + h);
      ModIs(i, h, 2 * k, m);
    } else {
      ModIs(i - h, 2 * h, k, m - h);
      assert h * (2 * k + 1) == 2 * x + h;
      ModIs(i, h, 2 * k + 1, m - h);
    }
  }

  lemma BlockFits(i: nat, h: nat, c: nat, k: nat, m: nat)
    requires h > 0 && i < 64 && 64 == 2 * h * c && m < 2 * h && i == m + 2 * h * k
    ensures m < h ==> i + h < 64
    ensures m >= h ==> i >= h
  {
    Distribute(c - k, k, 2 * h);
    AtLeastOneMultiple(c - k, 2 * h);
  }

  ghost predicate Swapped(v0: Word, v: Word, mask: Word, s: nat) {
    s > 0 && forall i :: 0 <= i < 64 ==>
      mask[i] == (Mod(i, 2 * s) < s) && 0 <= Source(i, s) < 64 && v[i] == v0[Source(i, s)]
  }

  lemma SwapHalves(v0: Word, v: Word, mask: Word, h: nat, c: nat)
    requires h > 0 && 64 == 2 * h * c && Swapped(v0, v, mask, 2 * h)
    ensures var mask' := Xor(mask, ShiftLeft(mask, h));
      Swapped(v0, Or(And(ShiftRight(v, h), mask'), And(ShiftLeft(v, h), Not(mask'))), mask', h)
  {
    var mask' := Xor(mask, ShiftLeft(mask, h));
    var v' := Or(And(ShiftRight(v, h), mask'), And(ShiftLeft(v, h), Not(mask')));
    forall i | 0 <= i < 64
      ensures mask'[i] == (Mod(i, 2 * h) < h) && 0 <= Source(i, h) < 64 && v'[i] == v0[Source(i, h)]
    {
      SourceHalves(i, h, c);
    }
  }

  lemma StartSwapped(v0: Word)
    ensures Swapped(v0, v0, Not(Zeros(64)), 64)
  {
    forall i | 0 <= i < 64 ensures Mod(i, 128) == i && Mod(i, 64) == i {}
  }

  lemma EndSwapped(v0: Word, v: Word, mask: Word)
    requires Swapped(v0, v, mask, 1)
    ensures v == Reversed(v0)
  {
    forall i | 0 <= i < 64 ensures v[i] == Reversed(v0)[i] {}
  }

  ghost predicate BlockSize(s: nat) {
    s in {1, 2, 4, 8, 16, 32, 64}
  }

  lemma SwapStep(v0: Word, v: Word, mask: Word, s: nat)
    requires BlockSize(s) && s > 1 && Swapped(v0, v, mask, s)
    ensures var h := s / 2; var mask' := Xor(mask, ShiftLeft(mask, h));
      BlockSize(h) && Swapped(v0, Or(And(ShiftRight(v, h), mask'), And(ShiftLeft(v, h), Not(mask'))), mask', h)
  {
    hide Swapped, Xor, Or, And, Not, ShiftLeft, ShiftRight;
    if s == 64 { SwapHalves(v0, v, mask, 32, 1); }
    if s == 32 { SwapHalves(v0, v, mask, 16, 2); }
    if s == 16 { SwapHalves(v0, v, mask, 8, 4); }
    if s == 8 { SwapHalves(v0, v, mask, 4, 8); }
    if s == 4 { SwapHalves(v0, v, mask, 2, 16); }
    if s == 2 { SwapHalves(v0, v, mask, 1, 32); }
  }

  /** The bit reversal of the source: swap halves, then quarters, down to single bits. */
  method Rev(v0: Word) returns (v: Word)
    ensures v == Reversed(v0)
  {
    v := v0;
    var s: nat, mask: Word := 64, Not(Zeros(64));
    StartSwapped(v0);
    assert BlockSize(64);
    assert BlockSize(s);
    assert !BlockSize(0);
    hide *;
    while s / 2 > 0
      invariant BlockSize(s) && Swapped(v0, v, mask, s)
      decreases s
    {
      SwapStep(v0, v, mask, s);
      s := s / 2;
      mask := Xor(mask, ShiftLeft(mask, s));
      v := Or(And(ShiftRight(v, s), mask), And(ShiftLeft(v, s), Not(mask)));
    }
    assert s == 1;
    EndSwapped(v0, v, mask);
  }
}
