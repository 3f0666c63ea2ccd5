/** Partial quicksort (pqsort.c): sorts only as much of an array as is needed to fix the
    positions lrange..rrange. Pointers are modelled as element indices. */
module PqSort {

  /** What qsort(3) asks of a comparison function. */
  ghost predicate TotalPreorder<T(!new)>(cmp: (T, T) -> int) {
    && (forall x, y :: cmp(x, y) < 0 <==> cmp(y, x) > 0)
    && (forall x, y, z :: cmp(x, y) <= 0 && cmp(y, z) <= 0 ==> cmp(x, z) <= 0)
  }

  lemma Transitive<T(!new)>(cmp: (T, T) -> int, x: T, y: T, z: T)
    requires TotalPreorder(cmp)
    ensures cmp(x, y) <= 0 && cmp(y, z) <= 0 ==> cmp(x, z) <= 0
  {}

  lemma Converse<T(!new)>(cmp: (T, T) -> int, x: T, y: T)
    requires TotalPreorder(cmp)
    ensures cmp(x, y) < 0 <==> cmp(y, x) > 0
    ensures cmp(x, y) == 0 <==> cmp(y, x) == 0
  {}

  /** Between lo and hi, nothing before position c is larger than anything from c on. */
  ghost predicate Cut<T>(cmp: (T, T) -> int, s: seq<T>, lo: int, c: int, hi: int)
    requires 0 <= lo <= hi <= |s|
  {
    forall i, j :: lo <= i < c && c <= j < hi && i < hi && lo <= j ==> cmp(s[i], s[j]) <= 0
  }

  /** Position k holds what a full sort of [lo, hi) would put there. */
  ghost predicate Placed<T>(cmp: (T, T) -> int, s: seq<T>, lo: int, k: int, hi: int)
    requires 0 <= lo <= hi <= |s|
  {
    Cut(cmp, s, lo, k, hi) && Cut(cmp, s, lo, k + 1, hi)
  }

  ghost predicate PlacedRange<T>(cmp: (T, T) -> int, s: seq<T>, lo: int, upto: int, hi: int, lrange: int, rrange: int)
    requires 0 <= lo <= hi <= |s|
  {
    forall k :: lo <= k < upto && lrange <= k <= rrange ==> Placed(cmp, s, lo, k, hi)
  }

  /** t is s with the elements of [lo, hi) rearranged. */
  ghost predicate Permuted<T>(s: seq<T>, t: seq<T>, lo: int, hi: int) {
    && 0 <= lo <= hi <= |s| == |t|
    && s[..lo] == t[..lo] && s[hi..] == t[hi..] && multiset(s[lo..hi]) == multiset(t[lo..hi])
  }

  lemma PermutedSelf<T>(s: seq<T>, lo: int, hi: int)
    requires 0 <= lo <= hi <= |s|
    ensures Permuted(s, s, lo, hi)
  {}

  lemma PermutedTrans<T>(s: seq<T>, t: seq<T>, u: seq<T>, lo: int, hi: int)
    requires Permuted(s, t, lo, hi) && Permuted(t, u, lo, hi)
    ensures Permuted(s, u, lo, hi)
  {}

  lemma PermutedWiden<T>(s: seq<T>, t: seq<T>, lo: int, hi: int, lo': int, hi': int)
    requires Permuted(s, t, lo, hi) && 0 <= lo' <= lo && hi <= hi' <= |s|
    ensures Permuted(s, t, lo', hi')
  {
    SliceParts(s, lo', lo, hi, hi');
    SliceParts(t, lo', lo, hi, hi');
  }

  lemma SliceParts<T>(s: seq<T>, lo': int, lo: int, hi: int, hi': int)
    requires 0 <= lo' <= lo <= hi <= hi' <= |s|
    ensures s[lo'..hi'] == s[..lo][lo'..] + s[lo..hi] + s[hi..][..hi' - hi]
    ensures s[..lo'] == s[..lo][..lo'] && s[hi'..] == s[hi..][hi' - hi..]
  {}

  lemma PermutedSwap<T>(s: seq<T>, i: int, j: int, lo: int, hi: int)
    requires 0 <= lo <= i < hi <= |s| && lo <= j < hi
    ensures Permuted(s, s[i := s[j]][j := s[i]], lo, hi)
  {
    var t := s[i := s[j]][j := s[i]];
    var u := s[lo..hi];
    assert u[i - lo] == s[i] && u[j - lo] == s[j];
    assert t[lo..hi] == u[i - lo := s[j]][j - lo := s[i]];
    assert t[..lo] == s[..lo] && t[hi..] == s[hi..];
    SwappedElements(u, i - lo, j - lo);
  }

  lemma SwappedElements<T>(u: seq<T>, i: nat, j: nat)
    requires i < |u| && j < |u|
    ensures multiset(u[i := u[j]][j := u[i]]) == multiset(u)
  {}

  /** Every element of a rearranged range was in the range before. */
  lemma PermutedOrigin<T>(s: seq<T>, t: seq<T>, lo: int, hi: int, k: int) returns (i: int)
    requires Permuted(s, t, lo, hi) && lo <= k < hi
    ensures lo <= i < hi && s[i] == t[k]
  {
    assert t[lo..hi][k - lo] in multiset(t[lo..hi]);
    assert t[k] in s[lo..hi];
    var j :| 0 <= j < hi - lo && s[lo..hi][j] == t[k];
    i := lo + j;
  }

  /** A cut survives rearranging on one side of it. */
  lemma CutStable<T>(cmp: (T, T) -> int, s: seq<T>, t: seq<T>, lo: int, c: int, hi: int, from: int, to: int)
    requires 0 <= lo <= from <= to <= hi <= |s| && Permuted(s, t, from, to) && (to <= c || c <= from)
    requires Cut(cmp, s, lo, c, hi)
    ensures Cut(cmp, t, lo, c, hi)
  {
    forall i, j | lo <= i < c && c <= j < hi && i < hi && lo <= j ensures cmp(t[i], t[j]) <= 0 {
      var i', j' := i, j;
      if from <= i < to { i' := PermutedOrigin(s, t, from, to, i); } else { PermutedFrame(s, t, from, to, i); }
      if from <= j < to { j' := PermutedOrigin(s, t, from, to, j); } else { PermutedFrame(s, t, from, to, j); }
      assert cmp(s[i'], s[j']) <= 0;
    }
  }

  lemma PermutedFrame<T>(s: seq<T>, t: seq<T>, lo: int, hi: int, i: int)
    requires Permuted(s, t, lo, hi) && 0 <= i < |s| && !(lo <= i < hi)
    ensures s[i] == t[i]
  {
    if i < lo { assert s[..lo][i] == t[..lo][i]; } else { assert s[hi..][i - hi] == t[hi..][i - hi]; }
  }

  lemma PlacedRangeStable<T>(cmp: (T, T) -> int, s: seq<T>, t: seq<T>, lo: int, upto: int, hi: int, lrange: int,
                             rrange: int)
    requires 0 <= lo <= upto <= hi <= |s| && Permuted(s, t, upto, hi)
    requires PlacedRange(cmp, s, lo, upto, hi, lrange, rrange)
    ensures PlacedRange(cmp, t, lo, upto, hi, lrange, rrange)
  {
    forall k | lo <= k < upto && lrange <= k <= rrange ensures Placed(cmp, t, lo, k, hi) {
      assert Placed(cmp, s, lo, k, hi);
      CutStable(cmp, s, t, lo, k, hi, upto, hi);
      CutStable(cmp, s, t, lo, k + 1, hi, upto, hi);
    }
  }

  // ---------------------------------------------------------------- steps on the array

  method Swap<T>(a: array<T>, i: nat, j: nat, ghost lo: int, ghost hi: int)
    requires 0 <= lo <= i < hi <= a.Length && lo <= j < hi
    modifies a
    ensures a[..] == old(a[..])[i := old(a[j])][j := old(a[i])]
    ensures Permuted(old(a[..]), a[..], lo, hi)
  {
    PermutedSwap(a[..], i, j, lo, hi);
    a[i], a[j] := a[j], a[i];
  }

  /** The index of a middle one of three elements. */
  function Med3<T(!new)>(a: array<T>, i: nat, j: nat, k: nat, cmp: (T, T) -> int): (m: nat)
    requires i < a.Length && j < a.Length && k < a.Length
    reads a
    ensures m == i || m == j || m == k
    ensures TotalPreorder(cmp) ==>
      Between(cmp, a[i], a[m], a[j]) || Between(cmp, a[j], a[m], a[k]) || Between(cmp, a[i], a[m], a[k])
  {
    if cmp(a[i], a[j]) < 0 then (if cmp(a[j], a[k]) < 0 then j else if cmp(a[i], a[k]) < 0 then k else i)
    else (if cmp(a[j], a[k]) > 0 then j else if cmp(a[i], a[k]) < 0 then i else k)
  }

  ghost predicate Between<T>(cmp: (T, T) -> int, x: T, m: T, y: T) {
    (cmp(x, m) <= 0 && cmp(m, y) <= 0) || (cmp(y, m) <= 0 && cmp(m, x) <= 0)
  }

  method ChoosePivot<T(!new)>(a: array<T>, lo: nat, n: nat, cmp: (T, T) -> int) returns (pm: nat)
    requires 7 <= n && lo + n <= a.Length
    ensures lo <= pm < lo + n
  {
    pm := lo + n / 2;
    if n > 7 {
      var pl, pn := lo, lo + n - 1;
      if n > 40 {
        var d := n / 8;
        pl := Med3(a, pl, pl + d, pl + 2 * d, cmp);
        pm := Med3(a, pm - d, pm, pm + d, cmp);
        pn := Med3(a, pn - 2 * d, pn - d, pn, cmp);
      }
      pm := Med3(a, pl, pm, pn, cmp);
    }
  }

  // ---------------------------------------------------------------- partition

  ghost predicate Below<T>(cmp: (T, T) -> int, s: seq<T>, v: T, from: int, to: int) {
    0 <= from && to <= |s| && forall i :: from <= i < to ==> cmp(s[i], v) < 0
  }

  ghost predicate Same<T>(cmp: (T, T) -> int, s: seq<T>, v: T, from: int, to: int) {
    0 <= from && to <= |s| && forall i :: from <= i < to ==> cmp(s[i], v) == 0
  }

  ghost predicate Above<T>(cmp: (T, T) -> int, s: seq<T>, v: T, from: int, to: int) {
    0 <= from && to <= |s| && forall i :: from <= i < to ==> cmp(s[i], v) > 0
  }

  /** The state of the partition: equal, smaller, unseen, larger, equal. */
  ghost predicate Partitioning<T>(cmp: (T, T) -> int, s: seq<T>, v: T, lo: int, pa: int, pb: int, pc: int, pd: int,
                                  hi: int) {
    && 0 <= lo < pa <= pb <= pc + 1 && pc <= pd < hi <= |s| && s[lo] == v
    && Same(cmp, s, v, lo, pa) && Below(cmp, s, v, pa, pb) && Above(cmp, s, v, pc + 1, pd + 1)
      && Same(cmp, s, v, pd + 1, hi)
  }

  method ScanUp<T(!new)>(a: array<T>, cmp: (T, T) -> int, lo: nat, pa0: nat, pb0: nat, pc: int, ghost pd: int,
                         ghost hi: int)
    returns (pa: nat, pb: nat)
    requires lo < hi <= a.Length && Partitioning(cmp, a[..], a[lo], lo, pa0, pb0, pc, pd, hi)
    modifies a
    ensures Partitioning(cmp, a[..], a[lo], lo, pa, pb, pc, pd, hi) && pb0 <= pb <= pc + 1 && lo < pa <= pb
    ensures a[lo] == old(a[lo]) && Permuted(old(a[..]), a[..], lo, hi)
    ensures pb <= pc ==> cmp(a[pb], a[lo]) > 0
  {
    pa, pb := pa0, pb0;
    while pb <= pc && cmp(a[pb], a[lo]) <= 0
      invariant Partitioning(cmp, a[..], old(a[lo]), lo, pa, pb, pc, pd, hi) && pb >= pb0
      invariant Permuted(old(a[..]), a[..], lo, hi)
      decreases pc + 1 - pb
    {
      if cmp(a[pb], a[lo]) == 0 {
        ghost var s := a[..];
        Swap(a, pa, pb, lo, hi);
        PermutedTrans(old(a[..]), s, a[..], lo, hi);
        pa := pa + 1;
      }
      pb := pb + 1;
    }
  }

  method ScanDown<T(!new)>(a: array<T>, cmp: (T, T) -> int, lo: nat, ghost pa: int, pb: nat, pc0: int, pd0: int,
                           ghost hi: int)
    returns (pc: int, pd: int)
    requires lo < hi <= a.Length && Partitioning(cmp, a[..], a[lo], lo, pa, pb, pc0, pd0, hi)
    modifies a
    ensures Partitioning(cmp, a[..], a[lo], lo, pa, pb, pc, pd, hi) && pb <= pc + 1 <= pc0 + 1 && pc <= pd < hi
    ensures a[lo] == old(a[lo]) && Permuted(old(a[..]), a[..], lo, hi)
    ensures pb <= pc ==> a[pb] == old(a[pb]) && cmp(a[pc], a[lo]) < 0
  {
    pc, pd := pc0, pd0;
    while pb <= pc && cmp(a[pc], a[lo]) >= 0
      invariant Partitioning(cmp, a[..], old(a[lo]), lo, pa, pb, pc, pd, hi) && pc <= pc0
      invariant Permuted(old(a[..]), a[..], lo, hi)
      invariant pb <= pc ==> a[pb] == old(a[pb])
      decreases pc + 1 - pb
    {
      if cmp(a[pc], a[lo]) == 0 {
        ghost var s := a[..];
        Swap(a, pc, pd, lo, hi);
        PermutedTrans(old(a[..]), s, a[..], lo, hi);
        pd := pd - 1;
      }
      pc := pc - 1;
    }
  }

  /** Where the element at k comes from when blocks of r elements at i and j are exchanged. */
  function Exchanged(k: int, i: int, j: int, r: int): int {
    if i <= k < i + r then k + (j - i) else if j <= k < j + r then k - (j - i) else k
  }

  ghost predicate BlocksExchanged<T>(was: seq<T>, now: seq<T>, i: int, j: int, r: int) {
    && |was| == |now| && 0 <= r && 0 <= i && i + r <= j && j + r <= |was|
    && forall k :: 0 <= k < |now| ==> now[k] == was[Exchanged(k, i, j, r)]
  }

  lemma ExchangeOneMore<T>(was: seq<T>, now: seq<T>, i: int, j: int, m: int)
    requires BlocksExchanged(was, now, i, j, m) && i + m < j && j + m < |was|
    ensures BlocksExchanged(was, now[i + m := now[j + m]][j + m := now[i + m]], i, j, m + 1)
  {
    assert now[i + m] == was[i + m] && now[j + m] == was[j + m];
  }

  method VecSwap<T>(a: array<T>, i: nat, j: nat, r: nat, ghost lo: int, ghost hi: int)
    requires 0 <= lo <= i && i + r <= j && j + r <= hi <= a.Length
    modifies a
    ensures Permuted(old(a[..]), a[..], lo, hi)
    ensures BlocksExchanged(old(a[..]), a[..], i, j, r)
  {
    PermutedSelf(a[..], lo, hi);
    assert BlocksExchanged(a[..], a[..], i, j, 0);
    hide Permuted, BlocksExchanged;
    var m := 0;
    while m < r
      invariant 0 <= m <= r
      invariant Permuted(old(a[..]), a[..], lo, hi) && BlocksExchanged(old(a[..]), a[..], i, j, m)
    {
      SwapOnward(a, i, j, m, lo, hi, old(a[..]));
      m := m + 1;
    }
  }

  /** One turn of vecswap. */
  method SwapOnward<T>(a: array<T>, i: nat, j: nat, m: nat, ghost lo: int, ghost hi: int, ghost was: seq<T>)
    requires 0 <= lo <= i && i + m < j && j + m < hi <= a.Length
    requires Permuted(was, a[..], lo, hi) && BlocksExchanged(was, a[..], i, j, m)
    modifies a
    ensures Permuted(was, a[..], lo, hi) && BlocksExchanged(was, a[..], i, j, m + 1)
  {
    hide *;
    ghost var s := a[..];
    assert |was| == |s| by { SameLength(was, s, lo, hi); }
    ExchangeOneMore(was, s, i, j, m);
    Swap(a, i + m, j + m, lo, hi);
    PermutedTrans(was, s, a[..], lo, hi);
  }

  lemma SameLength<T>(s: seq<T>, t: seq<T>, lo: int, hi: int)
    requires Permuted(s, t, lo, hi)
    ensures |s| == |t|
  {}

  lemma StartPartitioning<T(!new)>(cmp: (T, T) -> int, s: seq<T>, lo: int, hi: int)
    requires TotalPreorder(cmp) && 0 <= lo && lo + 1 < hi <= |s|
    ensures Partitioning(cmp, s, s[lo], lo, lo + 1, lo + 1, hi - 1, hi - 1, hi)
  {
    Converse(cmp, s[lo], s[lo]);
  }

  lemma SwapPartitioning<T>(cmp: (T, T) -> int, s: seq<T>, v: T, lo: int, pa: int, pb: int, pc: int, pd: int, hi: int)
    requires Partitioning(cmp, s, v, lo, pa, pb, pc, pd, hi)
    requires pb < pc && cmp(s[pb], v) > 0 && cmp(s[pc], v) < 0
    ensures Partitioning(cmp, s[pb := s[pc]][pc := s[pb]], v, lo, pa, pb + 1, pc - 1, pd, hi)
    ensures s[pb := s[pc]][pc := s[pb]][lo] == s[lo]
  {}

  /** Three-way partition of [lo, lo + n): smaller, equal and larger than the chosen pivot. */
  method Partition<T(!new)>(a: array<T>, lo: nat, n: nat, cmp: (T, T) -> int) returns (m1: nat, m2: nat, ghost v: T)
    requires TotalPreorder(cmp) && 7 <= n && lo + n <= a.Length
    modifies a
    ensures lo <= m1 < m2 <= lo + n
    ensures Permuted(old(a[..]), a[..], lo, lo + n)
    ensures Below(cmp, a[..], v, lo, m1) && Same(cmp, a[..], v, m1, m2) && Above(cmp, a[..], v, m2, lo + n)
  {
    hide *;
    var hi := lo + n;
    var pm := ChoosePivot(a, lo, n, cmp);
    Swap(a, lo, pm, lo, hi);
    v := a[lo];
    StartPartitioning(cmp, a[..], lo, hi);
    ghost var s := a[..];
    var pa, pb, pc, pd := Classify(a, cmp, lo, hi);
    PermutedTrans(old(a[..]), s, a[..], lo, hi);
    s := a[..];
    m1, m2 := Gather(a, cmp, v, lo, pa, pb, pc, pd, hi);
    PermutedTrans(old(a[..]), s, a[..], lo, hi);
  }

  /** The scan: elements equal to the pivot collect at both ends, the others on their sides. */
  method Classify<T(!new)>(a: array<T>, cmp: (T, T) -> int, lo: nat, hi: nat)
    returns (pa: nat, pb: nat, pc: int, pd: int)
    requires lo + 1 < hi <= a.Length && Partitioning(cmp, a[..], a[lo], lo, lo + 1, lo + 1, hi - 1, hi - 1, hi)
    modifies a
    ensures lo < pa <= pb == pc + 1 && pc <= pd < hi
    ensures Partitioning(cmp, a[..], old(a[lo]), lo, pa, pb, pc, pd, hi)
    ensures Permuted(old(a[..]), a[..], lo, hi)
  {
    PermutedSelf(a[..], lo, hi);
    hide *;
    pa, pb, pc, pd := lo + 1, lo + 1, hi - 1, hi - 1;
    var done := false;
    while !done
      invariant lo < pa <= pb <= pc + 1 && pc <= pd < hi && a[lo] == old(a[lo])
      invariant Partitioning(cmp, a[..], a[lo], lo, pa, pb, pc, pd, hi)
      invariant Permuted(old(a[..]), a[..], lo, hi)
      invariant done ==> pb == pc + 1
      decreases !done, pc + 1 - pb
    {
      ghost var s := a[..];
      done, pa, pb, pc, pd := ClassifyStep(a, cmp, lo, hi, pa, pb, pc, pd);
      PermutedTrans(old(a[..]), s, a[..], lo, hi);
    }
  }

  method ClassifyStep<T(!new)>(a: array<T>, cmp: (T, T) -> int, lo: nat, ghost hi: nat, pa0: nat, pb0: nat, pc0: int,
                               pd0: int)
    returns (done: bool, pa: nat, pb: nat, pc: int, pd: int)
    requires lo < hi <= a.Length && lo < pa0 <= pb0 <= pc0 + 1 && pc0 <= pd0 < hi
    requires Partitioning(cmp, a[..], a[lo], lo, pa0, pb0, pc0, pd0, hi)
    modifies a
    ensures lo < pa <= pb <= pc + 1 && pc <= pd < hi && a[lo] == old(a[lo])
    ensures Partitioning(cmp, a[..], a[lo], lo, pa, pb, pc, pd, hi)
    ensures Permuted(old(a[..]), a[..], lo, hi)
    ensures if done then pb == pc + 1 else pc - pb < pc0 - pb0
  {
    hide *;
    ghost var s := a[..];
    pa, pb := ScanUp(a, cmp, lo, pa0, pb0, pc0, pd0, hi);
    ghost var t := a[..];
    pc, pd := ScanDown(a, cmp, lo, pa, pb, pc0, pd0, hi);
    PermutedTrans(s, t, a[..], lo, hi);
    done := pb > pc;
    if !done {
      t := a[..];
      assert t[pb] == a[pb] && t[pc] == a[pc];
      SwapPartitioning(cmp, t, a[lo], lo, pa, pb, pc, pd, hi);
      Swap(a, pb, pc, lo, hi);
      PermutedTrans(s, t, a[..], lo, hi);
      pb, pc := pb + 1, pc - 1;
    }
  }

  /** Moves the two runs of equal elements from the ends to the middle. */
  method Gather<T(!new)>(a: array<T>, cmp: (T, T) -> int, ghost v: T, lo: nat, pa: nat, pb: nat, pc: int, pd: int,
                         hi: nat)
    returns (m1: nat, m2: nat)
    requires Partitioning(cmp, a[..], v, lo, pa, pb, pc, pd, hi) && pb == pc + 1
    requires lo < pa <= pb && pc <= pd < hi <= a.Length
    modifies a
    ensures m1 == lo + (pb - pa) && m2 == hi - (pd - pc) && m1 < m2
    ensures Permuted(old(a[..]), a[..], lo, hi)
    ensures Below(cmp, a[..], v, lo, m1) && Same(cmp, a[..], v, m1, m2) && Above(cmp, a[..], v, m2, hi)
  {
    hide *;
    m1, m2 := lo + (pb - pa), hi - (pd - pc);
    ghost var s := a[..];
    var r := if pa - lo < pb - pa then pa - lo else pb - pa;
    VecSwap(a, lo, pb - r, r, lo, hi);
    ghost var t := a[..];
    GatherLeft(cmp, s, t, v, lo, pa, pb, pc, pd, hi, r);
    r := if pd - pc < hi - pd - 1 then pd - pc else hi - pd - 1;
    VecSwap(a, pb, hi - r, r, lo, hi);
    GatherRight(cmp, t, a[..], v, lo, m1, pb, pd, hi, r);
    PermutedTrans(s, t, a[..], lo, hi);
  }

  lemma GatherLeft<T>(cmp: (T, T) -> int, s: seq<T>, t: seq<T>, v: T, lo: int, pa: int, pb: int, pc: int, pd: int,
                      hi: int, r: int)
    requires Partitioning(cmp, s, v, lo, pa, pb, pc, pd, hi) && pb == pc + 1
    requires r == (if pa - lo < pb - pa then pa - lo else pb - pa) && BlocksExchanged(s, t, lo, pb - r, r)
    ensures Below(cmp, t, v, lo, lo + (pb - pa)) && Same(cmp, t, v, lo + (pb - pa), pb)
    ensures Above(cmp, t, v, pb, pd + 1) && Same(cmp, t, v, pd + 1, hi)
  {}

  lemma GatherRight<T>(cmp: (T, T) -> int, t: seq<T>, u: seq<T>, v: T, lo: int, m1: int, pb: int, pd: int, hi: int,
                       r: int)
    requires 0 <= lo <= m1 <= pb <= pd + 1 <= hi <= |t| && Below(cmp, t, v, lo, m1) && Same(cmp, t, v, m1, pb)
    requires Above(cmp, t, v, pb, pd + 1) && Same(cmp, t, v, pd + 1, hi)
    requires r == (if pd + 1 - pb < hi - pd - 1 then pd + 1 - pb else hi - pd - 1)
      && BlocksExchanged(t, u, pb, hi - r, r)
    ensures var m2 := hi - (pd + 1 - pb);
      Below(cmp, u, v, lo, m1) && Same(cmp, u, v, m1, m2) && Above(cmp, u, v, m2, hi)
  {}

  lemma SplitCuts<T(!new)>(cmp: (T, T) -> int, s: seq<T>, v: T, lo: int, m1: int, m2: int, hi: int, c: int)
    requires TotalPreorder(cmp) && 0 <= lo <= m1 <= c <= m2 <= hi <= |s|
    requires Below(cmp, s, v, lo, m1) && Same(cmp, s, v, m1, m2) && Above(cmp, s, v, m2, hi)
    ensures Cut(cmp, s, lo, c, hi)
  {
    forall i, j | lo <= i < c && c <= j < hi ensures cmp(s[i], s[j]) <= 0 {
      hide TotalPreorder;
      Converse(cmp, s[j], v);
      Transitive(cmp, s[i], v, s[j]);
    }
  }

  // ---------------------------------------------------------------- the sort

  ghost predicate Sorted<T>(cmp: (T, T) -> int, s: seq<T>, lo: int, hi: int) {
    0 <= lo && hi <= |s| && forall i, j :: lo <= i < j < hi ==> cmp(s[i], s[j]) <= 0
  }

  method InsertionSort<T(!new)>(a: array<T>, lo: nat, n: nat, cmp: (T, T) -> int)
    requires TotalPreorder(cmp) && lo + n <= a.Length
    modifies a
    ensures Permuted(old(a[..]), a[..], lo, lo + n)
    ensures Sorted(cmp, a[..], lo, lo + n)
  {
    hide Permuted, TotalPreorder;
    var pm := lo + 1;
    ghost var hi := lo + n;
    PermutedSelf(a[..], lo, hi);
    while pm < lo + n
      invariant lo + 1 <= pm && (n > 0 ==> pm <= lo + n)
      invariant Permuted(old(a[..]), a[..], lo, hi)
      invariant n > 0 ==> Sorted(cmp, a[..], lo, pm)
    {
      ghost var s := a[..];
      Insert(a, lo, pm, cmp, hi);
      PermutedTrans(old(a[..]), s, a[..], lo, hi);
      pm := pm + 1;
    }
  }

  /** [lo, pm] is sorted apart from the element now at pl. */
  ghost predicate Sinking<T>(cmp: (T, T) -> int, s: seq<T>, lo: int, pl: int, pm: int) {
    0 <= lo <= pl <= pm < |s| && forall i, j :: lo <= i < j <= pm && j != pl ==> cmp(s[i], s[j]) <= 0
  }

  lemma SinkOne<T(!new)>(cmp: (T, T) -> int, s: seq<T>, lo: int, pl: int, pm: int)
    requires TotalPreorder(cmp) && Sinking(cmp, s, lo, pl, pm) && lo < pl && cmp(s[pl - 1], s[pl]) > 0
    ensures Sinking(cmp, s[pl := s[pl - 1]][pl - 1 := s[pl]], lo, pl - 1, pm)
  {
    hide TotalPreorder;
    Converse(cmp, s[pl], s[pl - 1]);
  }

  lemma Sunk<T(!new)>(cmp: (T, T) -> int, s: seq<T>, lo: int, pl: int, pm: int)
    requires TotalPreorder(cmp) && Sinking(cmp, s, lo, pl, pm) && (lo < pl ==> cmp(s[pl - 1], s[pl]) <= 0)
    ensures Sorted(cmp, s, lo, pm + 1)
  {
    hide TotalPreorder;
    forall i | lo <= i < pl ensures cmp(s[i], s[pl]) <= 0 {
      if i < pl - 1 { Transitive(cmp, s[i], s[pl - 1], s[pl]); }
    }
  }

  method Sink<T(!new)>(a: array<T>, ghost lo: nat, pl: nat, ghost pm: nat, ghost cmp: (T, T) -> int, ghost hi: int)
    requires TotalPreorder(cmp) && lo < pl <= pm < hi <= a.Length && Sinking(cmp, a[..], lo, pl, pm)
      && cmp(a[pl - 1], a[pl]) > 0
    modifies a
    ensures Permuted(old(a[..]), a[..], lo, hi) && Sinking(cmp, a[..], lo, pl - 1, pm)
  {
    hide *;
    SinkOne(cmp, a[..], lo, pl, pm);
    Swap(a, pl, pl - 1, lo, hi);
  }

  /** Sinks the element at pm into the sorted prefix. */
  method Insert<T(!new)>(a: array<T>, lo: nat, pm: nat, cmp: (T, T) -> int, ghost hi: int)
    requires TotalPreorder(cmp) && lo < pm < hi <= a.Length && Sorted(cmp, a[..], lo, pm)
    modifies a
    ensures Permuted(old(a[..]), a[..], lo, hi)
    ensures Sorted(cmp, a[..], lo, pm + 1)
  {
    PermutedSelf(a[..], lo, hi);
    assert Sinking(cmp, a[..], lo, pm, pm);
    hide *;
    var pl := pm;
    while pl > lo && cmp(a[pl - 1], a[pl]) > 0
      invariant lo <= pl <= pm
      invariant Permuted(old(a[..]), a[..], lo, hi) && Sinking(cmp, a[..], lo, pl, pm)
    {
      ghost var s := a[..];
      Sink(a, lo, pl, pm, cmp, hi);
      PermutedTrans(old(a[..]), s, a[..], lo, hi);
      pl := pl - 1;
    }
    Sunk(cmp, a[..], lo, pl, pm);
  }

  /** The test on whether elements [from, to) contain a requested position. */
  predicate Meets(from: int, to: int, lrange: int, rrange: int) {
    !((lrange < from && rrange < from) || (lrange >= to && rrange >= to))
  }

  /** The source compares byte addresses: lrange is the first byte of its element, rrange the last
      byte of its element, and a partition runs from its first byte to its last. */
  lemma MeetsOnBytes(from: int, to: int, lrange: int, rrange: int, es: int)
    requires es > 0
    ensures var l, r, first, last := lrange * es, (rrange + 1) * es - 1, from * es, to * es - 1;
      Meets(from, to, lrange, rrange) <==> !((l < first && r < first) || (l > last && r > last))
  {
    ScaledOrder(lrange, from, es);
    ScaledOrder(rrange + 1, from, es);
    ScaledOrder(from, rrange + 1, es);
    ScaledOrder(lrange, to, es);
    ScaledOrder(rrange + 1, to, es);
    ScaledOrder(to, rrange + 1, es);
  }

  lemma ScaledOrder(x: int, y: int, es: int)
    requires es > 0
    ensures x < y <==> x * es < y * es
  {
    if x < y { assert (y - x) * es > 0; } else { assert (x - y) * es >= 0; }
  }

  lemma CutGlue<T>(cmp: (T, T) -> int, s: seq<T>, lo: int, m: int, c: int, hi: int)
    requires 0 <= lo <= m <= hi <= |s| && lo <= c <= hi && Cut(cmp, s, lo, m, hi)
    requires if m <= c then Cut(cmp, s, m, c, hi) else Cut(cmp, s, lo, c, m)
    ensures Cut(cmp, s, lo, c, hi)
  {}

  /** A part that was not recursed into has nothing left to place. */
  lemma SkippedPlaced<T>(cmp: (T, T) -> int, s: seq<T>, lo: int, hi: int, lrange: int, rrange: int)
    requires 0 <= lo <= hi <= |s| && (hi - lo <= 1 || !Meets(lo, hi, lrange, rrange))
    ensures PlacedRange(cmp, s, lo, hi, hi, lrange, rrange)
  {}

  /** What the loop knows: positions before lo are final, and nothing before lo is larger than the rest. */
  ghost predicate Settled<T>(cmp: (T, T) -> int, s: seq<T>, lo0: int, lo: int, hi: int, lrange: int, rrange: int)
    requires 0 <= lo0 <= lo <= hi <= |s|
  {
    Cut(cmp, s, lo0, lo, hi) && PlacedRange(cmp, s, lo0, lo, hi, lrange, rrange)
  }

  lemma SettledStable<T>(cmp: (T, T) -> int, s: seq<T>, t: seq<T>, lo0: int, lo: int, hi: int, lrange: int, rrange: int)
    requires 0 <= lo0 <= lo <= hi <= |s| && Permuted(s, t, lo, hi) && Settled(cmp, s, lo0, lo, hi, lrange, rrange)
    ensures Settled(cmp, t, lo0, lo, hi, lrange, rrange)
  {
    CutStable(cmp, s, t, lo0, lo, hi, lo, hi);
    PlacedRangeStable(cmp, s, t, lo0, lo, hi, lrange, rrange);
  }

  /** Placing a segment next to a settled prefix settles the segment. */
  lemma SettleSegment<T>(cmp: (T, T) -> int, s: seq<T>, lo0: int, lo: int, m: int, hi: int, lrange: int, rrange: int)
    requires 0 <= lo0 <= lo <= m <= hi <= |s| && Settled(cmp, s, lo0, lo, hi, lrange, rrange)
    requires Cut(cmp, s, lo, m, hi) && PlacedRange(cmp, s, lo, m, m, lrange, rrange)
    ensures Settled(cmp, s, lo0, m, hi, lrange, rrange)
  {
    CutGlue(cmp, s, lo0, lo, m, hi);
    forall k | lo <= k < m && lrange <= k <= rrange ensures Placed(cmp, s, lo0, k, hi) {
      assert Placed(cmp, s, lo, k, m);
      CutGlue(cmp, s, lo, m, k, hi);
      CutGlue(cmp, s, lo, m, k + 1, hi);
      CutGlue(cmp, s, lo0, lo, k, hi);
      CutGlue(cmp, s, lo0, lo, k + 1, hi);
    }
  }

  lemma SettleEqual<T(!new)>(cmp: (T, T) -> int, s: seq<T>, v: T, lo0: int, lo: int, m1: int, m2: int, hi: int,
                             lrange: int, rrange: int)
    requires TotalPreorder(cmp) && 0 <= lo0 <= lo <= m1 <= m2 <= hi <= |s|
      && Settled(cmp, s, lo0, m1, hi, lrange, rrange)
    requires Below(cmp, s, v, lo, m1) && Same(cmp, s, v, m1, m2) && Above(cmp, s, v, m2, hi)
    ensures Settled(cmp, s, lo0, m2, hi, lrange, rrange)
  {
    hide Cut;
    forall c | m1 <= c <= m2 ensures Cut(cmp, s, lo0, c, hi) {
      SplitCuts(cmp, s, v, m1, m1, m2, hi, c);
      CutGlue(cmp, s, lo0, m1, c, hi);
    }
  }

  lemma SortedPlaced<T>(cmp: (T, T) -> int, s: seq<T>, lo: int, hi: int, lrange: int, rrange: int)
    requires 0 <= lo <= hi <= |s| && Sorted(cmp, s, lo, hi)
    ensures PlacedRange(cmp, s, lo, hi, hi, lrange, rrange)
  {}

  /** Rearranging the part smaller than the pivot keeps it smaller. */
  lemma BelowStable<T>(cmp: (T, T) -> int, s: seq<T>, t: seq<T>, v: T, lo: int, m1: int, m2: int, hi: int)
    requires 0 <= lo <= m1 <= m2 <= hi <= |s| && Permuted(s, t, lo, m1)
    requires Below(cmp, s, v, lo, m1) && Same(cmp, s, v, m1, m2) && Above(cmp, s, v, m2, hi)
    ensures Below(cmp, t, v, lo, m1) && Same(cmp, t, v, m1, m2) && Above(cmp, t, v, m2, hi)
  {
    forall i | 0 <= i < |s| && !(lo <= i < m1) ensures t[i] == s[i] { PermutedFrame(s, t, lo, m1, i); }
    forall i | lo <= i < m1 ensures cmp(t[i], v) < 0 {
      var k := PermutedOrigin(s, t, lo, m1, i);
    }
  }

  /** The recursive part of the sort: the smaller elements, when they meet the requested range. */
  method SortSmaller<T(!new)>(a: array<T>, lo: nat, m1: nat, cmp: (T, T) -> int, lrange: int, rrange: int)
    requires TotalPreorder(cmp) && lo <= m1 <= a.Length
    modifies a
    ensures Permuted(old(a[..]), a[..], lo, m1)
    ensures PlacedRange(cmp, a[..], lo, m1, m1, lrange, rrange)
    decreases m1 - lo, 2
  {
    PermutedSelf(a[..], lo, m1);
    if m1 - lo > 1 && Meets(lo, m1, lrange, rrange) {
      SortRange(a, lo, m1 - lo, cmp, lrange, rrange);
    } else {
      SkippedPlaced(cmp, a[..], lo, m1, lrange, rrange);
    }
  }

  /** Splits [lo, hi) and settles everything up to the elements larger than the pivot. */
  method SortStep<T(!new)>(a: array<T>, ghost lo0: nat, lo: nat, hi: nat, cmp: (T, T) -> int, lrange: int,
                           rrange: int) returns (m2: nat)
    requires TotalPreorder(cmp) && lo0 <= lo && lo + 7 <= hi <= a.Length
      && Settled(cmp, a[..], lo0, lo, hi, lrange, rrange)
    modifies a
    ensures lo < m2 <= hi && Permuted(old(a[..]), a[..], lo, hi)
    ensures Settled(cmp, a[..], lo0, m2, hi, lrange, rrange)
    decreases hi - lo, 0
  {
    hide *;
    ghost var s := a[..];
    var m1;
    ghost var v;
    m1, m2, v := Partition(a, lo, hi - lo, cmp);
    ghost var t := a[..];
    SettledStable(cmp, s, t, lo0, lo, hi, lrange, rrange);
    SortSmaller(a, lo, m1, cmp, lrange, rrange);
    ghost var u := a[..];
    BelowStable(cmp, t, u, v, lo, m1, m2, hi);
    SplitCuts(cmp, u, v, lo, m1, m2, hi, m1);
    PermutedWiden(t, u, lo, m1, lo, hi);
    SettledStable(cmp, t, u, lo0, lo, hi, lrange, rrange);
    SettleSegment(cmp, u, lo0, lo, m1, hi, lrange, rrange);
    SettleEqual(cmp, u, v, lo0, lo, m1, m2, hi, lrange, rrange);
    PermutedTrans(s, t, u, lo, hi);
  }

  /** The short case: everything from lo on is sorted by insertion. */
  method SortShort<T(!new)>(a: array<T>, ghost lo0: nat, lo: nat, hi: nat, cmp: (T, T) -> int, ghost lrange: int,
                            ghost rrange: int)
    requires TotalPreorder(cmp) && lo0 <= lo <= hi <= a.Length && Settled(cmp, a[..], lo0, lo, hi, lrange, rrange)
    modifies a
    ensures Permuted(old(a[..]), a[..], lo, hi) && Settled(cmp, a[..], lo0, hi, hi, lrange, rrange)
  {
    hide *;
    ghost var s := a[..];
    InsertionSort(a, lo, hi - lo, cmp);
    SettledStable(cmp, s, a[..], lo0, lo, hi, lrange, rrange);
    SortedPlaced(cmp, a[..], lo, hi, lrange, rrange);
    SettleRest(cmp, a[..], lo0, lo, hi, lrange, rrange);
  }

  /** Sorts [lo0, lo0 + n0) as far as the positions lrange..rrange need it: recursion on the smaller
      elements, iteration on the larger ones, parts without a requested position skipped. */
  method SortRange<T(!new)>(a: array<T>, lo0: nat, n0: nat, cmp: (T, T) -> int, lrange: int, rrange: int)
    requires TotalPreorder(cmp) && lo0 + n0 <= a.Length
    modifies a
    ensures Permuted(old(a[..]), a[..], lo0, lo0 + n0)
    ensures PlacedRange(cmp, a[..], lo0, lo0 + n0, lo0 + n0, lrange, rrange)
    decreases n0, 1
  {
    var lo, hi := lo0, lo0 + n0;
    PermutedSelf(a[..], lo0, hi);
    assert Settled(cmp, a[..], lo0, lo, hi, lrange, rrange);
    hide *;
    var more := true;
    while more
      invariant lo0 <= lo <= hi && Permuted(old(a[..]), a[..], lo0, hi)
      invariant Settled(cmp, a[..], lo0, if more then lo else hi, hi, lrange, rrange)
      decreases more, hi - lo
    {
      ghost var s, from := a[..], lo;
      if hi - lo < 7 {
        SortShort(a, lo0, lo, hi, cmp, lrange, rrange);
        more := false;
      } else {
        lo := SortStep(a, lo0, lo, hi, cmp, lrange, rrange);
        more := hi - lo > 1 && Meets(lo, hi, lrange, rrange);
        if !more { SkipRest(cmp, a[..], lo0, lo, hi, lrange, rrange); }
      }
      PermutedWiden(s, a[..], from, hi, lo0, hi);
      PermutedTrans(old(a[..]), s, a[..], lo0, hi);
    }
    SettledPlaced(cmp, a[..], lo0, hi, lrange, rrange);
  }

  lemma SkipRest<T>(cmp: (T, T) -> int, s: seq<T>, lo0: int, lo: int, hi: int, lrange: int, rrange: int)
    requires 0 <= lo0 <= lo <= hi <= |s| && Settled(cmp, s, lo0, lo, hi, lrange, rrange)
    requires !(hi - lo > 1 && Meets(lo, hi, lrange, rrange))
    ensures Settled(cmp, s, lo0, hi, hi, lrange, rrange)
  {
    SkippedPlaced(cmp, s, lo, hi, lrange, rrange);
    SettleRest(cmp, s, lo0, lo, hi, lrange, rrange);
  }

  lemma SettleRest<T>(cmp: (T, T) -> int, s: seq<T>, lo0: int, lo: int, hi: int, lrange: int, rrange: int)
    requires 0 <= lo0 <= lo <= hi <= |s| && Settled(cmp, s, lo0, lo, hi, lrange, rrange)
    requires PlacedRange(cmp, s, lo, hi, hi, lrange, rrange)
    ensures Settled(cmp, s, lo0, hi, hi, lrange, rrange)
  {
    CutAtEnd(cmp, s, lo, hi);
    SettleSegment(cmp, s, lo0, lo, hi, hi, lrange, rrange);
  }

  lemma CutAtEnd<T>(cmp: (T, T) -> int, s: seq<T>, lo: int, hi: int)
    requires 0 <= lo <= hi <= |s|
    ensures Cut(cmp, s, lo, hi, hi)
  {}

  lemma SettledPlaced<T>(cmp: (T, T) -> int, s: seq<T>, lo0: int, hi: int, lrange: int, rrange: int)
    requires 0 <= lo0 <= hi <= |s| && Settled(cmp, s, lo0, hi, hi, lrange, rrange)
    ensures PlacedRange(cmp, s, lo0, hi, hi, lrange, rrange)
  {}

  /** pqsort: every requested position holds an element no smaller than all before it and no larger
      than all after it, and the array is a rearrangement of what it was. */
  method PartialSort<T(!new)>(a: array<T>, n: nat, cmp: (T, T) -> int, lrange: nat, rrange: nat)
    requires TotalPreorder(cmp) && n <= a.Length
    modifies a
    ensures multiset(a[..n]) == multiset(old(a[..n])) && a[n..] == old(a[n..])
    ensures forall k :: lrange <= k <= rrange && k < n ==> Placed(cmp, a[..], 0, k, n)
  {
    SortRange(a, 0, n, cmp, lrange, rrange);
    assert a[..][0..n] == a[..n] && old(a[..])[0..n] == old(a[..n]);
    assert a[..][n..] == a[n..] && old(a[..])[n..] == old(a[n..]);
  }

  // ---------------------------------------------------------------- agreement with a full sort

  ghost function Count<T(!new)>(s: seq<T>, p: T -> bool): (c: nat)
    ensures c <= |s|
  {
    if s == [] then 0 else (if p(s[0]) then 1 else 0) + Count(s[1..], p)
  }

  lemma {:induction false} CountAppend<T(!new)>(s: seq<T>, t: seq<T>, p: T -> bool)
    ensures Count(s + t, p) == Count(s, p) + Count(t, p)
  {
    if s == [] {
      assert s + t == t;
    } else {
      assert (s + t)[1..] == s[1..] + t;
      CountAppend(s[1..], t, p);
    }
  }

  lemma {:induction false} CountAll<T(!new)>(s: seq<T>, p: T -> bool, all: bool)
    requires forall i :: 0 <= i < |s| ==> p(s[i]) == all
    ensures Count(s, p) == if all then |s| else 0
  {
    if s != [] { CountAll(s[1..], p, all); }
  }

  ghost function Without<T>(t: seq<T>, j: nat): (r: seq<T>)
    requires j < |t|
    ensures |r| == |t| - 1
  {
    t[..j] + t[j + 1..]
  }

  lemma MultisetWithout<T>(t: seq<T>, j: nat)
    requires j < |t|
    ensures multiset(Without(t, j)) == multiset(t) - multiset{t[j]}
  {
    assert t == t[..j] + [t[j]] + t[j + 1..];
  }

  lemma {:induction false} CountWithout<T(!new)>(t: seq<T>, j: nat, p: T -> bool)
    requires j < |t|
    ensures Count(t, p) == Count(Without(t, j), p) + if p(t[j]) then 1 else 0
  {
    if j == 0 {
      assert Without(t, j) == t[1..];
    } else {
      assert Without(t, j) == [t[0]] + Without(t[1..], j - 1);
      CountWithout(t[1..], j - 1, p);
    }
  }

  lemma {:induction false} CountMultiset<T(!new)>(s: seq<T>, t: seq<T>, p: T -> bool)
    requires multiset(s) == multiset(t)
    ensures Count(s, p) == Count(t, p)
    decreases |s|
  {
    assert |s| == |multiset(s)| == |multiset(t)| == |t|;
    if s != [] {
      assert s[0] in multiset(t);
      var j :| 0 <= j < |t| && t[j] == s[0];
      hide *;
      MultisetWithout(s, 0);
      MultisetWithout(t, j);
      CountWithout(s, 0, p);
      CountWithout(t, j, p);
      CountMultiset(Without(s, 0), Without(t, j), p);
    }
  }

  lemma CountBounds<T(!new)>(s: seq<T>, k: nat, p: T -> bool)
    requires k <= |s|
    ensures (forall j :: k <= j < |s| ==> !p(s[j])) ==> Count(s, p) <= k
    ensures (forall j :: 0 <= j < k ==> p(s[j])) ==> Count(s, p) >= k
  {
    assert s == s[..k] + s[k..];
    CountAppend(s[..k], s[k..], p);
    if forall j :: k <= j < |s| ==> !p(s[j]) { CountAll(s[k..], p, false); }
    if forall j :: 0 <= j < k ==> p(s[j]) { CountAll(s[..k], p, true); }
  }

  /** Number of elements strictly below position k's element is at most k; counting equals it exceeds k. */
  lemma PlacedCounts<T(!new)>(cmp: (T, T) -> int, s: seq<T>, k: nat)
    requires TotalPreorder(cmp) && k < |s| && Placed(cmp, s, 0, k, |s|)
    ensures Count(s, x => cmp(x, s[k]) < 0) <= k < Count(s, x => cmp(x, s[k]) <= 0)
  {
    var below, upTo := (x: T) => cmp(x, s[k]) < 0, (x: T) => cmp(x, s[k]) <= 0;
    PlacedOrder(cmp, s, k);
    hide *;
    assert forall j :: k <= j < |s| ==> !below(s[j]);
    CountBounds(s, k, below);
    assert forall j :: 0 <= j < k + 1 ==> upTo(s[j]);
    CountBounds(s, k + 1, upTo);
  }

  lemma PlacedOrder<T(!new)>(cmp: (T, T) -> int, s: seq<T>, k: nat)
    requires TotalPreorder(cmp) && k < |s| && Placed(cmp, s, 0, k, |s|)
    ensures forall j :: 0 <= j <= k ==> cmp(s[j], s[k]) <= 0
    ensures forall j :: k <= j < |s| ==> cmp(s[j], s[k]) >= 0
  {
    hide TotalPreorder;
    Converse(cmp, s[k], s[k]);
    forall j | k < j < |s| ensures cmp(s[j], s[k]) >= 0 { Converse(cmp, s[j], s[k]); }
  }

  lemma CountWeaker<T(!new)>(s: seq<T>, p: T -> bool, q: T -> bool)
    requires forall x :: p(x) ==> q(x)
    ensures Count(s, p) <= Count(s, q)
  {}

  lemma NotSmaller<T(!new)>(cmp: (T, T) -> int, s: seq<T>, t: seq<T>, k: nat)
    requires TotalPreorder(cmp) && k < |s| == |t| && multiset(s) == multiset(t)
    requires Placed(cmp, s, 0, k, |s|) && Placed(cmp, t, 0, k, |t|)
    ensures cmp(s[k], t[k]) >= 0
  {
    PlacedCounts(cmp, s, k);
    PlacedCounts(cmp, t, k);
    if cmp(s[k], t[k]) < 0 {
      var upTo, below := (x: T) => cmp(x, s[k]) <= 0, (x: T) => cmp(x, t[k]) < 0;
      forall x | upTo(x) ensures below(x) {
        hide TotalPreorder;
        Converse(cmp, s[k], t[k]);
        Converse(cmp, t[k], s[k]);
        Converse(cmp, t[k], x);
        Converse(cmp, x, t[k]);
        Transitive(cmp, t[k], x, s[k]);
      }
      CountWeaker(s, upTo, below);
      CountMultiset(s, t, below);
    }
  }

  /** A placed position holds an element equal to the one that sorting the whole array puts there. */
  lemma AgreesWithFullSort<T(!new)>(cmp: (T, T) -> int, s: seq<T>, sorted: seq<T>, k: nat)
    requires TotalPreorder(cmp) && k < |s| == |sorted| && multiset(s) == multiset(sorted)
    requires Placed(cmp, s, 0, k, |s|) && Sorted(cmp, sorted, 0, |sorted|)
    ensures cmp(s[k], sorted[k]) == 0
  {
    NotSmaller(cmp, s, sorted, k);
    NotSmaller(cmp, sorted, s, k);
    Converse(cmp, s[k], sorted[k]);
  }
}
