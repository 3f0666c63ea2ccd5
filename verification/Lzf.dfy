/** The LZF codec (lzf_c.c, lzf_d.c, lzfP.h).

    `Decode` is the compressed format written as a function on byte sequences; `Decompress` is
    the decoder's loop, proved to compute it on every input, errors included; `Compress` is the
    one-pass compressor, whose output `Decode` maps back to the input. */
module Lzf {

  import opened Bytes

  type uint32 = x: int | 0 <= x < 0x1_0000_0000

  /** A C pointer, as the number the machine compares and subtracts. */
  type address = x: int | 0 <= x < ADDRESS_SPACE

  const ADDRESS_SPACE := 0x1_0000_0000_0000_0000
  const HSIZE := 65536
  const MAX_LIT := 32
  const MAX_OFF := 8192
  const MAX_REF := 264

  // ---------------------------------------------------------------- the format

  /** TooBig is errno E2BIG, Invalid is errno EINVAL. */
  datatype Outcome = Ok(data: seq<Byte>) | TooBig | Invalid

  /** Appends n bytes, each copied from `dist` positions before the current end; when n > dist
      the copy reads bytes it wrote itself. */
  function CopyBack(out: seq<Byte>, dist: nat, n: nat): (r: seq<Byte>)
    requires 1 <= dist <= |out|
    ensures |r| == |out| + n
    decreases n
  {
    if n == 0 then out else CopyBack(out + [out[|out| - dist]], dist, n - 1)
  }

  /** CopyBack is the LZ77 reference: it keeps what was there, and every byte it adds equals the one
      `dist` positions before it, even where source and copy overlap. Nothing else is such a copy. */
  lemma {:induction false} CopyBackIsReference(out: seq<Byte>, dist: nat, n: nat, r: seq<Byte>)
    requires 1 <= dist <= |out|
    ensures r == CopyBack(out, dist, n) <==>
      |r| == |out| + n && r[..|out|] == out && forall k :: |out| <= k < |r| ==> r[k] == r[k - dist]
    decreases n
  {
    if n == 0 {
      assert |r| == |out| && r[..|out|] == out ==> r == out;
    } else {
      var out' := out + [out[|out| - dist]];
      CopyBackIsReference(out', dist, n - 1, r);
      if |r| == |out| + n {
        assert r[..|out'|] == r[..|out|] + [r[|out|]];
        assert r[..|out|] == out ==> r[|out| - dist] == out[|out| - dist];
        assert r[..|out'|] == out' ==> r[..|out|] == out && r[|out|] == r[|out| - dist];
      }
    }
  }

  /** Size of the control part of the back-reference token with this first byte. */
  function HeaderLength(control: Byte): (h: nat) {
    if control / 32 == 7 then 3 else 2
  }

  function ReferenceLength(s: seq<Byte>): (n: nat)
    requires |s| >= 2
  {
    var control: int, extra: int := s[0], s[1];
    (if control / 32 == 7 then 7 + extra else control / 32) + 2
  }

  function ReferenceDistance(s: seq<Byte>): (dist: nat)
    requires |s| >= 2 && |s| >= HeaderLength(s[0])
    ensures dist >= 1
  {
    var control: int, low: int := s[0], s[HeaderLength(s[0]) - 1];
    control % 32 * 256 + low + 1
  }

  function TokenLength(s: seq<Byte>): (k: nat)
    requires s != []
    ensures k >= 2
  {
    if s[0] < MAX_LIT then s[0] + 2 else HeaderLength(s[0])
  }

  /** Number of bytes the first token of s appends. */
  function TokenAppends(s: seq<Byte>): (n: nat)
    requires s != [] && TokenLength(s) <= |s|
    ensures n > 0
  {
    if s[0] < MAX_LIT then s[0] + 1 else ReferenceLength(s)
  }

  function TokenOutput(s: seq<Byte>, out: seq<Byte>): (r: seq<Byte>)
    requires s != [] && TokenLength(s) <= |s|
    requires s[0] >= MAX_LIT ==> ReferenceDistance(s) <= |out|
    ensures |r| == |out| + TokenAppends(s)
  {
    if s[0] < MAX_LIT then out + s[1..TokenLength(s)] else CopyBack(out, ReferenceDistance(s), ReferenceLength(s))
  }

  /** What the tokens of s append to `out`, when at most `cap` bytes may be produced. A literal run
      tests the room before the input; a back-reference tests its header, the room, the distance. */
  function Decode(s: seq<Byte>, out: seq<Byte>, cap: nat): Outcome
    decreases |s|
  {
    if s == [] then Ok(out)
    else if s[0] < MAX_LIT && |out| + s[0] + 1 > cap then TooBig
    else if TokenLength(s) > |s| then Invalid
    else if |out| + TokenAppends(s) > cap then TooBig
    else if s[0] >= MAX_LIT && ReferenceDistance(s) > |out| then Invalid
    else Decode(s[TokenLength(s)..], TokenOutput(s, out), cap)
  }

  /** s is a complete token stream for d. */
  ghost predicate Encodes(s: seq<Byte>, d: seq<Byte>, cap: nat) {
    Decode(s, [], cap) == Ok(d)
  }

  lemma {:induction false} DecodeAppend(s: seq<Byte>, t: seq<Byte>, out: seq<Byte>, cap: nat)
    requires Decode(s, out, cap).Ok?
    ensures Decode(s + t, out, cap) == Decode(t, Decode(s, out, cap).data, cap)
    decreases |s|
  {
    if s == [] {
      assert s + t == t;
    } else {
      var k := TokenLength(s);
      DecodeStep(s, out, cap);
      DecodeStep(s + t, out, cap);
      AppendKeepsFirstToken(s, t);
      assert TokenOutput(s + t, out) == TokenOutput(s, out) by { AppendKeepsOutput(s, t, out); }
      hide Decode, TokenOutput, TokenLength, TokenAppends, ReferenceDistance;
      DecodeAppend(s[k..], t, TokenOutput(s, out), cap);
    }
  }

  lemma AppendKeepsOutput(s: seq<Byte>, t: seq<Byte>, out: seq<Byte>)
    requires s != [] && TokenLength(s) <= |s| && (s[0] >= MAX_LIT ==> ReferenceDistance(s) <= |out|)
    ensures TokenLength(s + t) == TokenLength(s) && ReferenceDistance(s + t) == ReferenceDistance(s)
    ensures TokenOutput(s + t, out) == TokenOutput(s, out)
  {
    AppendKeepsFirstToken(s, t);
  }

  lemma AppendKeepsFirstToken(s: seq<Byte>, t: seq<Byte>)
    requires s != [] && TokenLength(s) <= |s|
    ensures (s + t)[0] == s[0] && TokenLength(s + t) == TokenLength(s)
    ensures (s + t)[TokenLength(s)..] == s[TokenLength(s)..] + t
    ensures TokenAppends(s + t) == TokenAppends(s)
    ensures s[0] >= MAX_LIT ==> ReferenceDistance(s + t) == ReferenceDistance(s)
    ensures s[0] < MAX_LIT ==> (s + t)[1..TokenLength(s)] == s[1..TokenLength(s)]
  {}

  /** One step of `Decode`, for proofs that keep its body hidden. */
  lemma DecodeStep(s: seq<Byte>, out: seq<Byte>, cap: nat)
    requires s != []
    ensures s[0] < MAX_LIT && |out| + s[0] + 1 > cap ==> Decode(s, out, cap) == TooBig
    ensures TokenLength(s) > |s| && !(s[0] < MAX_LIT && |out| + s[0] + 1 > cap) ==> Decode(s, out, cap) == Invalid
    ensures TokenLength(s) <= |s| && |out| + TokenAppends(s) > cap ==> Decode(s, out, cap) == TooBig
    ensures TokenLength(s) <= |s| && |out| + TokenAppends(s) <= cap ==>
      Decode(s, out, cap) == if s[0] >= MAX_LIT && ReferenceDistance(s) > |out| then Invalid
                             else Decode(s[TokenLength(s)..], TokenOutput(s, out), cap)
  {}

  /** A stream whose bytes fix the format: two literals, 96 bytes copied from one byte back, two literals. */
  lemma KnownStream(a: Byte)
    ensures Decode([1, a, a, 224, 87, 0, 1, a, a], [], 100) == Ok(seq(100, i => a))
  {
    hide Decode, CopyBack;
    var s: seq<Byte>, t: seq<Byte>, u: seq<Byte> := [1, a, a], [224, 87, 0], [1, a, a];
    var d: seq<Byte>, e: seq<Byte> := [a, a], seq(98, i => a);
    DecodeOne(s, [], 100);
    assert TokenOutput(s, []) == d by { assert s[1..3] == d; }
    DecodeOne(t, d, 100);
    assert TokenOutput(t, d) == e by {
      assert e[..2] == d;
      CopyBackIsReference(d, 1, 96, e);
    }
    DecodeOne(u, e, 100);
    assert TokenOutput(u, e) == seq(100, i => a) by { assert u[1..3] == d; }
    DecodeAppend(s, t, [], 100);
    DecodeAppend(s + t, u, [], 100);
    assert s + t + u == [1, a, a, 224, 87, 0, 1, a, a];
  }

  /** One whole token on its own. */
  lemma DecodeOne(t: seq<Byte>, out: seq<Byte>, cap: nat)
    requires t != [] && TokenLength(t) == |t| && |out| + TokenAppends(t) <= cap
    requires t[0] >= MAX_LIT ==> ReferenceDistance(t) <= |out|
    ensures Decode(t, out, cap) == Ok(TokenOutput(t, out))
  {
    assert t[|t|..] == [];
  }

  lemma LiteralToken(s: seq<Byte>, d: seq<Byte>, lits: seq<Byte>, cap: nat)
    requires Encodes(s, d, cap) && 1 <= |lits| <= MAX_LIT && |d| + |lits| <= cap
    ensures Encodes(s + [|lits| - 1] + lits, d + lits, cap)
  {
    hide Decode;
    var t: seq<Byte> := [|lits| - 1] + lits;
    DecodeAppend(s, t, [], cap);
    assert t[1..1 + |lits|] == lits;
    DecodeOne(t, d, cap);
    assert s + [|lits| - 1] + lits == s + t;
  }

  /** The two or three bytes of a back-reference of n bytes starting off + 1 bytes back. */
  function RefToken(off: nat, n: nat): (t: seq<Byte>)
    requires off < MAX_OFF && 3 <= n <= MAX_REF
  {
    if n - 2 < 7 then [off / 256 + (n - 2) * 32, off % 256]
    else [off / 256 + 7 * 32, n - 2 - 7, off % 256]
  }

  lemma RefTokenReads(off: nat, n: nat)
    requires off < MAX_OFF && 3 <= n <= MAX_REF
    ensures var t := RefToken(off, n);
      t[0] >= MAX_LIT && |t| == HeaderLength(t[0]) && ReferenceLength(t) == n && ReferenceDistance(t) == off + 1
  {
    var t := RefToken(off, n);
    assert t[0] / 32 == (if n - 2 < 7 then n - 2 else 7) && t[0] % 32 == off / 256;
  }

  lemma BackReferenceToken(s: seq<Byte>, d: seq<Byte>, off: nat, n: nat, cap: nat)
    requires Encodes(s, d, cap) && off < MAX_OFF && 3 <= n <= MAX_REF
    requires off + 1 <= |d| && |d| + n <= cap
    ensures Encodes(s + RefToken(off, n), CopyBack(d, off + 1, n), cap)
  {
    hide Decode;
    var t := RefToken(off, n);
    DecodeAppend(s, t, [], cap);
    RefTokenReads(off, n);
    DecodeOne(t, d, cap);
  }

  /** Copying a match whose source overlaps its own output reproduces the input. */
  lemma {:induction false} CopyBackMatches(data: seq<Byte>, ref: nat, ip: nat, n: nat)
    requires ref < ip && ip + n <= |data|
    requires data[ref..ref + n] == data[ip..ip + n]
    ensures CopyBack(data[..ip], ip - ref, n) == data[..ip + n]
    decreases n
  {
    if n > 0 {
      assert data[ref] == data[ref..ref + n][0] == data[ip..ip + n][0] == data[ip];
      assert data[..ip] + [data[ref]] == data[..ip + 1];
      assert data[ref + 1..ref + n] == data[ref..ref + n][1..] == data[ip..ip + n][1..];
      CopyBackMatches(data, ref + 1, ip + 1, n - 1);
    }
  }

  // ---------------------------------------------------------------- lzf_d.c

  /** Reads input[..inLen], which holds at least the first control byte. */
  method Decompress(input: array<Byte>, inLen: nat, output: array<Byte>, outLen: nat) returns (n: nat, result: Outcome)
    requires 1 <= inLen <= input.Length && outLen <= output.Length && input != output
    modifies output
    ensures result == Decode(input[..inLen], [], outLen)
    ensures result.Ok? ==> n == |result.data| && 1 <= n <= outLen && output[..n] == result.data
    ensures !result.Ok? ==> n == 0
    ensures SameFrom(output, if result.Ok? then n else outLen)
  {
    var ip: nat, op: nat := 0, 0;
    ghost var src := input[..inLen];
    assert src == src[0..] && output[..0] == [];
    while true
      invariant 0 <= ip <= inLen && 0 <= op <= outLen && src == input[..inLen]
      invariant ip == inLen ==> op > 0
      invariant Decode(src, [], outLen) == Decode(src[ip..], output[..op], outLen)
      invariant SameFrom(output, op)
      decreases inLen - ip
    {
      if ip == inLen { break; }
      var error;
      if input[ip] < 32 {
        ip, op, error := LiteralRun(input, src, inLen, output, outLen, ip, op);
      } else {
        ip, op, error := BackReference(input, src, inLen, output, outLen, ip, op);
      }
      if !error.Ok? { return 0, error; }
    }
    return op, Ok(output[..op]);
  }

  method LiteralRun(input: array<Byte>, ghost src: seq<Byte>, inLen: nat, output: array<Byte>, outLen: nat, ip: nat,
                    op: nat)
    returns (ip': nat, op': nat, error: Outcome)
    requires ip < inLen <= input.Length && op <= outLen <= output.Length && input != output
    requires src == input[..inLen] && src[ip] < 32
    modifies output
    ensures ip < ip' <= inLen && op <= op' <= outLen
    ensures SameFrom(output, op')
    ensures error.Ok? ==> op < op'
    ensures error.Ok? ==> Decode(src[ip..], old(output[..op]), outLen) == Decode(src[ip'..], output[..op'], outLen)
    ensures !error.Ok? ==> Decode(src[ip..], old(output[..op]), outLen) == error
  {
    hide Decode;
    ghost var rest, before := src[ip..], output[..op];
    DecodeStep(rest, before, outLen);
    var count: int := input[ip] + 1;
    ip', op' := ip + 1, op;
    if op + count > outLen { return ip', op, TooBig; }
    if ip' + count > inLen { return ip', op, Invalid; }
    assert rest[1..1 + count] == src[ip'..ip' + count] && rest[1 + count..] == src[ip' + count..];
    CopyLiteral(input, src, ip', output, op, count);
    assert output[..op + count] == before + src[ip'..ip' + count];
    return ip' + count, op + count, Ok([]);
  }

  method BackReference(input: array<Byte>, ghost src: seq<Byte>, inLen: nat, output: array<Byte>, outLen: nat, ip: nat,
                       op: nat)
    returns (ip': nat, op': nat, error: Outcome)
    requires ip < inLen <= input.Length && op <= outLen <= output.Length && input != output
    requires src == input[..inLen] && src[ip] >= 32
    modifies output
    ensures ip < ip' <= inLen && op <= op' <= outLen
    ensures SameFrom(output, op')
    ensures error.Ok? ==> op < op'
    ensures error.Ok? ==> Decode(src[ip..], old(output[..op]), outLen) == Decode(src[ip'..], output[..op'], outLen)
    ensures !error.Ok? ==> Decode(src[ip..], old(output[..op]), outLen) == error
  {
    hide Decode, CopyBack, ReferenceLength, ReferenceDistance;
    DecodeStep(src[ip..], output[..op], outLen);
    var complete, len, back;
    complete, ip', len, back := ReadReference(input, src, inLen, ip);
    op' := op;
    if !complete { return ip', op, Invalid; }
    if op + len + 2 > outLen { return ip', op, TooBig; }
    if back > op { return ip', op, Invalid; }
    ghost var h := HeaderLength(src[ip..][0]);
    assert src[ip..][h..] == src[ip'..];
    CopyReference(output, op, back, len + 2);
    return ip', op + len + 2, Ok([]);
  }

  method ReadReference(input: array<Byte>, ghost src: seq<Byte>, inLen: nat, ip: nat)
    returns (complete: bool, ip': nat, len: nat, back: nat)
    requires ip < inLen <= input.Length && src == input[..inLen]
    requires src[ip] >= 32
    ensures ip < ip' <= inLen && complete == (ip + HeaderLength(src[ip]) <= inLen)
    ensures complete ==> ip' == ip + HeaderLength(src[ip])
    ensures complete ==> ReferenceLength(src[ip..]) == len + 2 && ReferenceDistance(src[ip..]) == back
  {
    var ctrl: int := input[ip];
    len, back := ctrl / 32, ctrl % 32 * 256 + 1;
    ip', complete := ip + 1, false;
    if ip' >= inLen { return; }
    if len == 7 {
      len := len + input[ip'];
      ip' := ip' + 1;
      if ip' >= inLen { return; }
    }
    complete, back, ip' := true, back + input[ip'], ip' + 1;
  }

  twostate predicate SameFrom(a: array<Byte>, from: nat)
    reads a
  {
    forall i :: from <= i < a.Length ==> a[i] == old(a[i])
  }

  method CopyLiteral(input: array<Byte>, ghost src: seq<Byte>, from: nat, output: array<Byte>, op: nat, count: nat)
    requires from + count <= |src| <= input.Length && op + count <= output.Length && input != output
    requires src == input[..|src|]
    modifies output
    ensures output[..op] == old(output[..op]) && SameFrom(output, op + count)
    ensures output[op..op + count] == src[from..from + count]
  {
    var k := 0;
    while k < count
      invariant 0 <= k <= count && src == input[..|src|]
      invariant forall i :: 0 <= i < op || op + count <= i < output.Length ==> output[i] == old(output[i])
      invariant forall i :: op <= i < op + k ==> output[i] == src[from + i - op]
    {
      output[op + k] := input[from + k];
      k := k + 1;
    }
  }

  method CopyReference(output: array<Byte>, op: nat, back: nat, count: nat)
    requires 1 <= back <= op && op + count <= output.Length
    modifies output
    ensures output[..op + count] == CopyBack(old(output[..op]), back, count)
    ensures SameFrom(output, op + count)
  {
    hide CopyBack;
    ghost var start := output[..op];
    var k := 0;
    assert output[..op + 0] == start;
    while k < count
      invariant 0 <= k <= count
      invariant CopyBack(start, back, count) == CopyBack(output[..op + k], back, count - k)
      invariant SameFrom(output, op + count)
    {
      ghost var sofar := output[..op + k];
      CopyBackStep(sofar, back, count - k);
      output[op + k] := output[op + k - back];
      assert output[..op + k + 1] == sofar + [sofar[|sofar| - back]];
      k := k + 1;
    }
    CopyBackNothing(output[..op + k], back);
  }

  lemma CopyBackStep(out: seq<Byte>, dist: nat, n: nat)
    requires 1 <= dist <= |out| && n > 0
    ensures CopyBack(out, dist, n) == CopyBack(out + [out[|out| - dist]], dist, n - 1)
  {}

  lemma CopyBackNothing(out: seq<Byte>, dist: nat)
    requires 1 <= dist <= |out|
    ensures CopyBack(out, dist, 0) == out
  {}

  // ---------------------------------------------------------------- lzf_c.c

  function First(a: Byte, b: Byte): uint32 {
    var high: int, low: int := a, b;
    high * 256 + low
  }

  function Next(v: uint32, b: Byte): uint32 {
    (v * 256 + b) % 0x1_0000_0000
  }

  function Idx(h: uint32): (i: nat)
    ensures i < HSIZE
  {
    (h / 256 - h * 5) % HSIZE
  }

  /** The hash of three bytes is the last four bytes read, and its slot mixes their high and low parts. */
  lemma KnownHash()
    ensures First(1, 2) == 0x0102 && Next(0x0102, 3) == 0x010203 && Next(0x01020304, 5) == 0x02030405
    ensures Idx(0x010203) == 0xF6F3 && Idx(0x02030405) == 0xEEEB
  {}

  /** The unsigned distance test and the lower bound test on a hash slot. The slot may hold any
      bit pattern: the table is never initialised. */
  predicate SlotPasses(slot: address, base: address, ip: nat) {
    (base + ip - slot - 1) % ADDRESS_SPACE < MAX_OFF && slot > base
  }

  /** The two tests reject every stale slot exactly when the current input position is not among
      the lowest MAX_OFF addresses. */
  lemma SlotTestExact(base: address, ip: nat)
    requires base + ip < ADDRESS_SPACE
    ensures (forall slot: address :: SlotPasses(slot, base, ip) ==> base < slot < base + ip)
       <==> base + ip >= MAX_OFF || base == ADDRESS_SPACE - 1
  {
    if base + ip < MAX_OFF {
      assert SlotPasses(ADDRESS_SPACE - 1, base, ip);
    } else {
      forall slot: address | SlotPasses(slot, base, ip) ensures base < slot < base + ip {
        var x := base + ip - slot - 1;
        assert x % ADDRESS_SPACE == if x < 0 then x + ADDRESS_SPACE else x;
      }
    }
  }

  /** A slot that passes is the address of an earlier position within the window. */
  lemma SlotInWindow(slot: address, base: address, ip: nat)
    requires MAX_OFF <= base && base + ip < ADDRESS_SPACE && SlotPasses(slot, base, ip)
    ensures base <= slot < base + ip && base + ip - slot - 1 < MAX_OFF
  {
    SlotTestExact(base, ip);
    var x := base + ip - slot - 1;
    assert x % ADDRESS_SPACE == x;
  }

  predicate Agree(data: seq<Byte>, ref: nat, ip: nat, k: nat) {
    ref + k < |data| && ip + k < |data| && data[ref + k] == data[ip + k]
  }

  /** Number of equal bytes: 16 unrolled comparisons when the limit allows, then one at a time. */
  method MatchLength(input: array<Byte>, ghost data: seq<Byte>, inLen: nat, ref: nat, ip: nat) returns (len: nat)
    requires ref < ip && ip + 4 < inLen <= input.Length && data == input[..inLen]
    requires forall k :: 0 <= k < 3 ==> Agree(data, ref, ip, k)
    ensures 3 <= len <= MAX_REF && ip + len <= inLen
    ensures forall k :: 0 <= k < len ==> Agree(data, ref, ip, k)
    ensures len < MAX_REF && ip + len < inLen - 2 ==> !Agree(data, ref, ip, len)
  {
    len := 2;
    var maxlen := inLen - ip - len;
    maxlen := if maxlen > MAX_REF then MAX_REF else maxlen;
    if maxlen > 16 {
      var unrolled := 0;
      while unrolled < 16
        invariant 0 <= unrolled <= 16 && len == 2 + unrolled
        invariant forall k :: 0 <= k <= len ==> Agree(data, ref, ip, k)
      {
        unrolled := unrolled + 1;
        len := len + 1;
        if input[ref + len] != input[ip + len] { return; }
      }
    }
    len := len + 1;
    while len < maxlen && input[ref + len] == input[ip + len]
      invariant 3 <= len && (len <= maxlen || (maxlen > 16 && len == 19))
      invariant forall k :: 0 <= k < len ==> Agree(data, ref, ip, k)
    {
      len := len + 1;
    }
  }

  lemma AgreeSlices(data: seq<Byte>, ref: nat, ip: nat, len: nat)
    requires ref < ip && ip + len <= |data|
    requires forall k :: 0 <= k < len ==> Agree(data, ref, ip, k)
    ensures data[ref..ref + len] == data[ip..ip + len]
  {
    var a, b := data[ref..ref + len], data[ip..ip + len];
    forall k | 0 <= k < len ensures a[k] == b[k] { assert Agree(data, ref, ip, k); }
  }

  /** The first op bytes are a complete stream for the first ip bytes of data, and not much longer. */
  ghost predicate Committed(data: seq<Byte>, out: seq<Byte>, ip: nat, op: nat) {
    ip <= |data| && op <= |out| && Encodes(out[..op], data[..ip], |data|) && 32 * op <= 33 * ip
  }

  /** A committed prefix, a reserved header byte, and the literals of the open run. */
  ghost predicate OpenRun(data: seq<Byte>, out: seq<Byte>, ip: nat, op: nat, lit: nat) {
    && lit <= ip <= |data| && lit < op <= |out|
    && Committed(data, out, ip - lit, op - lit - 1)
    && out[op - lit..op] == data[ip - lit..ip]
  }

  lemma CommittedSame(data: seq<Byte>, was: seq<Byte>, out: seq<Byte>, ip: nat, op: nat)
    requires Committed(data, was, ip, op) && op <= |out| && out[..op] == was[..op]
    ensures Committed(data, out, ip, op)
  {
    hide Decode;
  }

  lemma OpenRunPush(data: seq<Byte>, was: seq<Byte>, ip: nat, op: nat, lit: nat)
    requires OpenRun(data, was, ip, op, lit)
    requires ip < |data| && op < |was|
    ensures OpenRun(data, was[op := data[ip]], ip + 1, op + 1, lit + 1)
  {
    hide Decode;
    var out := was[op := data[ip]];
    CommittedSame(data, was, out, ip - lit, op - lit - 1);
    assert out[op - lit..op + 1] == was[op - lit..op] + [data[ip]];
    assert data[ip - lit..ip + 1] == data[ip - lit..ip] + [data[ip]];
  }

  lemma OpenRunStopped(data: seq<Byte>, was: seq<Byte>, ip: nat, op: nat, lit: nat)
    requires OpenRun(data, was, ip, op, lit) && 1 <= lit <= MAX_LIT
    ensures var out := was[op - lit - 1 := lit - 1];
      Encodes(out[..op], data[..ip], |data|) && 32 * op <= 33 * ip + 32 - lit
  {
    hide Decode;
    var out := was[op - lit - 1 := lit - 1];
    var lits := data[ip - lit..ip];
    LiteralToken(was[..op - lit - 1], data[..ip - lit], lits, |data|);
    assert data[..ip - lit] + lits == data[..ip];
    assert out[..op] == was[..op - lit - 1] + [lit - 1] + lits;
  }

  lemma OpenRunFresh(data: seq<Byte>, out: seq<Byte>, ip: nat, op: nat)
    requires op < |out| && Committed(data, out, ip, op)
    ensures OpenRun(data, out, ip, op + 1, 0)
  {
    hide Decode;
    assert out[op + 1..op + 1] == [] == data[ip..ip];
  }

  lemma ReferenceCommitted(data: seq<Byte>, out: seq<Byte>, ref: nat, ip: nat, op: nat, matched: nat)
    requires ref < ip && ip - ref - 1 < MAX_OFF && 3 <= matched <= MAX_REF && ip + matched <= |data|
    requires op <= |out| && Encodes(out[..op], data[..ip], |data|)
    requires data[ref..ref + matched] == data[ip..ip + matched]
    ensures Encodes(out[..op] + RefToken(ip - ref - 1, matched), data[..ip + matched], |data|)
  {
    hide Decode;
    BackReferenceToken(out[..op], data[..ip], ip - ref - 1, matched, |data|);
    CopyBackMatches(data, ref, ip, matched);
  }

  /** Writes the run header and, when the run is empty, takes the header byte back. */
  method StopRun(ghost data: seq<Byte>, output: array<Byte>, ghost ip: nat, op: nat, lit: nat) returns (op': nat)
    requires OpenRun(data, output[..], ip, op, lit) && lit <= MAX_LIT
    modifies output
    ensures op' == if lit == 0 then op - 1 else op
    ensures Encodes(output[..][..op'], data[..ip], |data|)
    ensures 32 * op' <= 33 * ip + (if lit == 0 then 0 else 32 - lit)
    ensures SameFrom(output, op)
  {
    hide Decode;
    ghost var was := output[..];
    var header: Byte := (lit - 1) % 256;
    output[op - lit - 1] := header;
    op' := if lit == 0 then op - 1 else op;
    assert output[..] == was[op - lit - 1 := header];
    if lit == 0 {
      CommittedSame(data, was, output[..], ip, op - 1);
    } else {
      OpenRunStopped(data, was, ip, op, lit);
    }
  }

  /** Writes the back-reference bytes at op. */
  method PutReference(output: array<Byte>, op: nat, off: nat, matched: nat) returns (op': nat)
    requires off < MAX_OFF && 3 <= matched <= MAX_REF && op + 3 <= output.Length
    modifies output
    ensures op' == op + |RefToken(off, matched)|
    ensures output[..][..op'] == old(output[..][..op]) + RefToken(off, matched)
    ensures SameFrom(output, op')
  {
    ghost var before := output[..][..op];
    var len := matched - 2;
    op' := op;
    if len < 7 {
      output[op'] := (off / 256 + len * 32) % 256;
      op' := op' + 1;
    } else {
      output[op'] := (off / 256 + 7 * 32) % 256;
      output[op' + 1] := len - 7;
      op' := op' + 2;
    }
    output[op'] := off % 256;
    op' := op' + 1;
    assert output[..][..op'] == before + RefToken(off, matched);
  }

  /** Copies one byte into the open run, closing the run when it is full. */
  method PutLiteral(input: array<Byte>, ghost data: seq<Byte>, output: array<Byte>, ip: nat, op: nat, lit: nat)
    returns (op': nat, lit': nat)
    requires |data| <= input.Length && data == input[..|data|] && input != output
    requires ip < |data| && op + 1 < output.Length && lit < MAX_LIT
    requires OpenRun(data, output[..], ip, op, lit)
    modifies output
    ensures if lit == MAX_LIT - 1 then op' == op + 2 && lit' == 0 else op' == op + 1 && lit' == lit + 1
    ensures OpenRun(data, output[..], ip + 1, op', lit')
    ensures SameFrom(output, op + 1)
  {
    hide Decode;
    ghost var was := output[..];
    output[op] := input[ip];
    assert output[..] == was[op := data[ip]];
    OpenRunPush(data, was, ip, op, lit);
    lit', op' := lit + 1, op + 1;
    if lit' == MAX_LIT {
      op' := StopRun(data, output, ip + 1, op', lit');
      OpenRunFresh(data, output[..], ip + 1, op');
      lit', op' := 0, op' + 1;
    }
  }

  predicate SameThree(data: seq<Byte>, ref: nat, ip: nat)
    requires ref < ip && ip + 2 < |data|
  {
    data[ref] == data[ip] && data[ref + 1] == data[ip + 1] && data[ref + 2] == data[ip + 2]
  }

  /** A slot that leads to a match at ip: an earlier position but the first, within the window, with the same three
      bytes, at least five bytes before the end. */
  predicate Hit(data: seq<Byte>, slot: address, base: address, ip: nat) {
    && base < slot < base + ip && base + ip - slot <= 8192 && ip + 4 < |data|
    && SameThree(data, slot - base, ip)
  }

  lemma HitExactly(data: seq<Byte>, slot: address, base: address, ip: nat)
    requires MAX_OFF <= base && base + |data| < ADDRESS_SPACE && ip + 4 < |data|
    ensures SlotPasses(slot, base, ip) ==> base <= slot < base + ip
    ensures Hit(data, slot, base, ip) <==> SlotPasses(slot, base, ip) && SameThree(data, slot - base, ip)
  {
    hide SameThree;
    if SlotPasses(slot, base, ip) {
      SlotInWindow(slot, base, ip);
    }
    if Hit(data, slot, base, ip) {
      var x := base + ip - slot - 1;
      assert x % ADDRESS_SPACE == x;
    }
  }

  /** One search step: looks the current three bytes up, stores the position in the table. A match is found exactly
      when the slot leads to one. */
  method Probe(input: array<Byte>, ghost data: seq<Byte>, htab: array<address>, base: address, inLen: nat, ip: nat,
               hval: uint32)
    returns (found: bool, ref: nat, hval': uint32)
    requires ip + 2 < inLen <= input.Length && data == input[..inLen] && htab.Length == HSIZE
    requires MAX_OFF <= base && base + inLen < ADDRESS_SPACE
    modifies htab
    ensures data == input[..inLen]
    ensures hval' == Next(hval, data[ip + 2]) && htab[..] == old(htab[..])[Idx(hval') := base + ip]
    ensures found == Hit(data, old(htab[..])[Idx(hval')], base, ip)
    ensures found ==> ref == old(htab[..])[Idx(hval')] - base
  {
    hide Next, Idx, SlotPasses, Hit;
    hval' := Next(hval, input[ip + 2]);
    var slot := htab[Idx(hval')];
    htab[Idx(hval')] := base + ip;
    found, ref := false, 0;
    if ip + 4 < inLen {
      HitExactly(data, slot, base, ip);
    } else {
      TooLate(data, slot, base, ip);
    }
    if SlotPasses(slot, base, ip) && ip + 4 < inLen {
      SlotInWindow(slot, base, ip);
      ref := slot - base;
      found := input[ref] == input[ip] && input[ref + 1] == input[ip + 1] && input[ref + 2] == input[ip + 2];
    }
  }

  lemma TooLate(data: seq<Byte>, slot: address, base: address, ip: nat)
    requires ip + 4 >= |data|
    ensures !Hit(data, slot, base, ip)
  {}

  lemma HitIsMatch(data: seq<Byte>, slot: address, base: address, ip: nat, ref: nat)
    requires Hit(data, slot, base, ip) && ref == slot - base
    ensures ref < ip && ip - ref - 1 < MAX_OFF && ip + 4 < |data|
    ensures forall k :: 0 <= k < 3 ==> Agree(data, ref, ip, k)
  {}

  /** Emits the back-reference for a match of `matched` bytes and opens the next run. */
  method PutMatch(ghost data: seq<Byte>, output: array<Byte>, ref: nat, ip: nat, op: nat, lit: nat, matched: nat)
    returns (op': nat)
    requires lit < MAX_LIT && OpenRun(data, output[..], ip, op, lit)
    requires ref < ip && ip - ref - 1 < MAX_OFF && 3 <= matched <= MAX_REF && ip + matched <= |data|
    requires data[ref..ref + matched] == data[ip..ip + matched]
    requires op + (if lit == 0 then 3 else 4) <= output.Length
    modifies output
    ensures op' <= op + (if lit == 0 then 3 else 4)
    ensures OpenRun(data, output[..], ip + matched, op', 0)
    ensures SameFrom(output, op')
  {
    hide Decode;
    op' := StopRun(data, output, ip, op, lit);
    ReferenceCommitted(data, output[..], ref, ip, op', matched);
    op' := PutReference(output, op', ip - ref - 1, matched);
    OpenRunFresh(data, output[..], ip + matched, op');
    op' := op' + 1;
  }

  function Reseeded(data: seq<Byte>, slots: seq<address>, base: address, ip: nat): (uint32, seq<address>)
    requires 2 <= ip && ip + 2 < |data| && |slots| == HSIZE && base + |data| < ADDRESS_SPACE
  {
    var h0 := Next(First(data[ip - 2], data[ip - 1]), data[ip]);
    var h1 := Next(h0, data[ip + 1]);
    (h1, slots[Idx(h0) := base + ip - 2][Idx(h1) := base + ip - 1])
  }

  /** Records the last two positions inside a match and restarts the rolling hash there. */
  method Reseed(input: array<Byte>, inLen: nat, htab: array<address>, base: address, ip: nat) returns (hval: uint32)
    requires 2 <= ip && ip + 2 < inLen <= input.Length && htab.Length == HSIZE && base + inLen < ADDRESS_SPACE
    modifies htab
    ensures (hval, htab[..]) == Reseeded(input[..inLen], old(htab[..]), base, ip)
  {
    hval := First(input[ip - 2], input[ip - 1]);
    hval := Next(hval, input[ip]);
    htab[Idx(hval)] := base + ip - 2;
    hval := Next(hval, input[ip + 1]);
    htab[Idx(hval)] := base + ip - 1;
  }

  /** What one turn does: at a hit a match of at least three bytes, as long as the bytes agree and the format and the
      input allow, and otherwise one literal; nothing only when the output is full. */
  ghost predicate Turn(data: seq<Byte>, slots: seq<address>, slots': seq<address>, base: address, outLen: nat,
                       ip: nat, op: nat, lit: nat, hval: uint32,
                       fits: bool, ip': nat, op': nat, lit': nat, hval': uint32)
    requires ip + 2 < |data| && |slots| == |slots'| == HSIZE && base + |data| < ADDRESS_SPACE
  {
    var h := Next(hval, data[ip + 2]);
    var slot, probed := slots[Idx(h)], slots[Idx(h) := base + ip];
    if Hit(data, slot, base, ip) then
      && fits == (op - (if lit == 0 then 1 else 0) + 4 < outLen)
      && (fits ==>
           && ip + 3 <= ip' <= |data| && lit' == 0 && op' <= op + (if lit == 0 then 3 else 4)
           && (ip' == ip + 264 || ip' + 2 >= |data| || !Agree(data, slot - base, ip, ip' - ip))
           && (ip' + 2 < |data| ==> (hval', slots') == Reseeded(data, probed, base, ip')))
    else
      && fits == (op < outLen)
      && (fits ==>
           && ip' == ip + 1 && hval' == h && slots' == probed
           && if lit == 31 then op' == op + 2 && lit' == 0 else op' == op + 1 && lit' == lit + 1)
  }

  /** One turn of the compressor's loop: emits a match or a literal, or finds the output full. */
  method Step(input: array<Byte>, ghost data: seq<Byte>, output: array<Byte>, outLen: nat, htab: array<address>,
              base: address,
              inLen: nat, ip: nat, op: nat, lit: nat, hval: uint32)
    returns (fits: bool, ip': nat, op': nat, lit': nat, hval': uint32)
    requires ip + 2 < inLen <= input.Length && data == input[..inLen]
    requires outLen < output.Length && input != output && htab.Length == HSIZE
    requires MAX_OFF <= base && base + inLen < ADDRESS_SPACE
    requires op <= outLen + 1 && lit < MAX_LIT && (op == outLen + 1 ==> lit == 0)
    requires OpenRun(data, output[..], ip, op, lit)
    modifies output, htab
    ensures SameFrom(output, outLen + 1)
    ensures !fits ==> op + 4 >= outLen
    ensures fits ==> ip < ip' <= inLen && op' <= outLen + 1 && lit' < MAX_LIT && (op' == outLen + 1 ==> lit' == 0)
    ensures fits ==> OpenRun(data, output[..], ip', op', lit')
    ensures data == input[..inLen]
    ensures Turn(data, old(htab[..]), htab[..], base, outLen, ip, op, lit, hval, fits, ip', op', lit', hval')
  {
    hide Decode, Hit, Next, Idx, First, OpenRun, Agree;
    ghost var out, slots := output[..], htab[..];
    var found, ref;
    fits, ip', op', lit' := false, ip, op, lit;
    found, ref, hval' := Probe(input, data, htab, base, inLen, ip, hval);
    if found {
      HitIsMatch(data, slots[Idx(hval')], base, ip, ref);
      if op - (if lit == 0 then 1 else 0) + 3 + 1 >= outLen { return; }
      var matched := MatchLength(input, data, inLen, ref, ip);
      AgreeSlices(data, ref, ip, matched);
      assert output[..] == out;
      op' := PutMatch(data, output, ref, ip, op, lit, matched);
      fits, ip', lit' := true, ip + matched, 0;
      out := output[..];
      if ip' < inLen - 2 {
        hval' := Reseed(input, inLen, htab, base, ip');
        assert output[..] == out;
      }
    } else {
      if op >= outLen { return; }
      assert output[..] == out;
      op', lit' := PutLiteral(input, data, output, ip, op, lit);
      fits, ip' := true, ip + 1;
    }
  }

  // ---------------------------------------------------------------- equal bytes

  ghost predicate Uniform(data: seq<Byte>) {
    forall k :: 0 <= k < |data| ==> data[k] == data[0]
  }

  /** Enough room for the compressed form of n equal bytes. */
  function UniformBound(n: nat): (m: nat)
    requires n >= 2
  {
    12 + 3 * ((n - 2) / 264)
  }

  /** From its fourth byte on the rolling hash of equal bytes stays the same. */
  lemma SameHash(x: Byte)
    ensures var h := Next(Next(First(x, x), x), x); Next(h, x) == h
  {
    assert First(x, x) == 0x101 * x && Next(First(x, x), x) == 0x1_0101 * x;
    var h := Next(Next(First(x, x), x), x);
    assert h == 0x101_0101 * x;
    assert h * 256 + x == 0x101_0101 * x + 0x1_0000_0000 * x;
  }

  /** Where the compressor stands in a run of equal bytes, whatever the table held: two literals, then matches of the
      greatest length, then the bytes too close to the end. */
  ghost predicate UniformAt(data: seq<Byte>, slots: seq<address>, base: address, ip: nat, op: nat, lit: nat,
                            hval: uint32)
    requires |data| >= 7 && |slots| == HSIZE && base + |data| < ADDRESS_SPACE
  {
    var first, n := First(data[0], data[0]), |data|;
    var h := Next(Next(first, data[0]), data[0]);
    if ip == 0 then op == 1 && lit == 0 && hval == first
    else if ip == 1 then op == 2 && lit == 1 && hval == Next(first, data[0])
    else
      && ip <= n && lit <= op
      && (ip + 2 < n ==> hval == h && slots[Idx(h)] == base + ip - 1)
      && (if ip == 2 then op == 3 && lit == 2 else lit <= 2 && (ip + 4 <= n ==> lit == 0) && (ip + 3 <= n ==> lit <= 1))
      && op - lit <= 4 + 3 * ((ip - 2) / 264) + (if ip + 2 >= n then 3 else 0)
  }

  lemma UniformStep(data: seq<Byte>, slots: seq<address>, slots': seq<address>, base: address, outLen: nat,
                    ip: nat, op: nat, lit: nat, hval: uint32,
                    fits: bool, ip': nat, op': nat, lit': nat, hval': uint32)
    requires Uniform(data) && |data| >= 7 && outLen >= UniformBound(|data|)
    requires ip + 2 < |data| && |slots| == |slots'| == HSIZE && base + |data| < ADDRESS_SPACE
    requires UniformAt(data, slots, base, ip, op, lit, hval)
    requires Turn(data, slots, slots', base, outLen, ip, op, lit, hval, fits, ip', op', lit', hval')
    ensures fits && UniformAt(data, slots', base, ip', op', lit', hval')
  {
    hide First, Next, Idx;
    SameHash(data[0]);
    var slot := slots[Idx(Next(hval, data[ip + 2]))];
    if Hit(data, slot, base, ip) {
      var q := (ip - 2) / 264;
      assert ip' == ip + 264 ==> (ip' - 2) / 264 == q + 1;
      assert (ip' - 2) / 264 >= q;
    }
  }

  lemma UniformStart(data: seq<Byte>, slots: seq<address>, base: address)
    requires Uniform(data) && |data| >= 7 && |slots| == HSIZE && base + |data| < ADDRESS_SPACE
    ensures UniformAt(data, slots, base, 0, 1, 0, First(data[0], data[1]))
  {}

  lemma OpenRunSize(data: seq<Byte>, out: seq<Byte>, ip: nat, op: nat, lit: nat)
    requires OpenRun(data, out, ip, op, lit)
    ensures lit <= ip && lit < op && 32 * (op - lit - 1) <= 33 * (ip - lit)
  {
    hide Encodes;
  }

  lemma EncodingNotEmpty(s: seq<Byte>, d: seq<Byte>, cap: nat)
    requires Encodes(s, d, cap) && d != []
    ensures s != []
  {}

  lemma UniformEnd(data: seq<Byte>, slots: seq<address>, base: address, ip: nat, op: nat, lit: nat, hval: uint32)
    requires |data| >= 7 && |slots| == HSIZE && base + |data| < ADDRESS_SPACE
    requires |data| <= ip + 2 && UniformAt(data, slots, base, ip, op, lit, hval)
    ensures op + 3 <= UniformBound(|data|)
  {
    hide First, Next, Idx;
    assert (ip - 2) / 264 <= (|data| - 2) / 264;
  }

  /** Copies the last bytes as literals and closes the final run. */
  method Finish(input: array<Byte>, ghost data: seq<Byte>, inLen: nat, output: array<Byte>, outLen: nat,
                start: nat, op0: nat, lit0: nat) returns (n: nat)
    requires start <= inLen <= input.Length && inLen <= start + 2 && data == input[..inLen]
    requires op0 + 3 <= outLen < output.Length && input != output && lit0 < MAX_LIT
    requires OpenRun(data, output[..], start, op0, lit0)
    modifies output
    ensures n <= outLen && n <= op0 + 3 && 32 * n <= 33 * inLen + 32
    ensures Encodes(output[..n], data, inLen)
    ensures SameFrom(output, outLen + 1)
  {
    hide Decode;
    var ip: nat, op: nat, lit: nat := start, op0, lit0;
    while ip < inLen
      invariant start <= ip <= inLen && lit < MAX_LIT && data == input[..inLen]
      invariant (op, lit) == (op0 + ip - start, lit0 + ip - start) || (op == op0 + ip - start + 1 && lit < ip - start)
      invariant OpenRun(data, output[..], ip, op, lit)
      invariant SameFrom(output, outLen + 1)
    {
      op, lit := PutLiteral(input, data, output, ip, op, lit);
      ip := ip + 1;
    }
    n := StopRun(data, output, ip, op, lit);
    assert data[..ip] == data && output[..][..n] == output[..n];
  }

  lemma SizeBound(n: nat, inLen: nat)
    requires 32 * n <= 33 * inLen + 32
    ensures n <= inLen + inLen / 32 + 1
  {}

  /** Compresses input[..inLen] into output[..outLen + 1]. `htab` holds arbitrary addresses, `base`
      is the address of the input. Returns 0 when the output does not fit. Equal bytes always shrink to about a
      hundredth. */
  method Compress(input: array<Byte>, inLen: nat, output: array<Byte>, outLen: nat,
                  htab: array<address>, base: address) returns (n: nat)
    requires inLen <= input.Length && inLen != 1 && outLen < output.Length
    requires input != output && htab.Length == HSIZE
    requires MAX_OFF <= base && base + inLen < ADDRESS_SPACE
    modifies output, htab
    ensures n <= outLen && n <= inLen + inLen / 32 + 1
    ensures n > 0 ==> Encodes(output[..n], old(input[..inLen]), inLen)
    ensures inLen > 0 && outLen >= inLen + inLen / 32 + 5 ==> n > 0
    ensures inLen >= 7 && Uniform(old(input[..inLen])) && outLen >= UniformBound(inLen) ==> 0 < n <= UniformBound(inLen)
    ensures SameFrom(output, outLen + 1)
  {
    if inLen == 0 || outLen == 0 { return 0; }
    ghost var data := input[..inLen];
    ghost var uniform := inLen >= 7 && Uniform(data) && outLen >= UniformBound(inLen);
    var ip: nat, op: nat, lit: nat := 0, 1, 0;
    var hval := First(input[0], input[1]);
    assert output[..][..0] == [] && data[..0] == [];
    OpenRunFresh(data, output[..], 0, 0);
    if uniform { UniformStart(data, htab[..], base); }
    hide Decode, Encodes, OpenRun, Committed, Uniform, UniformAt, UniformBound, Turn, First, Next, Idx;
    while ip < inLen - 2
      invariant 0 <= ip <= inLen && op <= outLen + 1 && lit < MAX_LIT && data == input[..inLen]
      invariant op == outLen + 1 ==> lit == 0
      invariant OpenRun(data, output[..], ip, op, lit)
      invariant SameFrom(output, outLen + 1)
      invariant uniform ==> UniformAt(data, htab[..], base, ip, op, lit, hval)
      decreases inLen - ip
    {
      OpenRunSize(data, output[..], ip, op, lit);
      ghost var ip0, op0, lit0, hval0, slots0 := ip, op, lit, hval, htab[..];
      var fits;
      fits, ip, op, lit, hval := Step(input, data, output, outLen, htab, base, inLen, ip, op, lit, hval);
      if uniform {
        UniformStep(data, slots0, htab[..], base, outLen, ip0, op0, lit0, hval0, fits, ip, op, lit, hval);
      }
      if !fits { return 0; }
    }
    if uniform { UniformEnd(data, htab[..], base, ip, op, lit, hval); }
    OpenRunSize(data, output[..], ip, op, lit);
    if op + 3 > outLen { return 0; }
    n := Finish(input, data, inLen, output, outLen, ip, op, lit);
    SizeBound(n, inLen);
    EncodingNotEmpty(output[..n], data, inLen);
  }
}
