/** Strings in the dump file of rdb.c: lengths, small integers, LZF and verbatim forms, and the loader
    that undoes them all. */
module Rdb {
  import opened Basics
  import opened Bytes
  import Lzf
  import P = Protocol

  const ENCVAL: nat := 3
  const ENC_LZF: nat := 3
  const LENERR: nat := 0xFFFF_FFFF
  const UINT32: nat := 0x1_0000_0000

  // ---------------------------------------------------------------- lengths

  /** rdbSaveLen; its argument is converted to 32 bits. */
  function SaveLen(len: nat): (s: seq<Byte>)
    ensures 1 <= |s| <= 5
  {
    var l := len % UINT32;
    if l < 64 then [l]
    else if l < 16384 then [l / 256 + 64, l % 256]
    else [128, l / 0x100_0000, l / 0x1_0000 % 256, l / 256 % 256, l % 256]
  }

  /** What rdbLoadLen returns, and the rest of the stream. */
  datatype LoadedLen = LoadedLen(encoded: bool, len: nat, rest: seq<Byte>)

  const LenError: LoadedLen := LoadedLen(false, LENERR, [])

  function LoadLen(s: seq<Byte>): (r: LoadedLen)
    ensures r.len <= LENERR
  {
    if s == [] then LenError
    else
      var kind, low := s[0] / 64, s[0] % 64;
      if kind == ENCVAL then LoadedLen(true, low, s[1..])
      else if kind == 0 then LoadedLen(false, low, s[1..])
      else if kind == 1 then if |s| < 2 then LenError else LoadedLen(false, FromBytes(s[1], low, 0, 0), s[2..])
      else if |s| < 5 then LenError
      else LoadedLen(false, FromBytes(s[4], s[3], s[2], s[1]), s[5..])
  }

  /** The number whose bytes, least significant first, are a, b, c and d. */
  function FromBytes(a: nat, b: nat, c: nat, d: nat): nat {
    a + 256 * b + 0x1_0000 * c + 0x100_0000 * d
  }

  lemma Shifts(v: int)
    ensures v / 0x1_0000 == v / 256 / 256
    ensures v / 0x100_0000 == v / 0x1_0000 / 256
  {}

  lemma FourBytes(v: int)
    ensures v == v % 256 + 256 * (v / 256 % 256) + 0x1_0000 * (v / 0x1_0000 % 256) + 0x100_0000 * (v / 0x100_0000)
  {
    Shifts(v);
    assert v == 256 * (v / 256) + v % 256;
    assert v / 256 == 256 * (v / 0x1_0000) + v / 256 % 256;
    assert v / 0x1_0000 == 256 * (v / 0x100_0000) + v / 0x1_0000 % 256;
  }

  /** Loading a saved length gives it back and consumes exactly its bytes. */
  lemma LenRoundTrip(len: nat, rest: seq<Byte>)
    requires len < UINT32
    ensures LoadLen(SaveLen(len) + rest) == LoadedLen(false, len, rest)
  {
    var s := SaveLen(len) + rest;
    assert len % UINT32 == len;
    assert s[|SaveLen(len)|..] == rest;
    FourBytes(len);
  }

  // ---------------------------------------------------------------- integers

  /** rdbEncodeInteger; empty when the value does not fit 32 bits. */
  function EncodeInteger(v: int): (s: seq<Byte>)
    ensures s == [] || 2 <= |s| <= 5
  {
    if -0x80 <= v < 0x80 then [192, v % 256]
    else if -0x8000 <= v < 0x8000 then [193, v % 256, v / 256 % 256]
    else if -0x8000_0000 <= v < 0x8000_0000 then [194, v % 256, v / 256 % 256, v / 0x1_0000 % 256, v / 0x100_0000 % 256]
    else []
  }

  function Signed(u: nat, size: nat): int {
    if u < size / 2 then u else u - size
  }

  datatype LoadResult = Loaded(str: seq<Byte>, rest: seq<Byte>) | Failed | Panicked

  /** rdbLoadIntegerObject, as the string the object stands for. */
  function LoadInteger(enctype: nat, s: seq<Byte>): LoadResult {
    if enctype == 0 then
      if |s| < 1 then Failed else Loaded(P.Decimal(Signed(s[0], 0x100)), s[1..])
    else if enctype == 1 then
      if |s| < 2 then Failed else Loaded(P.Decimal(Signed(FromBytes(s[0], s[1], 0, 0), 0x1_0000)), s[2..])
    else if enctype == 2 then
      if |s| < 4 then Failed
      else Loaded(P.Decimal(Signed(FromBytes(s[0], s[1], s[2], s[3]), UINT32)), s[4..])
    else Panicked
  }

  lemma SignedBytes(v: int)
    ensures -0x80 <= v < 0x80 ==> Signed(v % 256, 0x100) == v
    ensures -0x8000 <= v < 0x8000 ==> Signed(FromBytes(v % 256, v / 256 % 256, 0, 0), 0x1_0000) == v
  {
    var top := v / 256;
    assert v == 256 * top + v % 256;
    assert -0x8000 <= v < 0x8000 ==> -128 <= top < 128 && (top < 0 <==> v < 0);
    assert -128 <= top < 128 ==> top % 256 == if top < 0 then top + 256 else top;
  }

  lemma SignedFourBytes(v: int)
    requires -0x8000_0000 <= v < 0x8000_0000
    ensures Signed(FromBytes(v % 256, v / 256 % 256, v / 0x1_0000 % 256, v / 0x100_0000 % 256), UINT32) == v
  {
    FourBytes(v);
    var top := v / 0x100_0000;
    assert -128 <= top < 128 && (top < 0 <==> v < 0);
    assert top % 256 == if top < 0 then top + 256 else top;
  }

  /** rdbTryIntegerEncoding, for any parser of integers: None is a string it does not read to its end. */
  function TryIntegerEncoding(parse: seq<Byte> -> Option<int>, s: seq<Byte>): seq<Byte> {
    var value := parse(s);
    if value.None? || P.Decimal(value.value) != s then [] else EncodeInteger(value.value)
  }

  // ---------------------------------------------------------------- strings

  function Zeros(n: nat): seq<Byte> {
    seq(n, _ => 0)
  }

  /** rdbLoadLzfStringObject */
  function LoadLzf(s: seq<Byte>): LoadResult {
    var clen := LoadLen(s);
    if clen.len == LENERR then Failed
    else
      var len := LoadLen(clen.rest);
      if len.len == LENERR then Failed else LoadCompressed(clen.len, len.len, len.rest)
  }

  /** The string is allocated with the announced length, filled with zeros, before it is decompressed. */
  function LoadCompressed(clen: nat, len: nat, s: seq<Byte>): LoadResult {
    if |s| < clen || clen == 0 then Failed
    else
      var d := Lzf.Decode(s[..clen], [], len);
      if !d.Ok? || |d.data| > len then Failed else Loaded(d.data + Zeros(len - |d.data|), s[clen..])
  }

  /** rdbGenericLoadStringObject */
  function LoadString(s: seq<Byte>): LoadResult {
    var len := LoadLen(s);
    if len.encoded then
      if len.len == ENC_LZF then LoadLzf(len.rest) else LoadInteger(len.len, len.rest)
    else if len.len == LENERR then Failed
    else if |len.rest| < len.len then Failed
    else Loaded(len.rest[..len.len], len.rest[len.len..])
  }

  function LzfForm(c: seq<Byte>, len: nat): seq<Byte> {
    [192 + ENC_LZF] + SaveLen(|c|) + SaveLen(len) + c
  }

  /** The byte strings rdbSaveRawString may write for s: a short string that is an integer in that form, any
      other verbatim or, when it is longer than 20 bytes and compression is on, compressed to at least four bytes
      less. Equal bytes are not written verbatim then. */
  ghost predicate SavedAs(s: seq<Byte>, compression: bool, parse: seq<Byte> -> Option<int>, w: seq<Byte>) {
    if |s| <= 11 && TryIntegerEncoding(parse, s) != [] then w == TryIntegerEncoding(parse, s)
    else
      || (w == SaveLen(|s|) + s && !(compression && |s| > 20 && Lzf.Uniform(s)))
      || (compression && |s| > 20 && exists c :: Compressed(s, c) && w == LzfForm(c, |s|))
  }

  ghost predicate Compressed(s: seq<Byte>, c: seq<Byte>) {
    && 0 < |c| <= |s| - 4 && Lzf.Encodes(c, s, |s|)
    && (|s| >= 7 && Lzf.Uniform(s) ==> |c| <= Lzf.UniformBound(|s|))
  }

  lemma IntegerLoads(v: int, rest: seq<Byte>)
    requires EncodeInteger(v) != []
    ensures LoadString(EncodeInteger(v) + rest) == Loaded(P.Decimal(v), rest)
  {
    var w := EncodeInteger(v) + rest;
    SignedBytes(v);
    if !(-0x8000 <= v < 0x8000) { SignedFourBytes(v); }
    hide P.Decimal, Signed;
    assert w[1..][|EncodeInteger(v)| - 1..] == rest;
  }

  lemma VerbatimLoads(s: seq<Byte>, rest: seq<Byte>)
    requires |s| < LENERR
    ensures LoadString(SaveLen(|s|) + s + rest) == Loaded(s, rest)
  {
    assert SaveLen(|s|) + s + rest == SaveLen(|s|) + (s + rest);
    LenRoundTrip(|s|, s + rest);
    hide LoadLen, SaveLen;
  }

  lemma CompressedLoads(c: seq<Byte>, s: seq<Byte>, rest: seq<Byte>)
    requires 0 < |c| && Lzf.Encodes(c, s, |s|)
    ensures LoadCompressed(|c|, |s|, c + rest) == Loaded(s, rest)
  {
    assert (c + rest)[..|c|] == c && (c + rest)[|c|..] == rest;
    assert s + Zeros(0) == s;
    hide Lzf.Decode;
  }

  lemma LzfSlices(c: seq<Byte>, n: seq<Byte>, m: seq<Byte>, rest: seq<Byte>)
    ensures [192 + ENC_LZF] + n + m + c + rest == [195] + (n + (m + (c + rest)))
  {}

  lemma EncodedLzf(tail: seq<Byte>)
    ensures LoadString([195] + tail) == LoadLzf(tail)
  {
    assert ([195] + tail)[1..] == tail;
    hide LoadLzf;
  }

  lemma LzfLoads(c: seq<Byte>, s: seq<Byte>, rest: seq<Byte>)
    requires 0 < |c| < LENERR && |s| < LENERR && Lzf.Encodes(c, s, |s|)
    ensures LoadString(LzfForm(c, |s|) + rest) == Loaded(s, rest)
  {
    var n, m := SaveLen(|c|), SaveLen(|s|);
    assert LzfForm(c, |s|) == [192 + ENC_LZF] + n + m + c;
    hide LoadLen, SaveLen, LoadString, Lzf.Decode, Lzf.Encodes, LoadCompressed, LzfForm;
    LzfSlices(c, n, m, rest);
    EncodedLzf(n + (m + (c + rest)));
    LenRoundTrip(|c|, m + (c + rest));
    LenRoundTrip(|s|, c + rest);
    CompressedLoads(c, s, rest);
  }

  lemma {:induction false} DigitsShort(n: nat)
    requires n <= 0x8000_0000
    ensures |P.Digits(n)| <= 10
  {
    assert P.Pow10(10) == 10_000_000_000 by { assert P.Pow10(5) == 100_000; }
    P.DigitsLength(n, 10);
  }

  /** The loader never returns a string of 2^32 - 1 bytes or more. */
  lemma LoadedIsShort(w: seq<Byte>)
    ensures LoadString(w).Loaded? ==> |LoadString(w).str| < LENERR
  {
    var len := LoadLen(w);
    if len.encoded && len.len != ENC_LZF && LoadInteger(len.len, len.rest).Loaded? {
      forall v | -0x8000_0000 <= v < 0x8000_0000 ensures |P.Decimal(v)| <= 11 {
        DigitsShort(if v < 0 then -v else v);
      }
      hide P.Decimal;
    }
  }

  /** Every saved string is loaded back byte for byte, whatever follows it in the file, exactly when it
      is shorter than 2^32 - 1 bytes. */
  lemma SavedStringLoads(s: seq<Byte>, compression: bool, parse: seq<Byte> -> Option<int>, w: seq<Byte>,
                         rest: seq<Byte>)
    requires SavedAs(s, compression, parse, w)
    ensures LoadString(w + rest) == Loaded(s, rest) <==> |s| < LENERR
  {
    LoadedIsShort(w + rest);
    hide LoadString, SaveLen, EncodeInteger, P.Decimal, LzfForm, Lzf.Encodes;
    if |s| < LENERR {
      if |s| <= 11 && TryIntegerEncoding(parse, s) != [] {
        IntegerLoads(parse(s).value, rest);
      } else if w == SaveLen(|s|) + s {
        VerbatimLoads(s, rest);
      } else {
        var c :| Compressed(s, c) && w == LzfForm(c, |s|);
        LzfLoads(c, s, rest);
      }
    }
  }

  lemma LenStable(s: seq<Byte>, t: seq<Byte>)
    requires LoadLen(s).len != LENERR
    ensures LoadLen(s + t) == LoadLen(s).(rest := LoadLen(s).rest + t)
  {
    hide FromBytes;
    assert s != [] && (s + t)[0] == s[0] && (s + t)[1..] == s[1..] + t;
    if |s| >= 2 { assert (s + t)[1] == s[1] && (s + t)[2..] == s[2..] + t; }
    if |s| >= 5 {
      assert (s + t)[2] == s[2] && (s + t)[3] == s[3] && (s + t)[4] == s[4] && (s + t)[5..] == s[5..] + t;
    }
  }

  lemma IntegerStable(enctype: nat, s: seq<Byte>, t: seq<Byte>)
    requires LoadInteger(enctype, s).Loaded?
    ensures LoadInteger(enctype, s + t) == LoadInteger(enctype, s).(rest := LoadInteger(enctype, s).rest + t)
  {
    hide P.Decimal, Signed;
  }

  lemma CompressedStable(clen: nat, len: nat, s: seq<Byte>, t: seq<Byte>)
    requires LoadCompressed(clen, len, s).Loaded?
    ensures LoadCompressed(clen, len, s + t)
         == LoadCompressed(clen, len, s).(rest := LoadCompressed(clen, len, s).rest + t)
  {
    assert (s + t)[..clen] == s[..clen] && (s + t)[clen..] == s[clen..] + t;
    hide Lzf.Decode;
  }

  /** More bytes after a string that loads are left where they are. */
  lemma StringStable(s: seq<Byte>, t: seq<Byte>)
    requires LoadString(s).Loaded?
    ensures LoadString(s + t) == LoadString(s).(rest := LoadString(s).rest + t)
  {
    var len := LoadLen(s);
    if len.len != LENERR {
      LenStable(s, t);
      if len.encoded && len.len == ENC_LZF {
        LzfStable(len.rest, t);
      } else if len.encoded {
        IntegerStable(len.len, len.rest, t);
      }
    }
    hide LoadLen, LoadLzf, LoadInteger;
  }

  lemma LzfStable(s: seq<Byte>, t: seq<Byte>)
    requires LoadLzf(s).Loaded?
    ensures LoadLzf(s + t) == LoadLzf(s).(rest := LoadLzf(s).rest + t)
  {
    hide LoadLen, LoadCompressed;
    var clen := LoadLen(s);
    LenStable(s, t);
    var len := LoadLen(clen.rest);
    LenStable(clen.rest, t);
    CompressedStable(clen.len, len.len, len.rest, t);
  }

  /** A saved string that is cut off anywhere does not load. */
  lemma CutStringFails(s: seq<Byte>, compression: bool, parse: seq<Byte> -> Option<int>, w: seq<Byte>, n: nat)
    requires SavedAs(s, compression, parse, w) && |s| < LENERR && n < |w|
    ensures !LoadString(w[..n]).Loaded?
  {
    hide LoadString, SavedAs;
    SavedStringLoads(s, compression, parse, w, []);
    assert w + [] == w == w[..n] + w[n..];
    if LoadString(w[..n]).Loaded? { StringStable(w[..n], w[n..]); }
  }

  /** A string of 2^32 - 1 bytes is saved and not loaded. */
  lemma LongestIsLost(parse: seq<Byte> -> Option<int>, rest: seq<Byte>)
    ensures var s := Zeros(LENERR); var w := SaveLen(|s|) + s;
      SavedAs(s, false, parse, w) && LoadString(w + rest) != Loaded(s, rest)
  {
    var s := Zeros(LENERR);
    hide LoadString, SaveLen;
    SavedStringLoads(s, false, parse, SaveLen(|s|) + s, rest);
  }

  /** The forms byte by byte: 00xxxxxx, 01xxxxxx yyyyyyyy and 10000000 with four bytes for lengths, most significant
      first, and 11xxxxxx for integers of one, two and four bytes, least significant first. */
  lemma KnownForms()
    ensures SaveLen(10) == [0x0A] && SaveLen(700) == [0x42, 0xBC] && SaveLen(0x01020304) == [0x80, 1, 2, 3, 4]
    ensures EncodeInteger(-2) == [0xC0, 0xFE] && EncodeInteger(1000) == [0xC1, 0xE8, 0x03]
    ensures EncodeInteger(0x01020304) == [0xC2, 4, 3, 2, 1] && LzfForm([7], 1) == [0xC3, 1, 1, 7]
  {}

  /** The smallest of the three integer forms is used. */
  lemma IntegerSize(v: int)
    ensures |EncodeInteger(v)| == if -0x80 <= v < 0x80 then 2 else if -0x8000 <= v < 0x8000 then 3
      else if -0x8000_0000 <= v < 0x8000_0000 then 5 else 0
  {}

  /** With a parser that reads decimals, a 32-bit integer takes at most five bytes. */
  lemma IntegersAreShort(parse: seq<Byte> -> Option<int>, v: int)
    requires parse(P.Decimal(v)) == Some(v)
    ensures TryIntegerEncoding(parse, P.Decimal(v)) != [] <==> -0x8000_0000 <= v < 0x8000_0000
    ensures |TryIntegerEncoding(parse, P.Decimal(v))| <= 5
  {}
}
