/** The string part of rdb.c in its own form: writing to and reading from a stream. Every save writes one
    of the forms of Rdb.SavedAs, as far as the disk takes it; every load is Rdb.LoadString on what is left to read. */
module RdbStream {
  import opened Basics
  import opened Bytes
  import Lzf
  import opened Rdb
  import P = Protocol

  /** After an attempt to write w where the disk takes `limit` bytes in all: everything is written and its length
      returned, or what fits and -1. */
  ghost predicate Wrote(limit: nat, out: seq<Byte>, out': seq<Byte>, w: seq<Byte>, n: int) {
    if |out| + |w| <= limit then out' == out + w && n == |w|
    else |out| <= limit && out' == (out + w)[..limit] && n == -1
  }

  /** One of several writes, after `done` was written: if it is cut short, that is how the whole is cut short. */
  lemma WroteMore(limit: nat, out: seq<Byte>, out': seq<Byte>, done: seq<Byte>, more: seq<Byte>, n: int,
                  whole: seq<Byte>)
    requires |out| <= limit && done + more <= whole && Wrote(limit, out + done, out', more, n)
    ensures |out'| <= limit && (n == -1 ==> Wrote(limit, out, out', whole, -1))
    ensures n != -1 ==> n == |more| && out' == out + (done + more)
  {
    if n == -1 {
      assert out + done + more == out + (done + more) <= out + whole;
    }
  }

  /** A stream: what was written, how much the disk takes in all, what is left to read. */
  class Rio {
    var out: seq<Byte>
    const limit: nat
    var input: seq<Byte>

    constructor (limit: nat, input: seq<Byte>)
      ensures this.out == [] && this.limit == limit && this.input == input
    {
      out, this.limit, this.input := [], limit, input;
    }

    /** rdbWriteRaw: the number of bytes, or -1 when the write is cut short. */
    method WriteRaw(p: seq<Byte>) returns (n: int)
      requires |out| <= limit
      modifies this`out
      ensures |out| <= limit && Wrote(limit, old(out), out, p, n)
    {
      if |out| + |p| > limit {
        out := (out + p)[..limit];
        return -1;
      }
      out := out + p;
      return |p|;
    }

    /** rioRead; a read past the end leaves nothing. */
    method Read(n: nat) returns (buf: seq<Byte>, ok: bool)
      modifies this`input
      ensures ok == (n <= |old(input)|)
      ensures ok ==> buf == old(input)[..n] && input == old(input)[n..]
      ensures !ok ==> input == []
    {
      if n > |input| {
        input := [];
        return [], false;
      }
      buf, input := input[..n], input[n..];
      return buf, true;
    }
  }

  /** rdbSaveLen */
  method WriteLen(rio: Rio, len: nat) returns (n: int)
    requires |rio.out| <= rio.limit
    modifies rio`out
    ensures |rio.out| <= rio.limit && Wrote(rio.limit, old(rio.out), rio.out, SaveLen(len), n)
  {
    ghost var out0 := rio.out;
    var l := len % UINT32;
    if l < 64 {
      n := rio.WriteRaw([l]);
    } else if l < 16384 {
      n := rio.WriteRaw([l / 256 + 64, l % 256]);
    } else {
      n := rio.WriteRaw([128]);
      WroteMore(rio.limit, out0, rio.out, [], [128], n, SaveLen(len));
      if n == -1 { return; }
      n := rio.WriteRaw([l / 0x100_0000, l / 0x1_0000 % 256, l / 256 % 256, l % 256]);
      WroteMore(rio.limit, out0, rio.out, [128], SaveLen(len)[1..], n, SaveLen(len));
      if n == -1 { return; }
      n := n + 1;
    }
  }

  /** rdbLoadLen */
  method ReadLen(rio: Rio) returns (len: nat, isencoded: bool)
    modifies rio`input
    ensures LoadedLen(isencoded, len, rio.input) == LoadLen(old(rio.input))
  {
    isencoded := false;
    var buf, ok := rio.Read(1);
    if !ok { return LENERR, false; }
    var kind, low := buf[0] / 64, buf[0] % 64;
    if kind == ENCVAL { return low, true; }
    if kind == 0 { return low, false; }
    if kind == 1 {
      buf, ok := rio.Read(1);
      if !ok { return LENERR, false; }
      return FromBytes(buf[0], low, 0, 0), false;
    }
    buf, ok := rio.Read(4);
    if !ok { return LENERR, false; }
    return FromBytes(buf[3], buf[2], buf[1], buf[0]), false;
  }

  /** rdbSaveLzfStringObject: 0 when the string is not worth compressing. The compressor's table starts with
      whatever is in memory; long strings of equal bytes are compressed all the same. */
  method SaveLzf(rio: Rio, s: array<Byte>, htab: array<Lzf.address>, base: Lzf.address)
    returns (n: int, ghost c: seq<Byte>)
    requires s.Length < UINT32 && htab.Length == Lzf.HSIZE && |rio.out| <= rio.limit
    requires Lzf.MAX_OFF <= base && base + s.Length < Lzf.ADDRESS_SPACE
    modifies rio`out, htab
    ensures n >= -1 && (n == 0 ==> rio.out == old(rio.out))
    ensures n != 0 ==> Compressed(s[..], c) && Wrote(rio.limit, old(rio.out), rio.out, LzfForm(c, s.Length), n)
    ensures s.Length > 20 && Lzf.Uniform(s[..]) ==> n != 0
  {
    var len := s.Length;
    if len <= 4 { return 0, []; }
    var outlen := len - 4;
    var out := new Byte[outlen + 1](_ => 0);
    var comprlen := Lzf.Compress(s, len, out, outlen, htab, base);
    if comprlen == 0 { return 0, []; }
    assert s[..len] == s[..];
    hide SaveLen, Lzf.Encodes, Wrote;
    c := out[..comprlen];
    n := WriteLzf(rio, out[..comprlen], len);
  }

  /** The writes of rdbSaveLzfStringObject, -1 as soon as one fails. */
  method WriteLzf(rio: Rio, c: seq<Byte>, len: nat) returns (nwritten: int)
    requires |rio.out| <= rio.limit
    modifies rio`out
    ensures nwritten >= -1 && nwritten != 0 && Wrote(rio.limit, old(rio.out), rio.out, LzfForm(c, len), nwritten)
  {
    ghost var out0, whole := rio.out, LzfForm(c, len);
    ghost var head, clen, ulen := [192 + ENC_LZF], SaveLen(|c|), SaveLen(len);
    hide SaveLen, Wrote;
    var n := rio.WriteRaw([192 + ENC_LZF]);
    WroteMore(rio.limit, out0, rio.out, [], head, n, whole);
    if n == -1 { return -1; }
    nwritten := n;
    n := WriteLen(rio, |c|);
    WroteMore(rio.limit, out0, rio.out, head, clen, n, whole);
    if n == -1 { return -1; }
    nwritten := nwritten + n;
    n := WriteLen(rio, len);
    WroteMore(rio.limit, out0, rio.out, head + clen, ulen, n, whole);
    if n == -1 { return -1; }
    nwritten := nwritten + n;
    n := rio.WriteRaw(c);
    WroteMore(rio.limit, out0, rio.out, head + clen + ulen, c, n, whole);
    if n == -1 { return -1; }
    nwritten := nwritten + n;
    WroteAll(rio.limit, out0, whole);
  }

  lemma WroteAll(limit: nat, out: seq<Byte>, w: seq<Byte>)
    requires |out + w| <= limit
    ensures Wrote(limit, out, out + w, w, |w|)
  {}

  /** rdbSaveRawString: one of the saved forms of s is appended and its length returned, or writing it fails. */
  method SaveRawString(rio: Rio, s: array<Byte>, compression: bool, parse: seq<Byte> -> Option<int>,
                       htab: array<Lzf.address>, base: Lzf.address) returns (n: int)
    requires s.Length < UINT32 && htab.Length == Lzf.HSIZE && |rio.out| <= rio.limit
    requires Lzf.MAX_OFF <= base && base + s.Length < Lzf.ADDRESS_SPACE
    modifies rio`out, htab
    ensures exists w :: SavedAs(s[..], compression, parse, w) && Wrote(rio.limit, old(rio.out), rio.out, w, n)
  {
    hide LzfForm, SaveLen, Wrote, Lzf.Encodes;
    if s.Length <= 11 {
      var enc := TryIntegerEncoding(parse, s[..]);
      if |enc| > 0 {
        assert SavedAs(s[..], compression, parse, enc);
        n := rio.WriteRaw(enc);
        return;
      }
    }
    if compression && s.Length > 20 {
      ghost var c;
      n, c := SaveLzf(rio, s, htab, base);
      if n == -1 || n > 0 {
        assert SavedAs(s[..], compression, parse, LzfForm(c, s.Length));
        return;
      }
    }
    assert SavedAs(s[..], compression, parse, SaveLen(s.Length) + s[..]);
    n := WriteVerbatim(rio, s[..]);
  }

  /** Store verbatim */
  method WriteVerbatim(rio: Rio, s: seq<Byte>) returns (nwritten: int)
    requires |rio.out| <= rio.limit
    modifies rio`out
    ensures Wrote(rio.limit, old(rio.out), rio.out, SaveLen(|s|) + s, nwritten)
  {
    ghost var out0, whole := rio.out, SaveLen(|s|) + s;
    hide SaveLen, Wrote;
    var n := WriteLen(rio, |s|);
    WroteMore(rio.limit, out0, rio.out, [], SaveLen(|s|), n, whole);
    if n == -1 { return -1; }
    nwritten := n;
    if |s| > 0 {
      n := rio.WriteRaw(s);
      WroteMore(rio.limit, out0, rio.out, SaveLen(|s|), s, n, whole);
      if n == -1 { return -1; }
      nwritten := nwritten + |s|;
    }
    WroteAll(rio.limit, out0, whole);
  }

  /** rdbLoadIntegerObject */
  method ReadInteger(rio: Rio, enctype: nat) returns (r: LoadResult)
    modifies rio`input
    ensures r == LoadInteger(enctype, old(rio.input)) && (r.Loaded? ==> rio.input == r.rest)
  {
    hide P.Decimal, Signed;
    var enc, ok;
    if enctype == 0 {
      enc, ok := rio.Read(1);
      if !ok { return Failed; }
      return Loaded(P.Decimal(Signed(enc[0], 0x100)), rio.input);
    } else if enctype == 1 {
      enc, ok := rio.Read(2);
      if !ok { return Failed; }
      return Loaded(P.Decimal(Signed(FromBytes(enc[0], enc[1], 0, 0), 0x1_0000)), rio.input);
    } else if enctype == 2 {
      enc, ok := rio.Read(4);
      if !ok { return Failed; }
      return Loaded(P.Decimal(Signed(FromBytes(enc[0], enc[1], enc[2], enc[3]), UINT32)), rio.input);
    }
    return Panicked;
  }

  /** rdbLoadLzfStringObject */
  method ReadLzf(rio: Rio) returns (r: LoadResult)
    modifies rio`input
    ensures r == LoadLzf(old(rio.input)) && (r.Loaded? ==> rio.input == r.rest)
  {
    hide LoadLen, LoadCompressed;
    var clen, _ := ReadLen(rio);
    if clen == LENERR { return Failed; }
    var len, _ := ReadLen(rio);
    if len == LENERR { return Failed; }
    r := ReadCompressed(rio, clen, len);
  }

  method ReadCompressed(rio: Rio, clen: nat, len: nat) returns (r: LoadResult)
    modifies rio`input
    ensures r == LoadCompressed(clen, len, old(rio.input)) && (r.Loaded? ==> rio.input == r.rest)
  {
    hide Lzf.Decode;
    var c, ok := rio.Read(clen);
    if !ok || clen == 0 { return Failed; }
    var input := new Byte[clen](i requires 0 <= i < clen => c[i]);
    var val := new Byte[len](_ => 0);
    assert input[..clen] == c;
    var n, result := Lzf.Decompress(input, clen, val, len);
    if n == 0 { return Failed; }
    assert val[..] == result.data + Zeros(len - n);
    return Loaded(val[..], rio.input);
  }

  /** rdbGenericLoadStringObject */
  method LoadStringObject(rio: Rio) returns (r: LoadResult)
    modifies rio`input
    ensures r == LoadString(old(rio.input)) && (r.Loaded? ==> rio.input == r.rest)
  {
    hide LoadLen, LoadInteger, LoadLzf;
    var len, isencoded := ReadLen(rio);
    if isencoded {
      if len == ENC_LZF { r := ReadLzf(rio); } else { r := ReadInteger(rio, len); }
      return;
    }
    if len == LENERR { return Failed; }
    var val, ok := rio.Read(len);
    if !ok { return Failed; }
    return Loaded(val, rio.input);
  }
}
