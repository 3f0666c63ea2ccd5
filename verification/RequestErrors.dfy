/** When a request is a protocol error: what the parser of networking.c makes of any line that stands where a number
    of arguments or an argument length is due. */
module RequestErrors {
  import opened Basics
  import opened Bytes
  import opened Protocol
  import opened Request

  /** The first CR of s is at i, and no zero byte comes before it. */
  ghost predicate LineEnds(s: seq<Byte>, i: nat) {
    i < |s| && s[i] == 13 && forall j :: 0 <= j < i ==> s[j] != 13 && s[j] != 0
  }

  lemma {:induction false} FindCrExactly(s: seq<Byte>, i: nat)
    ensures FindCr(s) == Some(i) <==> LineEnds(s, i)
  {
    if s != [] && s[0] != 0 && s[0] != CR && i > 0 {
      FindCrExactly(s[1..], i - 1);
      assert forall j :: 0 < j < |s| ==> s[j] == s[1..][j - 1];
      if LineEnds(s[1..], i - 1) {
        forall j | 0 <= j < i ensures s[j] != 13 && s[j] != 0 {
          if j > 0 { assert s[j] == s[1..][j - 1]; }
        }
      }
      if LineEnds(s, i) {
        forall j | 0 <= j < i - 1 ensures s[1..][j] != 13 && s[1..][j] != 0 { assert s[1..][j] == s[j + 1]; }
      }
    }
  }

  ghost predicate IsLongLong(v: int) {
    -0x8000_0000_0000_0000 <= v < 0x8000_0000_0000_0000
  }

  /** string2ll accepts exactly the shortest decimals of 64-bit numbers: no leading zero, sign or blank, no "-0". */
  lemma String2llExactly(s: seq<Byte>, v: int)
    ensures String2ll(s) == Some(v) <==> IsLongLong(v) && s == Decimal(v)
  {
    if IsLongLong(v) && s == Decimal(v) {
      DecimalParses(v);
    } else if String2ll(s).Some? {
      ParsedIsDecimal(s);
      if String2ll(s).value == v { assert false; }
    }
  }

  lemma DecimalParses(v: int)
    requires IsLongLong(v)
    ensures String2ll(Decimal(v)) == Some(v)
  {
    var n := if v < 0 then -v else v;
    if n > 0 {
      DigitsStart(n);
      DigitsAreDigits(n);
      ValueOfDigits(n, []);
      assert Digits(n) + [] == Digits(n);
      assert v < 0 ==> Decimal(v)[1..] == Digits(n);
    }
  }

  lemma ParsedIsDecimal(s: seq<Byte>)
    requires String2ll(s).Some?
    ensures IsLongLong(String2ll(s).value) && s == Decimal(String2ll(s).value)
  {
    if s != [48] {
      var d := if s[0] == 45 then s[1..] else s;
      assert d != [] && 49 <= d[0] <= 57 && AllDigits(d);
      DigitsOfValue(d);
      assert s[0] == 45 ==> s == [45] + d;
    }
  }

  /** A line that gives the number of arguments: a number of at most 2^20 is read, one of at most 0 is skipped with its
      line, and any other text closes the client. */
  lemma CountLine(p: Parser, i: nat)
    requires p.querybuf != [] && p.querybuf[0] == 42 && LineEnds(p.querybuf, i) && i + 1 < |p.querybuf|
    ensures i > 0
    ensures var ((p', pos, status), text) := (ReadCount(p), p.querybuf[1..i]);
      && (status.Failed? <==> !exists v :: IsLongLong(v) && v <= 1024 * 1024 && text == Decimal(v))
      && (status.Failed? ==> p' == p.(close := true))
      && !status.Wait?
      && (status.Complete? ==> pos == i + 2 && p' == p.(multibulklen := p'.multibulklen)
                               && 0 < p'.multibulklen && text == Decimal(p'.multibulklen))
      && (status.NoCommand? ==> p' == p.(querybuf := p.querybuf[i + 2..])
                                && exists v :: IsLongLong(v) && v <= 0 && text == Decimal(v))
  {
    FindCrExactly(p.querybuf, i);
    var text := p.querybuf[1..i];
    hide FindCr, String2ll, Decimal;
    TextParses(text);
    assert p.querybuf[0..] == p.querybuf;
  }

  lemma TextParses(text: seq<Byte>)
    ensures String2ll(text).Some? ==> IsLongLong(String2ll(text).value) && text == Decimal(String2ll(text).value)
    ensures forall v :: IsLongLong(v) && text == Decimal(v) ==> String2ll(text) == Some(v)
  {
    if String2ll(text).Some? { String2llExactly(text, String2ll(text).value); }
    forall v | IsLongLong(v) && text == Decimal(v) ensures String2ll(text) == Some(v) { String2llExactly(text, v); }
  }

  /** Before the end of the line is in the buffer the parser waits; it closes the client when 64 KB hold no end of
      line. */
  lemma CountWaits(p: Parser)
    requires p.querybuf != [] && p.querybuf[0] == 42
    requires forall i: nat :: LineEnds(p.querybuf, i) ==> i + 1 == |p.querybuf|
    ensures var (p', pos, status) := ReadCount(p);
      && status.Wait? && pos == 0
      && p' == p.(close := p.close || (|p.querybuf| > 64 * 1024 && !exists i: nat :: LineEnds(p.querybuf, i)))
  {
    var newline := FindCr(p.querybuf);
    if newline.Some? {
      FindCrExactly(p.querybuf, newline.value);
    } else {
      forall i: nat ensures !LineEnds(p.querybuf, i) { FindCrExactly(p.querybuf, i); }
    }
    hide FindCr, LineEnds;
    assert p.querybuf[0..] == p.querybuf;
  }

  /** A line where an argument's length is due, without the dollar sign. */
  lemma BulkMarker(p: Parser, pos: nat, i: nat)
    requires pos <= |p.querybuf| && LineEnds(p.querybuf[pos..], i) && pos + i + 1 < |p.querybuf|
    requires p.querybuf[pos] != 36
    ensures ReadBulkLen(p, pos) == (p.(close := true, querybuf := p.querybuf[pos..]), 0, Failed)
  {
    FindCrExactly(p.querybuf[pos..], i);
    hide FindCr, String2ll;
  }

  /** With it, a number from 0 to 2^29 is read and any other text closes the client. The buffer is trimmed before a big
      argument. */
  lemma BulkLine(p: Parser, pos: nat, i: nat)
    requires pos <= |p.querybuf| && LineEnds(p.querybuf[pos..], i) && pos + i + 1 < |p.querybuf|
    requires p.querybuf[pos] == 36
    ensures i > 0
    ensures var ((p', pos', status), text) := (ReadBulkLen(p, pos), p.querybuf[pos + 1..pos + i]);
      && (status.Failed? <==> !exists v :: 0 <= v <= 512 * 1024 * 1024 && text == Decimal(v))
      && (status.Failed? ==> p' == p.(close := true, querybuf := p.querybuf[pos..]) && pos' == 0)
      && (status.Failed? || (status.Complete? && p'.bulklen >= 0 && text == Decimal(p'.bulklen)))
      && (status.Complete? && p'.bulklen < 32 * 1024 ==> p' == p.(bulklen := p'.bulklen) && pos' == pos + i + 2)
      && (status.Complete? && p'.bulklen >= 32 * 1024 ==>
           p' == p.(bulklen := p'.bulklen, querybuf := p.querybuf[pos + i + 2..]) && pos' == 0)
  {
    FindCrExactly(p.querybuf[pos..], i);
    assert p.querybuf[pos..][0] == 36 && p.querybuf[pos..][i] == 13;
    hide *;
    BulkLenOf(p, pos, i);
    TextParses(p.querybuf[pos + 1..pos + i]);
    LongLongs();
  }

  lemma LongLongs()
    ensures forall v :: 0 <= v <= 512 * 1024 * 1024 ==> IsLongLong(v)
  {}

  lemma BulkLenOf(p: Parser, pos: nat, i: nat)
    requires pos + i + 1 < |p.querybuf| && FindCr(p.querybuf[pos..]) == Some(i) && i > 0 && p.querybuf[pos] == 36
    ensures var ll := String2ll(p.querybuf[pos + 1..pos + i]);
      ReadBulkLen(p, pos) ==
        if ll.None? || ll.value < 0 || ll.value > 512 * 1024 * 1024 then
          (p.(close := true, querybuf := p.querybuf[pos..]), 0, Failed)
        else if ll.value >= 32 * 1024 then
          (p.(querybuf := p.querybuf[pos + i + 2..], bulklen := ll.value), 0, Complete)
        else (p.(bulklen := ll.value), pos + i + 2, Complete)
  {
    hide FindCr, String2ll;
  }

  lemma BulkWaits(p: Parser, pos: nat)
    requires pos <= |p.querybuf|
    requires forall i: nat :: LineEnds(p.querybuf[pos..], i) ==> pos + i + 1 == |p.querybuf|
    ensures var (p', pos', status) := ReadBulkLen(p, pos);
      && status.Wait? && pos' == pos
      && p' == p.(close := p.close || (|p.querybuf| > 64 * 1024 && !exists i: nat :: LineEnds(p.querybuf[pos..], i)))
  {
    var rest := p.querybuf[pos..];
    var newline := FindCr(rest);
    if newline.Some? {
      FindCrExactly(rest, newline.value);
    } else {
      forall i: nat ensures !LineEnds(rest, i) { FindCrExactly(rest, i); }
    }
    hide FindCr, LineEnds;
    assert p.querybuf[0..] == p.querybuf;
  }
}
