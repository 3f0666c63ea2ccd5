/** The resumable multi-bulk request parser of networking.c: what is in the query buffer at any moment, and
    why no cut of the stream into reads changes the commands that come out. */
module Request {
  import opened Basics
  import opened Bytes
  import opened Protocol

  const INLINE_MAX: nat := 64 * 1024
  const BIG_ARG: nat := 32 * 1024
  const IOBUF_LEN: nat := 16 * 1024
  const MAX_ARGS: nat := 1024 * 1024
  const MAX_BULK: nat := 512 * 1024 * 1024

  /** strchr(s, '\r'): a zero byte ends the search. */
  function FindCr(s: seq<Byte>): (r: Option<nat>)
    ensures r.Some? ==> r.value < |s| && s[r.value] == CR
  {
    if s == [] || s[0] == 0 then None
    else if s[0] == CR then Some(0)
    else
      var r := FindCr(s[1..]);
      if r.None? then None else Some(r.value + 1)
  }

  predicate AllDigits(s: seq<Byte>) {
    forall i :: 0 <= i < |s| ==> IsDigit(s[i])
  }

  /** string2ll: a decimal without leading zeros that fits 64 bits. */
  function String2ll(s: seq<Byte>): Option<int> {
    if s == [] then None
    else if s == [48] then Some(0)
    else
      var negative := s[0] == 45;
      var d := if negative then s[1..] else s;
      if d == [] || !(49 <= d[0] <= 57) || !AllDigits(d) then None
      else
        var v: int := ReadNumber(d, 0);
        if negative then if v <= LONG_MAX + 1 then Some(-v) else None
        else if v <= LONG_MAX then Some(v) else None
  }

  // ---------------------------------------------------------------- headers

  lemma {:induction false} DigitsStart(n: nat)
    requires n > 0
    ensures 49 <= Digits(n)[0] <= 57
  {
    if n >= 10 { DigitsStart(n / 10); }
  }

  lemma DigitsParse(n: nat)
    requires n <= LONG_MAX
    ensures String2ll(Digits(n)) == Some(n)
  {
    if n > 0 {
      DigitsStart(n);
      DigitsAreDigits(n);
      ValueOfDigits(n, []);
      assert Digits(n) + [] == Digits(n);
    }
  }

  lemma {:induction false} FindCrSkips(a: seq<Byte>, b: seq<Byte>)
    requires forall i :: 0 <= i < |a| ==> a[i] != 0 && a[i] != CR
    ensures FindCr(a + b) == if FindCr(b).None? then None else Some(|a| + FindCr(b).value)
  {
    if a == [] {
      assert a + b == b;
    } else {
      assert (a + b)[1..] == a[1..] + b;
      FindCrSkips(a[1..], b);
    }
  }

  /** The text before the end of line of a header. */
  function HeaderText(marker: Byte, n: nat): seq<Byte> {
    [marker] + Digits(n)
  }

  lemma TextBytes(marker: Byte, n: nat)
    requires marker in {STAR, DOLLAR} && n <= LONG_MAX
    ensures var text := HeaderText(marker, n);
      && |text| <= 20 && text[0] == marker && text[1..] == Digits(n) && Header(marker, n) == text + [CR, LF]
      && forall i :: 0 <= i < |text| ==> text[i] != 0 && text[i] != CR
  {
    ShortDigits(n);
    DigitsAreDigits(n);
  }

  /** A buffer that goes past the text of a header. */
  lemma HeaderReached(text: seq<Byte>, after: seq<Byte>, rest: seq<Byte>, t: seq<Byte>)
    requires after + rest == [CR, LF] + t && after != [] && text != []
    requires forall i :: 0 <= i < |text| ==> text[i] != 0 && text[i] != CR
    ensures FindCr(text + after) == Some(|text|)
    ensures (text + after)[0] == text[0] && (text + after)[1..|text|] == text[1..]
    ensures |after| >= 2 ==> (text + after)[|text| + 2..] + rest == t
  {
    assert after[0] == (after + rest)[0] == ([CR, LF] + t)[0];
    hide FindCr;
    FindCrSkips(text, after);
    FindCrHere(after);
    FrontOfAppend(text, after);
    if |after| >= 2 {
      CutAfter(after, rest, [CR, LF], t);
      DropIntoAppend(text, after, 2);
    }
  }

  lemma DropIntoAppend<T>(a: seq<T>, b: seq<T>, n: nat)
    requires n <= |b|
    ensures (a + b)[|a| + n..] == b[n..]
  {}

  lemma FrontOfAppend<T>(a: seq<T>, b: seq<T>)
    requires |a| > 0
    ensures (a + b)[0] == a[0] && (a + b)[1..|a|] == a[1..]
  {}

  lemma FindCrHere(s: seq<Byte>)
    requires s != [] && s[0] == CR
    ensures FindCr(s) == Some(0)
  {}

  lemma HeaderNotReached(text: seq<Byte>, buf: seq<Byte>, rest: seq<Byte>, t: seq<Byte>)
    requires buf + rest == text + [CR, LF] + t && |buf| <= |text|
    requires forall i :: 0 <= i < |text| ==> text[i] != 0 && text[i] != CR
    ensures FindCr(buf) == None
  {
    assert text + [CR, LF] + t == text + ([CR, LF] + t);
    ShortPrefix(buf, rest, text, [CR, LF] + t);
    FindCrSkips(buf, []);
    assert buf + [] == buf;
  }

  /** A buffer at the start of a header: the search for the end of the line finds it as soon as it is there,
      and the number on the line is the printed one. */
  lemma HeaderInBuffer(marker: Byte, n: nat, buf: seq<Byte>, rest: seq<Byte>, t: seq<Byte>)
    requires marker in {STAR, DOLLAR} && n <= LONG_MAX && buf + rest == Header(marker, n) + t
    ensures var h := |HeaderText(marker, n)|;
      && 0 < h <= 20
      && FindCr(buf) == (if |buf| > h then Some(h) else None)
      && (|buf| > h ==> buf[0] == marker && String2ll(buf[1..h]) == Some(n))
      && (|buf| >= h + 2 ==> buf[h + 2..] + rest == t)
      && (|buf| < h + 2 ==> rest != [])
  {
    var text := HeaderText(marker, n);
    TextBytes(marker, n);
    DigitsParse(n);
    hide FindCr, String2ll, Header, HeaderText, Digits;
    if |buf| > |text| {
      Assoc(text, [CR, LF], t);
      PrefixOf(buf, rest, text, [CR, LF] + t);
      CutAfter(buf, rest, text, [CR, LF] + t);
      HeaderReached(text, buf[|text|..], rest, t);
    } else {
      HeaderNotReached(text, buf, rest, t);
    }
    if rest == [] { assert |buf| == |text| + 2 + |t|; }
  }

  lemma PrefixOf<T>(a: seq<T>, b: seq<T>, c: seq<T>, d: seq<T>)
    requires a + b == c + d && |a| >= |c|
    ensures a == c + a[|c|..]
  {
    assert (a + b)[..|c|] == a[..|c|] && (c + d)[..|c|] == c;
  }

  lemma ShortPrefix<T>(a: seq<T>, b: seq<T>, c: seq<T>, d: seq<T>)
    requires a + b == c + d && |a| <= |c|
    ensures a == c[..|a|]
  {
    assert (a + b)[..|a|] == a && (c + d)[..|a|] == c[..|a|];
  }

  lemma CutAfter<T>(a: seq<T>, b: seq<T>, c: seq<T>, d: seq<T>)
    requires a + b == c + d && |a| >= |c|
    ensures a[|c|..] + b == d
  {
    assert (a + b)[|c|..] == a[|c|..] + b && (c + d)[|c|..] == d;
  }

  // ---------------------------------------------------------------- the parser

  datatype ReqType = Unknown | Inline | Multibulk

  /** The fields of redisClient the parser uses. bulklen is -1 when no argument length is known; `executed`
      are the commands handed to processCommand so far. */
  datatype Parser = Parser(querybuf: seq<Byte>, reqtype: ReqType, multibulklen: nat, bulklen: int, argv: Argv,
                           executed: seq<Argv>, close: bool)

  /** REDIS_OK with a command, REDIS_OK without one, waiting for more bytes, protocol error. */
  datatype Status = Complete | NoCommand | Wait | Failed

  /** What holds between reads, on any input: a known request type starts with its marker, and nothing is
      left over from an earlier command. */
  predicate Sound(p: Parser) {
    && -1 <= p.bulklen <= MAX_BULK
    && (p.multibulklen == 0 ==> p.argv == [] && p.bulklen == -1)
    && (p.multibulklen > 0 ==> p.reqtype == Multibulk)
    && (p.reqtype == Multibulk && p.multibulklen == 0 ==> p.querybuf != [] && p.querybuf[0] == STAR)
  }

  /** setProtocolError */
  function ProtocolError(p: Parser, pos: nat): Parser
    requires pos <= |p.querybuf|
  {
    p.(close := true, querybuf := p.querybuf[pos..])
  }

  /** The part of processMultibulkBuffer that reads the number of arguments. */
  function ReadCount(p: Parser): (r: (Parser, nat, Status))
    requires p.querybuf != [] && p.querybuf[0] == STAR
    ensures r.1 <= |r.0.querybuf| && |r.0.querybuf| - r.1 <= |p.querybuf|
    ensures r.2.Complete? || r.2.NoCommand? ==> |r.0.querybuf| - r.1 < |p.querybuf|
    ensures r.2.Complete? ==> r.0.multibulklen > 0 && r.0 == p.(multibulklen := r.0.multibulklen)
    ensures r.2.NoCommand? ==> r.1 == 0
  {
    var newline := FindCr(p.querybuf);
    if newline.None? then (if |p.querybuf| > INLINE_MAX then ProtocolError(p, 0) else p, 0, Wait)
    else if newline.value > |p.querybuf| - 2 then (p, 0, Wait)
    else
      var ll := String2ll(p.querybuf[1..newline.value]);
      if ll.None? || ll.value > MAX_ARGS then (ProtocolError(p, 0), 0, Failed)
      else if ll.value <= 0 then (p.(querybuf := p.querybuf[newline.value + 2..]), 0, NoCommand)
      else (p.(multibulklen := ll.value), newline.value + 2, Complete)
  }

  /** The length of the next argument. The buffer is trimmed before a big one. */
  function ReadBulkLen(p: Parser, pos: nat): (r: (Parser, nat, Status))
    requires pos <= |p.querybuf|
    ensures r.1 <= |r.0.querybuf| && |r.0.querybuf| - r.1 <= |p.querybuf| - pos && r.0.multibulklen == p.multibulklen
    ensures r.2.Complete? ==>
      0 <= r.0.bulklen <= MAX_BULK && r.0 == p.(querybuf := r.0.querybuf, bulklen := r.0.bulklen)
    ensures !r.2.NoCommand? && (!r.2.Complete? ==> r.0.bulklen == p.bulklen && r.0.reqtype == p.reqtype)
  {
    var newline := FindCr(p.querybuf[pos..]);
    if newline.None? then (if |p.querybuf| > INLINE_MAX then ProtocolError(p, 0) else p, pos, Wait)
    else if pos + newline.value > |p.querybuf| - 2 then (p, pos, Wait)
    else if p.querybuf[pos] != DOLLAR then (ProtocolError(p, pos), 0, Failed)
    else
      var ll := String2ll(p.querybuf[pos + 1..pos + newline.value]);
      if ll.None? || ll.value < 0 || ll.value > MAX_BULK then (ProtocolError(p, pos), 0, Failed)
      else
        var pos' := pos + newline.value + 2;
        if ll.value >= BIG_ARG then (p.(querybuf := p.querybuf[pos'..], bulklen := ll.value), 0, Complete)
        else (p.(bulklen := ll.value), pos', Complete)
  }

  /** The argument at pos becomes an object: the buffer itself when it holds nothing else and is big, a copy
      otherwise. */
  function TakeArg(p: Parser, pos: nat): (r: (Parser, nat))
    requires 0 <= p.bulklen <= MAX_BULK && pos + p.bulklen + 2 <= |p.querybuf| && p.multibulklen > 0
    ensures r.1 <= |r.0.querybuf| && |r.0.querybuf| - r.1 < |p.querybuf| - pos
      && r.0.multibulklen == p.multibulklen - 1 && r.0.bulklen == -1
  {
    var p' := p.(bulklen := -1, multibulklen := p.multibulklen - 1);
    if pos == 0 && p.bulklen >= BIG_ARG && |p.querybuf| == p.bulklen + 2 then
      (p'.(argv := p.argv + [p.querybuf[..|p.querybuf| - 2]], querybuf := []), 0)
    else (p'.(argv := p.argv + [p.querybuf[pos..pos + p.bulklen]]), pos + p.bulklen + 2)
  }

  /** The loop over the arguments. */
  function ReadArgs(p: Parser, pos: nat): (r: (Parser, nat, Status))
    requires pos <= |p.querybuf| && -1 <= p.bulklen <= MAX_BULK
    ensures r.1 <= |r.0.querybuf| && |r.0.querybuf| - r.1 <= |p.querybuf| - pos
    ensures r.2.Complete? && p.multibulklen > 0 ==> |r.0.querybuf| - r.1 < |p.querybuf| - pos
    ensures !r.2.NoCommand? && (if r.2.Complete? then r.0.multibulklen == 0 else r.0.multibulklen > 0)
    ensures -1 <= r.0.bulklen <= MAX_BULK && r.0.reqtype == p.reqtype
      && (r.2.Complete? && p.multibulklen > 0 ==> r.0.bulklen == -1)
    decreases p.multibulklen
  {
    if p.multibulklen == 0 then (p, pos, Complete)
    else
      var (p1, pos1, st) := if p.bulklen == -1 then ReadBulkLen(p, pos) else (p, pos, Complete);
      if !st.Complete? then (p1, pos1, st)
      else if |p1.querybuf| - pos1 < p1.bulklen + 2 then (p1, pos1, Wait)
      else
        var (p2, pos2) := TakeArg(p1, pos1);
        ReadArgs(p2, pos2)
  }

  /** processMultibulkBuffer */
  function ProcessMultibulk(p: Parser): (r: (Parser, Status))
    requires Sound(p) && p.reqtype == Multibulk
    ensures r.1.Complete? || r.1.NoCommand? ==>
      |r.0.querybuf| < |p.querybuf| && r.0.multibulklen == 0 && r.0.bulklen == -1
    ensures !(r.1.Complete? || r.1.NoCommand?) ==> Sound(r.0)
  {
    var (p1, pos, st) := if p.multibulklen == 0 then ReadCount(p) else (p, 0, Complete);
    if !st.Complete? then (p1, st)
    else
      var (p2, pos', st') := ReadArgs(p1, pos);
      (p2.(querybuf := p2.querybuf[pos'..]), st')
  }

  /** resetClient */
  function Reset(p: Parser): Parser {
    p.(reqtype := Unknown, multibulklen := 0, bulklen := -1, argv := [])
  }

  /** processInputBuffer for clients that are never blocked; inline requests are where it stops. */
  function ProcessInput(p: Parser): (r: Parser)
    requires Sound(p)
    ensures Sound(r)
    decreases |p.querybuf|
  {
    if p.querybuf == [] || p.close then p
    else
      var p0 := if p.reqtype == Unknown then p.(reqtype := if p.querybuf[0] == STAR then Multibulk else Inline) else p;
      if p0.reqtype == Inline then p0
      else
        var (p1, st) := ProcessMultibulk(p0);
        if st.Complete? || st.NoCommand? then
          ProcessInput(Reset(if p1.argv == [] then p1 else p1.(executed := p1.executed + [p1.argv])))
        else p1
  }

  /** The size of the next read. */
  function ReadLen(p: Parser): int {
    if p.reqtype == Multibulk && p.multibulklen > 0 && p.bulklen >= BIG_ARG && p.bulklen + 2 - |p.querybuf| < IOBUF_LEN
    then p.bulklen + 2 - |p.querybuf| else IOBUF_LEN
  }

  /** readQueryFromClient, when the read returns these bytes. */
  function Feed(p: Parser, data: seq<Byte>): (r: Parser)
    requires Sound(p)
    ensures Sound(r)
  {
    ProcessInput(p.(querybuf := p.querybuf + data))
  }

  // ---------------------------------------------------------------- on a printed stream

  ghost predicate Printable(cmds: seq<Argv>) {
    forall i :: 0 <= i < |cmds| ==> 1 <= |cmds[i]| <= MAX_ARGS && forall j :: 0 <= j < |cmds[i]| ==>
      |cmds[i][j]| <= MAX_BULK
  }

  /** The parser has executed the first commands and taken the first arguments of the next one. */
  ghost predicate Along(p: Parser, cmds: seq<Argv>) {
    var k, a := |p.executed|, |p.argv|;
    && Printable(cmds) && k <= |cmds| && p.executed == cmds[..k] && !p.close
    && if p.multibulklen == 0 then p.bulklen == -1 && p.argv == []
       else
         && k < |cmds| && a + p.multibulklen == |cmds[k]| && p.argv == cmds[k][..a]
         && (p.bulklen == -1 || p.bulklen == |cmds[k][a]|)
  }

  /** What has still to be parsed. */
  ghost function Text(p: Parser, cmds: seq<Argv>): seq<Byte>
    requires Along(p, cmds)
  {
    var k, a := |p.executed|, |p.argv|;
    if p.multibulklen == 0 then PrintAll(cmds[k..])
    else if p.bulklen == -1 then PrintArgs(cmds[k][a..]) + PrintAll(cmds[k + 1..])
    else cmds[k][a] + [CR, LF] + (PrintArgs(cmds[k][a + 1..]) + PrintAll(cmds[k + 1..]))
  }

  lemma Tail<T>(s: seq<T>, i: nat)
    requires i < |s|
    ensures s[i..][0] == s[i] && s[i..][1..] == s[i + 1..] && s[..i + 1] == s[..i] + [s[i]]
  {}

  lemma PrintAllTail(cmds: seq<Argv>, k: nat)
    requires k < |cmds|
    ensures PrintAll(cmds[k..]) == Header(STAR, |cmds[k]|) + PrintArgs(cmds[k]) + PrintAll(cmds[k + 1..])
  {
    Tail(cmds, k);
    hide Header, PrintArgs;
  }

  /** A new command begins with its header. */
  lemma CommandBegins(p: Parser, cmds: seq<Argv>)
    requires Along(p, cmds) && p.multibulklen == 0 && |p.executed| < |cmds|
    ensures var n := |cmds[|p.executed|]|; var p' := p.(multibulklen := n);
      1 <= n <= MAX_ARGS && Along(p', cmds) && Text(p, cmds) == Header(STAR, n) + Text(p', cmds)
  {
    var k := |p.executed|;
    assert cmds[k][..0] == [] && cmds[k][0..] == cmds[k];
    hide Header, PrintArgs, PrintAll;
    Assoc(Header(STAR, |cmds[k]|), PrintArgs(cmds[k]), PrintAll(cmds[k + 1..]));
    PrintAllTail(cmds, k);
  }

  lemma PrintArgsTail(argv: Argv, a: nat)
    requires a < |argv|
    ensures PrintArgs(argv[a..]) == Header(DOLLAR, |argv[a]|) + argv[a] + [CR, LF] + PrintArgs(argv[a + 1..])
  {
    Tail(argv, a);
    hide Header;
  }

  lemma FivePartsRegrouped<T>(a: seq<T>, b: seq<T>, c: seq<T>, d: seq<T>, e: seq<T>)
    ensures (a + b + c + d) + e == a + (b + c + (d + e))
  {}

  /** An argument begins with its header. */
  lemma ArgBegins(p: Parser, cmds: seq<Argv>)
    requires Along(p, cmds) && p.multibulklen > 0 && p.bulklen == -1
    ensures var arg := cmds[|p.executed|][|p.argv|]; var p' := p.(bulklen := |arg|);
      Along(p', cmds) && |arg| <= MAX_BULK && Text(p, cmds) == Header(DOLLAR, |arg|) + Text(p', cmds)
  {
    var k, a := |p.executed|, |p.argv|;
    PrintArgsTail(cmds[k], a);
    hide Header, PrintArgs, PrintAll;
    var arg, more, all := cmds[k][a], PrintArgs(cmds[k][a + 1..]), PrintAll(cmds[k + 1..]);
    FivePartsRegrouped(Header(DOLLAR, |arg|), arg, [CR, LF], more, all);
  }

  /** An argument that has been taken. */
  function Took(p: Parser, arg: Str): Parser
    requires p.multibulklen > 0
  {
    p.(multibulklen := p.multibulklen - 1, bulklen := -1, argv := p.argv + [arg])
  }

  function Executed(p: Parser): Parser {
    Reset(p.(executed := p.executed + [p.argv]))
  }

  /** Taking an argument, and executing the command when it was the last one. */
  lemma ArgTaken(p: Parser, cmds: seq<Argv>)
    requires Along(p, cmds) && p.multibulklen > 0 && p.bulklen != -1
    ensures var arg := cmds[|p.executed|][|p.argv|]; var p' := Took(p, arg);
      && p.bulklen == |arg| && p'.argv != []
      && (if p'.multibulklen > 0 then Along(p', cmds) && Text(p, cmds) == arg + [CR, LF] + Text(p', cmds)
          else Along(Executed(p'), cmds) && Text(p, cmds) == arg + [CR, LF] + Text(Executed(p'), cmds))
  {
    var k, a := |p.executed|, |p.argv|;
    Tail(cmds[k], a);
    hide Header, PrintAll, PrintArg;
    if p.multibulklen == 1 {
      assert cmds[k][..a + 1] == cmds[k] && cmds[k][a + 1..] == [];
      Tail(cmds, k);
      assert PrintArgs([]) == [] && [] + PrintAll(cmds[k + 1..]) == PrintAll(cmds[k + 1..]);
    }
  }

  /** The buffer at the start of an argument's bytes. */
  lemma ArgInBuffer(arg: seq<Byte>, buf: seq<Byte>, rest: seq<Byte>, t: seq<Byte>)
    requires buf + rest == arg + [CR, LF] + t
    ensures |buf| >= |arg| + 2 ==> buf[..|arg|] == arg && buf[|arg| + 2..] + rest == t
    ensures |buf| < |arg| + 2 ==> rest != []
  {
    if |buf| >= |arg| + 2 {
      PrefixOf(buf, rest, arg + [CR, LF], t);
      CutAfter(buf, rest, arg + [CR, LF], t);
    }
    if rest == [] { assert |buf| == |arg| + 2 + |t|; }
  }

  // ---------------------------------------------------------------- the buffer stays small

  const LIMIT: nat := BIG_ARG + 2 + IOBUF_LEN

  /** While parsing: a buffer below the inline limit, or one that holds a big argument and nothing after. */
  ghost predicate Small(p: Parser, pos: nat) {
    |p.querybuf| <= LIMIT || (pos == 0 && p.multibulklen > 0 && p.bulklen >= BIG_ARG && |p.querybuf| <= p.bulklen + 2)
  }

  /** Between reads: an incomplete header, or less than the argument that is being read. */
  ghost predicate Idle(p: Parser) {
    |p.querybuf| < if p.bulklen == -1 then 22 else p.bulklen + 2
  }

  /** A read asks for 16 KB, but with a big argument due for no byte after the argument: then the whole buffer can
      become the argument. */
  lemma ReadsStopAtArgument(p: Parser)
    requires Idle(p) && Sound(p)
    ensures var big := p.multibulklen > 0 && p.bulklen >= 32 * 1024;
      && (big ==> |p.querybuf| + ReadLen(p) <= p.bulklen + 2)
      && 0 < ReadLen(p) <= 16 * 1024
      && (ReadLen(p) == 16 * 1024 || (big && |p.querybuf| + ReadLen(p) == p.bulklen + 2))
  {}

  /** A big argument that fills the buffer is taken over without a copy. */
  lemma BigArgumentTaken(p: Parser)
    requires p.multibulklen > 0 && 32 * 1024 <= p.bulklen <= MAX_BULK && |p.querybuf| == p.bulklen + 2
    ensures TakeArg(p, 0) == (p.(bulklen := -1, multibulklen := p.multibulklen - 1, querybuf := [],
                                 argv := p.argv + [p.querybuf[..p.bulklen]]), 0)
  {}

  /** After a read of at most ReadLen bytes. */
  lemma ReadKeepsSmall(p: Parser, data: seq<Byte>)
    requires Idle(p) && Sound(p) && |data| <= ReadLen(p)
    ensures ReadLen(p) >= 1 && Small(p.(querybuf := p.querybuf + data), 0)
  {}

  // ---------------------------------------------------------------- every cut of the stream

  /** The parser position: what is in the buffer from pos on, and what is still unread, is the text. */
  ghost predicate At(p: Parser, pos: nat, cmds: seq<Argv>, rest: seq<Byte>) {
    pos <= |p.querybuf| && Along(p, cmds) && p.querybuf[pos..] + rest == Text(p, cmds)
  }

  /** A command header, when there is one. */
  lemma CountAlong(p: Parser, cmds: seq<Argv>, rest: seq<Byte>)
    requires At(p, 0, cmds, rest) && p.multibulklen == 0 && |p.executed| < |cmds| && Small(p, 0)
    requires p.querybuf != [] && p.querybuf[0] == STAR
    ensures var (p', pos, st) := ReadCount(p);
      if st.Complete? then At(p', pos, cmds, rest) && p'.multibulklen > 0 && Small(p', pos)
      else st.Wait? && p' == p && Idle(p) && rest != []
  {
    CommandBegins(p, cmds);
    var n := |cmds[|p.executed|]|;
    assert p.querybuf[0..] == p.querybuf;
    HeaderInBuffer(STAR, n, p.querybuf, rest, Text(p.(multibulklen := n), cmds));
    hide FindCr, String2ll, Header, HeaderText, Text, Printable;
  }

  lemma Subslices<T>(s: seq<T>, pos: nat, h: nat)
    requires pos + h <= |s|
    ensures s[pos..][h..] == s[pos + h..] && s[pos + h..][0..] == s[pos + h..]
    ensures h > 0 ==> s[pos..][1..h] == s[pos + 1..pos + h] && s[pos..][0] == s[pos]
  {}

  /** What ReadBulkLen does at a header of h bytes and an end of line. */
  lemma BulkLenResult(p: Parser, pos: nat, h: nat, n: nat)
    requires pos <= |p.querybuf| <= INLINE_MAX && 0 < h && n <= MAX_BULK
    requires var buf := p.querybuf[pos..];
      && FindCr(buf) == (if |buf| > h then Some(h) else None)
      && (|buf| > h ==> buf[0] == DOLLAR && String2ll(buf[1..h]) == Some(n))
    ensures ReadBulkLen(p, pos) ==
      if |p.querybuf| - pos < h + 2 then (p, pos, Wait)
      else if n >= BIG_ARG then (p.(querybuf := p.querybuf[pos + h + 2..], bulklen := n), 0, Complete)
      else (p.(bulklen := n), pos + h + 2, Complete)
  {
    hide FindCr, String2ll;
    if |p.querybuf| - pos > h { Subslices(p.querybuf, pos, h); }
  }

  lemma BulkLenStep(p: Parser, pos: nat, n: nat, h: nat, cmds: seq<Argv>, rest: seq<Byte>)
    requires pos <= |p.querybuf| && p.multibulklen > 0 && 0 < h <= 20 && n <= MAX_BULK && Along(p.(bulklen := n), cmds)
    requires |p.querybuf| - pos >= h + 2 ==> p.querybuf[pos..][h + 2..] + rest == Text(p.(bulklen := n), cmds)
    requires |p.querybuf| - pos < h + 2 ==> rest != []
    requires ReadBulkLen(p, pos) ==
      if |p.querybuf| - pos < h + 2 then (p, pos, Wait)
      else if n >= BIG_ARG then (p.(querybuf := p.querybuf[pos + h + 2..], bulklen := n), 0, Complete)
      else (p.(bulklen := n), pos + h + 2, Complete)
    requires |p.querybuf| <= LIMIT
    ensures var (p', pos', st) := ReadBulkLen(p, pos);
      if st.Complete? then At(p', pos', cmds, rest) && p'.bulklen >= 0 && p'.multibulklen > 0 && Small(p', pos')
      else st.Wait? && p' == p && pos' == pos && |p.querybuf| - pos < 22 && rest != []
  {
    hide Text, Along, ReadBulkLen, At;
    if |p.querybuf| - pos >= h + 2 {
      var q, k := p.(bulklen := n), pos + h + 2;
      Subslices(p.querybuf, pos, h + 2);
      AtPosition(q, k, cmds, rest);
      DroppedAt(q, k, cmds, rest);
    }
  }

  lemma AtPosition(p: Parser, pos: nat, cmds: seq<Argv>, rest: seq<Byte>)
    requires pos <= |p.querybuf| && Along(p, cmds) && p.querybuf[pos..] + rest == Text(p, cmds)
    ensures At(p, pos, cmds, rest)
  {}

  /** Dropping what has been read from the buffer. */
  lemma DroppedAt(p: Parser, pos: nat, cmds: seq<Argv>, rest: seq<Byte>)
    requires At(p, pos, cmds, rest)
    ensures pos <= |p.querybuf| && At(p.(querybuf := p.querybuf[pos..]), 0, cmds, rest)
  {
    TextIgnoresBuffer(p, cmds);
    hide Text, Along;
    assert p.querybuf[pos..][0..] == p.querybuf[pos..];
  }

  /** The length of an argument, when it is there. */
  lemma BulkLenAlong(p: Parser, pos: nat, cmds: seq<Argv>, rest: seq<Byte>)
    requires At(p, pos, cmds, rest) && p.multibulklen > 0 && p.bulklen == -1 && Small(p, pos)
    ensures var (p', pos', st) := ReadBulkLen(p, pos);
      if st.Complete? then At(p', pos', cmds, rest) && p'.bulklen >= 0 && p'.multibulklen > 0 && Small(p', pos')
      else st.Wait? && p' == p && pos' == pos && |p.querybuf| - pos < 22 && rest != []
  {
    ArgBegins(p, cmds);
    var n := |cmds[|p.executed|][|p.argv|]|;
    var h := |HeaderText(DOLLAR, n)|;
    var t := Text(p.(bulklen := n), cmds);
    assert p.querybuf[pos..] + rest == Header(DOLLAR, n) + t;
    hide FindCr, String2ll, Header, HeaderText, Text, Along, ReadBulkLen, At;
    HeaderInBuffer(DOLLAR, n, p.querybuf[pos..], rest, t);
    BulkLenResult(p, pos, h, n);
    BulkLenStep(p, pos, n, h, cmds, rest);
  }

  lemma TextIgnoresBuffer(p: Parser, cmds: seq<Argv>)
    requires Along(p, cmds)
    ensures forall qb :: Along(p.(querybuf := qb), cmds) && Text(p.(querybuf := qb), cmds) == Text(p, cmds)
  {}

  /** What TakeArg does when the argument is there. */
  lemma TakeArgResult(p: Parser, pos: nat, arg: Str)
    requires p.multibulklen > 0 && 0 <= p.bulklen == |arg| <= MAX_BULK && pos + |arg| + 2 <= |p.querybuf|
    requires p.querybuf[pos..][..|arg|] == arg
    ensures var (p', pos') := TakeArg(p, pos);
      && p' == Took(p, arg).(querybuf := p'.querybuf) && pos' <= |p'.querybuf|
        && p'.querybuf[pos'..] == p.querybuf[pos..][|arg| + 2..]
      && (Small(p, pos) ==> Small(p', pos'))
  {
    assert p.querybuf[pos..][..|arg|] == p.querybuf[pos..pos + |arg|];
    Subslices(p.querybuf, pos, |arg| + 2);
  }

  /** After the arguments of a command: all of them taken, or more bytes needed. */
  ghost predicate ArgsRead(p: Parser, pos: nat, st: Status, cmds: seq<Argv>, rest: seq<Byte>) {
    pos <= |p.querybuf| &&
    if st.Complete? then
      && p.multibulklen == 0 && p.argv != [] && At(Executed(p), pos, cmds, rest) && |p.querybuf| <= LIMIT
    else
      && st.Wait? && At(p, pos, cmds, rest) && rest != [] && p.multibulklen > 0
      && |p.querybuf| - pos < (if p.bulklen == -1 then 22 else p.bulklen + 2)
  }

  lemma ArgAlong(p: Parser, pos: nat, cmds: seq<Argv>, rest: seq<Byte>)
    requires At(p, pos, cmds, rest) && p.multibulklen > 0 && 0 <= p.bulklen && Small(p, pos)
    ensures p.bulklen <= MAX_BULK
    ensures if |p.querybuf| - pos < p.bulklen + 2 then rest != []
            else
              var (p', pos') := TakeArg(p, pos);
              && p'.multibulklen == p.multibulklen - 1 && p'.argv != [] && p'.bulklen == -1 && Small(p', pos')
              && At(if p'.multibulklen > 0 then p' else Executed(p'), pos', cmds, rest)
  {
    ArgTaken(p, cmds);
    var arg := cmds[|p.executed|][|p.argv|];
    var p1 := Took(p, arg);
    var next := if p1.multibulklen > 0 then p1 else Executed(p1);
    TextIgnoresBuffer(next, cmds);
    var t := Text(next, cmds);
    ArgInBuffer(arg, p.querybuf[pos..], rest, t);
    if |p.querybuf| - pos >= p.bulklen + 2 {
      TakeArgResult(p, pos, arg);
      hide TakeArg, Text, Along;
    }
  }

  lemma ReadArgsStep(p: Parser, pos: nat)
    requires pos <= |p.querybuf| && p.multibulklen > 0 && -1 <= p.bulklen <= MAX_BULK
    ensures var (p1, pos1, st) := if p.bulklen == -1 then ReadBulkLen(p, pos) else (p, pos, Complete);
      ReadArgs(p, pos) ==
        if !st.Complete? then (p1, pos1, st)
        else if |p1.querybuf| - pos1 < p1.bulklen + 2 then (p1, pos1, Wait)
        else var (p2, pos2) := TakeArg(p1, pos1);
          if p2.multibulklen == 0 then (p2, pos2, Complete) else ReadArgs(p2, pos2)
  {
    hide ReadBulkLen, TakeArg;
  }

  lemma {:induction false} ArgsAlong(p: Parser, pos: nat, cmds: seq<Argv>, rest: seq<Byte>)
    requires At(p, pos, cmds, rest) && p.multibulklen > 0 && -1 <= p.bulklen <= MAX_BULK && Small(p, pos)
    ensures var (p', pos', st) := ReadArgs(p, pos); ArgsRead(p', pos', st, cmds, rest)
    decreases p.multibulklen
  {
    if p.bulklen == -1 { BulkLenAlong(p, pos, cmds, rest); }
    var (p1, pos1, st) := if p.bulklen == -1 then ReadBulkLen(p, pos) else (p, pos, Complete);
    ReadArgsStep(p, pos);
    hide ReadBulkLen, TakeArg, At, ReadArgs;
    if st.Complete? {
      ArgAlong(p1, pos1, cmds, rest);
      if |p1.querybuf| - pos1 >= p1.bulklen + 2 {
        var (p2, pos2) := TakeArg(p1, pos1);
        if p2.multibulklen > 0 { ArgsAlong(p2, pos2, cmds, rest); }
      }
    }
  }

  /** The parser between reads: what is unread and what is in the buffer are the rest of the commands. */
  ghost predicate Ready(p: Parser, cmds: seq<Argv>, rest: seq<Byte>) {
    Sound(p) && At(p, 0, cmds, rest) && p.reqtype != Inline
  }

  lemma StartsWithStar(p: Parser, cmds: seq<Argv>, rest: seq<Byte>)
    requires At(p, 0, cmds, rest) && p.multibulklen == 0 && p.querybuf != []
    ensures |p.executed| < |cmds| && p.querybuf[0] == STAR
  {
    assert p.querybuf[0..] == p.querybuf && cmds[|cmds|..] == [];
    assert (p.querybuf + rest)[0] == p.querybuf[0];
    if |p.executed| < |cmds| {
      PrintAllTail(cmds, |p.executed|);
      assert PrintAll(cmds[|p.executed|..])[0] == Header(STAR, |cmds[|p.executed|]|)[0];
    }
  }

  /** After a call of processMultibulkBuffer: a whole command, or more bytes needed. */
  ghost predicate MultibulkRead(p: Parser, st: Status, cmds: seq<Argv>, rest: seq<Byte>) {
    if st.Complete? then p.argv != [] && At(Executed(p), 0, cmds, rest) && |p.querybuf| <= LIMIT
    else st.Wait? && At(p, 0, cmds, rest) && Idle(p) && rest != [] && p.reqtype == Multibulk
  }

  lemma ArgsPart(p: Parser, pos: nat, cmds: seq<Argv>, rest: seq<Byte>)
    requires At(p, pos, cmds, rest) && p.multibulklen > 0 && -1 <= p.bulklen <= MAX_BULK && Small(p, pos)
      && p.reqtype == Multibulk
    ensures var (p2, pos', st) := ReadArgs(p, pos);
      MultibulkRead(p2.(querybuf := p2.querybuf[pos'..]), st, cmds, rest)
  {
    hide ReadArgs, At;
    ArgsAlong(p, pos, cmds, rest);
    var (p2, pos', st) := ReadArgs(p, pos);
    TrimmedAt(p2, pos', st, cmds, rest);
  }

  /** One call of processMultibulkBuffer. */
  lemma MultibulkAlong(p: Parser, cmds: seq<Argv>, rest: seq<Byte>)
    requires Ready(p, cmds, rest) && p.reqtype == Multibulk && Small(p, 0)
    ensures var (p', st) := ProcessMultibulk(p); MultibulkRead(p', st, cmds, rest)
  {
    hide ReadCount, ReadArgs, At, Small, MultibulkRead;
    if p.multibulklen == 0 {
      StartsWithStar(p, cmds, rest);
      CountAlong(p, cmds, rest);
      var (p1, pos, st) := ReadCount(p);
      if st.Complete? { ArgsPart(p1, pos, cmds, rest); } else { WaitingRead(p, cmds, rest); }
    } else {
      ArgsPart(p, 0, cmds, rest);
    }
  }

  lemma WaitingRead(p: Parser, cmds: seq<Argv>, rest: seq<Byte>)
    requires At(p, 0, cmds, rest) && Idle(p) && rest != [] && p.reqtype == Multibulk
    ensures MultibulkRead(p, Wait, cmds, rest)
  {}

  /** Trimming the buffer to pos. */
  lemma TrimmedAt(p: Parser, pos: nat, st: Status, cmds: seq<Argv>, rest: seq<Byte>)
    requires ArgsRead(p, pos, st, cmds, rest)
    ensures pos <= |p.querybuf|
    ensures var p' := p.(querybuf := p.querybuf[pos..]);
      if st.Complete? then p'.argv != [] && At(Executed(p'), 0, cmds, rest) && |p'.querybuf| <= LIMIT
      else st.Wait? && At(p', 0, cmds, rest) && Idle(p') && rest != []
  {
    Subslices(p.querybuf, pos, 0);
    var q := if st.Complete? then Executed(p) else p;
    TextIgnoresBuffer(q, cmds);
    hide Text, Along;
  }

  lemma {:induction false} InputAlong(p: Parser, cmds: seq<Argv>, rest: seq<Byte>)
    requires Ready(p, cmds, rest) && Small(p, 0)
    ensures var p' := ProcessInput(p);
      Ready(p', cmds, rest) && Idle(p') && (rest == [] ==> p'.executed == cmds && p'.querybuf == [])
    decreases |p.querybuf|
  {
    assert !p.close;
    if p.querybuf == [] {
      NothingLeft(p, cmds, rest);
    } else {
      if p.multibulklen == 0 { StartsWithStar(p, cmds, rest); }
      var p0 := if p.reqtype == Unknown then p.(reqtype := Multibulk) else p;
      assert Ready(p0, cmds, rest) && Small(p0, 0);
      hide ProcessMultibulk, Ready, Small;
      MultibulkAlong(p0, cmds, rest);
      var (p1, st) := ProcessMultibulk(p0);
      AfterMultibulk(p1, st, cmds, rest);
      if st.Complete? { InputAlong(Executed(p1), cmds, rest); }
    }
  }

  lemma AfterMultibulk(p: Parser, st: Status, cmds: seq<Argv>, rest: seq<Byte>)
    requires MultibulkRead(p, st, cmds, rest) && (st.Complete? || Sound(p))
    ensures if st.Complete? then p.argv != [] && Ready(Executed(p), cmds, rest) && Small(Executed(p), 0)
            else st.Wait? && Ready(p, cmds, rest) && Idle(p) && rest != []
  {
    hide Text, Along;
  }

  lemma NothingLeft(p: Parser, cmds: seq<Argv>, rest: seq<Byte>)
    requires Ready(p, cmds, rest) && p.querybuf == []
    ensures Idle(p) && (rest == [] ==> p.executed == cmds)
  {
    if rest == [] {
      assert p.querybuf[0..] + rest == [];
      assert p.multibulklen == 0;
      if |p.executed| < |cmds| { PrintAllTail(cmds, |p.executed|); }
      assert cmds[..|cmds|] == cmds;
    }
  }

  const Fresh: Parser := Parser([], Unknown, 0, -1, [], [], false)

  /** How many of n unread bytes a read returns: any number from 1 to what was asked for. */
  function ReadSize(p: Parser, n: nat, wanted: nat): (k: nat)
    ensures k <= n && (ReadLen(p) >= 1 && n > 0 ==> 1 <= k <= ReadLen(p))
  {
    var most := if ReadLen(p) < n then ReadLen(p) else n;
    if most < 1 then 0 else if wanted < 1 then 1 else if wanted > most then most else wanted
  }

  /** The client after reading a whole stream, in reads of any sizes the code allows. */
  function ReadAll(p: Parser, stream: seq<Byte>, sizes: nat -> nat, i: nat): Parser
    requires Sound(p)
    decreases |stream|
  {
    var n := ReadSize(p, |stream|, sizes(i));
    if n == 0 then p else ReadAll(Feed(p, stream[..n]), stream[n..], sizes, i + 1)
  }

  lemma FeedAlong(p: Parser, cmds: seq<Argv>, data: seq<Byte>, rest: seq<Byte>)
    requires Ready(p, cmds, data + rest) && Idle(p) && |data| <= ReadLen(p)
    ensures var p' := Feed(p, data);
      Ready(p', cmds, rest) && Idle(p') && (rest == [] ==> p'.executed == cmds && p'.querybuf == [])
  {
    FeedReady(p, cmds, data, rest);
    ReadKeepsSmall(p, data);
    hide Ready, Idle, ProcessInput, Small;
    InputAlong(p.(querybuf := p.querybuf + data), cmds, rest);
  }

  lemma {:induction false} ReadAllAlong(p: Parser, cmds: seq<Argv>, stream: seq<Byte>, sizes: nat -> nat, i: nat)
    requires Ready(p, cmds, stream) && Idle(p) && (stream == [] ==> p.executed == cmds && p.querybuf == [])
    ensures var r := ReadAll(p, stream, sizes, i); r.executed == cmds && r.querybuf == [] && !r.close
    decreases |stream|
  {
    var n := ReadSize(p, |stream|, sizes(i));
    ReadKeepsSmall(p, []);
    if n > 0 {
      var data, rest := stream[..n], stream[n..];
      assert stream == data + rest;
      hide At, Idle, Feed, ReadLen, ReadSize;
      FeedAlong(p, cmds, data, rest);
      ReadAllAlong(Feed(p, data), cmds, rest, sizes, i + 1);
    }
  }

  lemma FeedReady(p: Parser, cmds: seq<Argv>, data: seq<Byte>, rest: seq<Byte>)
    requires Ready(p, cmds, data + rest)
    ensures Ready(p.(querybuf := p.querybuf + data), cmds, rest)
  {
    TextIgnoresBuffer(p, cmds);
    assert p.querybuf[0..] == p.querybuf && (p.querybuf + data)[0..] == p.querybuf + data;
    Assoc(p.querybuf, data, rest);
    hide Text, Along;
  }

  lemma PrintedCommands(cmds: seq<Argv>)
    ensures PrintAll(cmds) == [] ==> cmds == []
  {
    if cmds != [] {
      PrintAllTail(cmds, 0);
      assert cmds[0..] == cmds && |Header(STAR, |cmds[0]|)| > 0;
    }
  }

  /** Commands printed in multi-bulk form come out of the parser exactly as they went in, however the stream is
      cut into reads and whichever arguments take the buffer over without a copy. */
  lemma AnyCutGivesTheCommands(cmds: seq<Argv>, sizes: nat -> nat)
    requires Printable(cmds)
    ensures var r := ReadAll(Fresh, PrintAll(cmds), sizes, 0); r.executed == cmds && r.querybuf == [] && !r.close
  {
    assert cmds[0..] == cmds && cmds[..0] == [];
    assert Along(Fresh, cmds) && [] + PrintAll(cmds) == PrintAll(cmds);
    PrintedCommands(cmds);
    ReadAllAlong(Fresh, cmds, PrintAll(cmds), sizes, 0);
  }

  // ---------------------------------------------------------------- the client

  /** The fields of redisClient that the parser updates. */
  class RequestClient {
    var querybuf: seq<Byte>
    var reqtype: ReqType
    var multibulklen: nat
    var bulklen: int
    var argv: Argv
    var executed: seq<Argv>
    var close: bool

    function St(): Parser
      reads this
    {
      Parser(querybuf, reqtype, multibulklen, bulklen, argv, executed, close)
    }

    constructor ()
      ensures St() == Fresh
    {
      querybuf, reqtype, multibulklen, bulklen := [], Unknown, 0, -1;
      argv, executed, close := [], [], false;
    }

    /** setProtocolError */
    method SetProtocolError(pos: nat)
      requires pos <= |querybuf|
      modifies this`close, this`querybuf
      ensures St() == ProtocolError(old(St()), pos)
    {
      close := true;
      querybuf := querybuf[pos..];
    }

    method ReadMultibulkLen() returns (pos: nat, st: Status)
      requires querybuf != [] && querybuf[0] == STAR
      modifies this`close, this`querybuf, this`multibulklen
      ensures (St(), pos, st) == ReadCount(old(St()))
    {
      hide FindCr, String2ll;
      var newline := FindCr(querybuf);
      if newline.None? {
        if |querybuf| > INLINE_MAX { SetProtocolError(0); }
        return 0, Wait;
      }
      if newline.value > |querybuf| - 2 { return 0, Wait; }
      var ll := String2ll(querybuf[1..newline.value]);
      if ll.None? || ll.value > MAX_ARGS {
        SetProtocolError(0);
        return 0, Failed;
      }
      pos := newline.value + 2;
      if ll.value <= 0 {
        querybuf := querybuf[pos..];
        return 0, NoCommand;
      }
      multibulklen := ll.value;
      return pos, Complete;
    }

    method ReadBulkLength(pos0: nat) returns (pos: nat, st: Status)
      requires pos0 <= |querybuf|
      modifies this`close, this`querybuf, this`bulklen
      ensures (St(), pos, st) == ReadBulkLen(old(St()), pos0)
    {
      hide FindCr, String2ll;
      pos := pos0;
      var newline := FindCr(querybuf[pos..]);
      if newline.None? {
        if |querybuf| > INLINE_MAX {
          SetProtocolError(0);
          assert querybuf == old(querybuf);
        }
        return pos, Wait;
      }
      if pos + newline.value > |querybuf| - 2 { return pos, Wait; }
      if querybuf[pos] != DOLLAR {
        SetProtocolError(pos);
        return 0, Failed;
      }
      var ll := String2ll(querybuf[pos + 1..pos + newline.value]);
      if ll.None? || ll.value < 0 || ll.value > MAX_BULK {
        SetProtocolError(pos);
        return 0, Failed;
      }
      pos := pos + newline.value + 2;
      if ll.value >= BIG_ARG {
        querybuf := querybuf[pos..];
        pos := 0;
      }
      bulklen := ll.value;
      return pos, Complete;
    }

    method TakeArgument(pos0: nat) returns (pos: nat)
      requires 0 <= bulklen <= MAX_BULK && pos0 + bulklen + 2 <= |querybuf| && multibulklen > 0
      modifies this`argv, this`querybuf, this`bulklen, this`multibulklen
      ensures (St(), pos) == TakeArg(old(St()), pos0)
    {
      if pos0 == 0 && bulklen >= BIG_ARG && |querybuf| == bulklen + 2 {
        argv := argv + [querybuf[..|querybuf| - 2]];
        querybuf := [];
        pos := 0;
      } else {
        argv := argv + [querybuf[pos0..pos0 + bulklen]];
        pos := pos0 + bulklen + 2;
      }
      bulklen := -1;
      multibulklen := multibulklen - 1;
    }

    /** The loop of processMultibulkBuffer. */
    method ReadArguments(pos0: nat) returns (pos: nat, st: Status)
      requires pos0 <= |querybuf| && -1 <= bulklen <= MAX_BULK
      modifies this
      ensures (St(), pos, st) == ReadArgs(old(St()), pos0)
    {
      pos := pos0;
      hide ReadBulkLen, TakeArg;
      while multibulklen > 0
        invariant pos <= |querybuf| && -1 <= bulklen <= MAX_BULK
        invariant ReadArgs(St(), pos) == ReadArgs(old(St()), pos0)
        decreases multibulklen
      {
        ghost var was := St();
        if bulklen == -1 {
          pos, st := ReadBulkLength(pos);
          if st != Complete { return; }
        }
        if |querybuf| - pos < bulklen + 2 { return pos, Wait; }
        pos := TakeArgument(pos);
      }
      return pos, Complete;
    }

    /** processMultibulkBuffer; its assertion that the buffer starts with an asterisk holds. */
    method ProcessMultibulkBuffer() returns (st: Status)
      requires Sound(St()) && reqtype == Multibulk
      modifies this
      ensures (St(), st) == ProcessMultibulk(old(St()))
    {
      hide ReadCount, ReadArgs;
      var pos := 0;
      if multibulklen == 0 {
        assert querybuf[0] == STAR;
        pos, st := ReadMultibulkLen();
        if st != Complete { return; }
      }
      pos, st := ReadArguments(pos);
      querybuf := querybuf[pos..];
    }

    /** processInputBuffer */
    method ProcessInputBuffer()
      requires Sound(St())
      modifies this
      ensures St() == ProcessInput(old(St())) && Sound(St())
    {
      hide ProcessMultibulk;
      while querybuf != []
        invariant Sound(St()) && ProcessInput(St()) == ProcessInput(old(St()))
        decreases |querybuf|
      {
        if close { return; }
        if reqtype == Unknown { reqtype := if querybuf[0] == STAR then Multibulk else Inline; }
        if reqtype == Inline { return; }
        var st := ProcessMultibulkBuffer();
        if st != Complete && st != NoCommand { return; }
        if argv != [] { executed := executed + [argv]; }
        argv, reqtype, multibulklen, bulklen := [], Unknown, 0, -1;
      }
    }

    /** readQueryFromClient, when read(2) returns these bytes. */
    method ReadQuery(data: seq<Byte>)
      requires Sound(St()) && 0 < |data| <= ReadLen(St())
      modifies this
      ensures St() == Feed(old(St()), data) && Sound(St())
    {
      hide ProcessInput;
      querybuf := querybuf + data;
      ProcessInputBuffer();
    }
  }
}
