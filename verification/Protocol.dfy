/** The multi-bulk protocol as bytes: how commands are printed (aof.c) and how the log loader reads
    them back. */
module Protocol {
  import opened Basics
  import opened Bytes

  const CR: Byte := 13
  const LF: Byte := 10
  const STAR: Byte := 42
  const DOLLAR: Byte := 36
  const LONG_MAX: nat := 0x7FFF_FFFF_FFFF_FFFF
  const FGETS_MAX: nat := 127

  /** A string that fits the source's signed 64-bit lengths. */
  type Str = s: seq<Byte> | |s| <= LONG_MAX
  type Argv = seq<Str>

  // ---------------------------------------------------------------- decimals

  function Digits(n: nat): (s: seq<Byte>)
    ensures s != []
  {
    if n < 10 then [48 + n] else Digits(n / 10) + [48 + n % 10]
  }

  predicate IsDigit(b: Byte) {
    48 <= b <= 57
  }

  /** The value of the longest run of digits at the start of s, read after a number acc. */
  function ReadNumber(s: seq<Byte>, acc: nat): nat {
    if s == [] || !IsDigit(s[0]) then acc else ReadNumber(s[1..], 10 * acc + (s[0] - 48))
  }

  lemma {:induction false} ValueOfDigits(n: nat, t: seq<Byte>)
    ensures ReadNumber(Digits(n) + t, 0) == ReadNumber(t, n)
  {
    if n < 10 {
      assert (Digits(n) + t)[1..] == t;
    } else {
      var d: Byte := 48 + n % 10;
      assert Digits(n) + t == Digits(n / 10) + ([d] + t);
      ValueOfDigits(n / 10, [d] + t);
      assert ([d] + t)[1..] == t;
    }
  }

  /** ll2string */
  function Decimal(v: int): seq<Byte> {
    if v < 0 then [45] + Digits(-v) else Digits(v)
  }

  lemma {:induction false} ReadOneMore(s: seq<Byte>, b: Byte, acc: nat)
    requires (forall i :: 0 <= i < |s| ==> IsDigit(s[i])) && IsDigit(b)
    ensures ReadNumber(s + [b], acc) == 10 * ReadNumber(s, acc) + (b - 48)
  {
    if s == [] {
      assert (s + [b])[1..] == [];
    } else {
      assert (s + [b])[1..] == s[1..] + [b];
      ReadOneMore(s[1..], b, 10 * acc + (s[0] - 48));
    }
  }

  /** Digits without a leading zero are the only way to print their value. */
  lemma {:induction false} DigitsOfValue(s: seq<Byte>)
    requires s != [] && 49 <= s[0] <= 57 && forall i :: 0 <= i < |s| ==> IsDigit(s[i])
    ensures ReadNumber(s, 0) > 0 && Digits(ReadNumber(s, 0)) == s
  {
    var b := s[|s| - 1];
    assert s == s[..|s| - 1] + [b] && IsDigit(b);
    ReadOneMore(s[..|s| - 1], b, 0);
    if |s| > 1 { DigitsOfValue(s[..|s| - 1]); }
  }

  function Pow10(k: nat): (p: nat)
    ensures p > 0
  {
    if k == 0 then 1 else 10 * Pow10(k - 1)
  }

  lemma {:induction false} DigitsLength(n: nat, k: nat)
    requires k > 0 && n < Pow10(k)
    ensures |Digits(n)| <= k
  {
    if n >= 10 { DigitsLength(n / 10, k - 1); }
  }

  lemma {:induction false} DigitsAreDigits(n: nat)
    ensures forall i :: 0 <= i < |Digits(n)| ==> IsDigit(Digits(n)[i])
  {
    if n >= 10 { DigitsAreDigits(n / 10); }
  }

  lemma ShortDigits(n: nat)
    requires n <= LONG_MAX
    ensures |Digits(n)| <= 19
  {
    assert Pow10(19) == 10_000_000_000_000_000_000 by { assert Pow10(9) == 1_000_000_000; }
    DigitsLength(n, 19);
  }

  // ---------------------------------------------------------------- printing

  /** A marker, a number and the end of line. */
  function Header(marker: Byte, n: nat): (s: seq<Byte>) {
    [marker] + Digits(n) + [CR, LF]
  }

  /** rioWriteBulkString */
  function PrintArg(a: Str): seq<Byte> {
    Header(DOLLAR, |a|) + a + [CR, LF]
  }

  function PrintArgs(argv: Argv): seq<Byte> {
    if argv == [] then [] else PrintArg(argv[0]) + PrintArgs(argv[1..])
  }

  /** catAppendOnlyGenericCommand, without what it appends to. */
  function Print(argv: Argv): seq<Byte> {
    Header(STAR, |argv|) + PrintArgs(argv)
  }

  /** "*1", "$4", "PING", each with its end of line, and a number of more than one digit. */
  lemma KnownCommand()
    ensures Print([[80, 73, 78, 71]]) == [42, 49, 13, 10, 36, 52, 13, 10, 80, 73, 78, 71, 13, 10]
    ensures Digits(1024) == [49, 48, 50, 52]
  {
    var argv: Argv := [[80, 73, 78, 71]];
    assert argv[1..] == [];
    assert Header(STAR, 1) == [42, 49, 13, 10] && Header(DOLLAR, 4) == [36, 52, 13, 10];
  }

  function PrintAll(cmds: seq<Argv>): seq<Byte> {
    if cmds == [] then [] else Print(cmds[0]) + PrintAll(cmds[1..])
  }

  lemma {:induction false} PrintArgsAppend(a: Argv, b: Argv)
    ensures PrintArgs(a + b) == PrintArgs(a) + PrintArgs(b)
  {
    if a == [] {
      assert a + b == b;
    } else {
      assert (a + b)[1..] == a[1..] + b;
      PrintArgsAppend(a[1..], b);
      assert PrintArg(a[0]) + (PrintArgs(a[1..]) + PrintArgs(b)) == (PrintArg(a[0]) + PrintArgs(a[1..])) + PrintArgs(b);
    }
  }

  lemma {:induction false} PrintAllAppend(a: seq<Argv>, b: seq<Argv>)
    ensures PrintAll(a + b) == PrintAll(a) + PrintAll(b)
  {
    if a == [] {
      assert a + b == b;
    } else {
      assert (a + b)[1..] == a[1..] + b;
      PrintAllAppend(a[1..], b);
      assert Print(a[0]) + (PrintAll(a[1..]) + PrintAll(b)) == (Print(a[0]) + PrintAll(a[1..])) + PrintAll(b);
    }
  }

  /** catAppendOnlyGenericCommand */
  method CatGenericCommand(dst: seq<Byte>, argv: Argv) returns (r: seq<Byte>)
    ensures r == dst + Print(argv)
  {
    hide PrintArg, Header;
    r := dst + Header(STAR, |argv|);
    var j := 0;
    assert argv[..0] == [] && PrintArgs([]) == [];
    while j < |argv|
      invariant j <= |argv| && r == dst + Header(STAR, |argv|) + PrintArgs(argv[..j])
    {
      PrintOneMore(argv, j);
      r := r + PrintArg(argv[j]);
      j := j + 1;
    }
    assert argv[..j] == argv;
  }

  lemma PrintOneMore(argv: Argv, j: nat)
    requires j < |argv|
    ensures PrintArgs(argv[..j + 1]) == PrintArgs(argv[..j]) + PrintArg(argv[j])
  {
    assert argv[..j + 1] == argv[..j] + [argv[j]];
    PrintArgsAppend(argv[..j], [argv[j]]);
    assert [argv[j]][1..] == [];
  }

  // ---------------------------------------------------------------- loading

  /** fgets: up to and including the first line feed, at most `limit` bytes. */
  function Line(s: seq<Byte>, limit: nat): (l: seq<Byte>)
    ensures |l| <= |s| && (s != [] && limit > 0 ==> l != []) && (l != [] ==> s != [] && l[0] == s[0])
  {
    if s == [] || limit == 0 then [] else if s[0] == LF then [LF] else [s[0]] + Line(s[1..], limit - 1)
  }

  function Min(a: nat, b: nat): nat {
    if a < b then a else b
  }

  /** The number on a line that must start with the marker (atoi and strtol on the rest; strtol stops at
      the largest long). */
  function LoadHeader(marker: Byte, s: seq<Byte>): (r: Option<(nat, seq<Byte>)>)
    ensures r.Some? ==> |r.value.1| < |s|
  {
    var line := Line(s, FGETS_MAX);
    if line == [] || line[0] != marker then None else Some((ReadNumber(line[1..], 0), s[|line|..]))
  }

  /** One argument: its length, its bytes, and two more bytes that are not looked at. */
  function LoadArg(s: seq<Byte>): (r: Option<(Str, seq<Byte>)>)
    ensures r.Some? ==> |r.value.1| < |s|
  {
    var header := LoadHeader(DOLLAR, s);
    if header.None? then None
    else
      var len := Min(header.value.0, LONG_MAX);
      var rest := header.value.1;
      if |rest| < len + 2 then None else Some((rest[..len], rest[len + 2..]))
  }

  function LoadArgs(s: seq<Byte>, n: nat): (r: Option<(Argv, seq<Byte>)>)
    ensures r.Some? ==> |r.value.0| == n && |r.value.1| <= |s|
    decreases n
  {
    if n == 0 then Some(([], s))
    else
      var first := LoadArg(s);
      if first.None? then None
      else
        var others := LoadArgs(first.value.1, n - 1);
        if others.None? then None else Some(([first.value.0] + others.value.0, others.value.1))
  }

  /** One turn of the loop of loadAppendOnlyFile; None is a format or read error. */
  function LoadCommand(s: seq<Byte>): (r: Option<(Argv, seq<Byte>)>)
    ensures r.Some? ==> r.value.0 != [] && |r.value.1| < |s|
  {
    var header := LoadHeader(STAR, s);
    if header.None? || header.value.0 < 1 then None else LoadArgs(header.value.1, header.value.0)
  }

  /** All the commands of a file. */
  function LoadAll(s: seq<Byte>): (r: Option<seq<Argv>>)
    decreases |s|
  {
    if s == [] then Some([])
    else
      var first := LoadCommand(s);
      if first.None? then None else Prepend(first.value.0, LoadAll(first.value.1))
  }

  function Prepend(c: Argv, r: Option<seq<Argv>>): Option<seq<Argv>> {
    if r.None? then None else Some([c] + r.value)
  }

  function Joined(a: Option<seq<Argv>>, b: Option<seq<Argv>>): Option<seq<Argv>> {
    if a.None? || b.None? then None else Some(a.value + b.value)
  }

  // ---------------------------------------------------------------- loading undoes printing

  lemma {:induction false} LineOfHeader(d: seq<Byte>, t: seq<Byte>, limit: nat)
    requires (forall i :: 0 <= i < |d| ==> d[i] != LF) && |d| < limit
    ensures Line(d + [LF] + t, limit) == d + [LF]
  {
    var s := d + [LF] + t;
    if d != [] {
      assert s[1..] == d[1..] + [LF] + t;
      LineOfHeader(d[1..], t, limit - 1);
      assert [d[0]] + (d[1..] + [LF]) == d + [LF];
    }
  }

  lemma HeaderLoads(marker: Byte, n: nat, t: seq<Byte>)
    requires n <= LONG_MAX && marker != LF
    ensures LoadHeader(marker, Header(marker, n) + t) == Some((n, t))
  {
    ShortDigits(n);
    DigitsAreDigits(n);
    var d := [marker] + Digits(n) + [CR];
    var s := Header(marker, n) + t;
    assert s == d + [LF] + t;
    LineOfHeader(d, t, FGETS_MAX);
    var line := d + [LF];
    assert line[1..] == Digits(n) + [CR, LF];
    ValueOfDigits(n, [CR, LF]);
    assert s[|line|..] == t;
  }

  lemma ArgSlices(a: Str, t: seq<Byte>)
    ensures var s := a + [CR, LF] + t; |s| >= |a| + 2 && s[..|a|] == a && s[|a| + 2..] == t
  {}

  lemma ArgLoads(a: Str, t: seq<Byte>)
    ensures LoadArg(PrintArg(a) + t) == Some((a, t))
  {
    var rest := a + [CR, LF] + t;
    assert PrintArg(a) + t == Header(DOLLAR, |a|) + rest;
    HeaderLoads(DOLLAR, |a|, rest);
    ArgSlices(a, t);
    hide LoadHeader, Header;
  }

  lemma {:induction false} ArgsLoad(argv: Argv, t: seq<Byte>)
    ensures LoadArgs(PrintArgs(argv) + t, |argv|) == Some((argv, t))
    decreases |argv|
  {
    if argv == [] {
      assert PrintArgs(argv) + t == t;
    } else {
      var more := PrintArgs(argv[1..]) + t;
      assert PrintArgs(argv) + t == PrintArg(argv[0]) + more;
      ArgLoads(argv[0], more);
      ArgsLoad(argv[1..], t);
      hide LoadArg, PrintArg;
      assert [argv[0]] + argv[1..] == argv;
    }
  }

  /** A printed command is read back as it was, whatever follows. */
  lemma CommandLoads(argv: Argv, t: seq<Byte>)
    requires 1 <= |argv| <= LONG_MAX
    ensures LoadCommand(Print(argv) + t) == Some((argv, t))
  {
    assert Print(argv) + t == Header(STAR, |argv|) + (PrintArgs(argv) + t);
    HeaderLoads(STAR, |argv|, PrintArgs(argv) + t);
    ArgsLoad(argv, t);
    hide LoadHeader, Header, LoadArgs, PrintArgs;
  }

  lemma {:induction false} AllLoad(cmds: seq<Argv>)
    requires forall i :: 0 <= i < |cmds| ==> 1 <= |cmds[i]| <= LONG_MAX
    ensures LoadAll(PrintAll(cmds)) == Some(cmds)
  {
    if cmds != [] {
      CommandLoads(cmds[0], PrintAll(cmds[1..]));
      AllLoad(cmds[1..]);
      hide LoadCommand, Print;
      assert [cmds[0]] + cmds[1..] == cmds;
    }
  }

  // ---------------------------------------------------------------- more bytes after a complete log

  lemma {:induction false} LineStable(s: seq<Byte>, t: seq<Byte>, limit: nat)
    requires |Line(s, limit)| < |s|
    ensures Line(s + t, limit) == Line(s, limit)
  {
    if limit > 0 && s[0] != LF {
      assert (s + t)[1..] == s[1..] + t;
      LineStable(s[1..], t, limit - 1);
    }
  }

  lemma HeaderStable(marker: Byte, s: seq<Byte>, t: seq<Byte>)
    requires var r := LoadHeader(marker, s); r.Some? && r.value.1 != []
    ensures LoadHeader(marker, s + t) == Some((LoadHeader(marker, s).value.0, LoadHeader(marker, s).value.1 + t))
  {
    var line := Line(s, FGETS_MAX);
    LineStable(s, t, FGETS_MAX);
    assert (s + t)[|line|..] == s[|line|..] + t;
  }

  lemma RestSlices(rest: seq<Byte>, t: seq<Byte>, len: nat)
    requires |rest| >= len + 2
    ensures (rest + t)[..len] == rest[..len] && (rest + t)[len + 2..] == rest[len + 2..] + t
  {}

  lemma ArgStable(s: seq<Byte>, t: seq<Byte>)
    requires LoadArg(s).Some?
    ensures LoadArg(s + t) == Some((LoadArg(s).value.0, LoadArg(s).value.1 + t))
  {
    var header := LoadHeader(DOLLAR, s);
    HeaderStable(DOLLAR, s, t);
    RestSlices(header.value.1, t, Min(header.value.0, LONG_MAX));
    hide LoadHeader;
  }

  lemma ArgsStep(s: seq<Byte>, n: nat)
    requires n > 0 && LoadArg(s).Some?
    ensures var (arg, rest) := LoadArg(s).value; var others := LoadArgs(rest, n - 1);
      LoadArgs(s, n) == if others.None? then None else Some(([arg] + others.value.0, others.value.1))
  {}

  lemma {:induction false} ArgsStable(s: seq<Byte>, t: seq<Byte>, n: nat)
    requires LoadArgs(s, n).Some?
    ensures LoadArgs(s + t, n) == Some((LoadArgs(s, n).value.0, LoadArgs(s, n).value.1 + t))
    decreases n
  {
    if n > 0 {
      assert LoadArg(s).Some?;
      ArgStable(s, t);
      ArgsStep(s, n);
      ArgsStep(s + t, n);
      hide *;
      ArgsStable(LoadArg(s).value.1, t, n - 1);
    }
  }

  lemma CommandStable(s: seq<Byte>, t: seq<Byte>)
    requires LoadCommand(s).Some?
    ensures LoadCommand(s + t) == Some((LoadCommand(s).value.0, LoadCommand(s).value.1 + t))
  {
    var header := LoadHeader(STAR, s);
    assert header.value.1 != [] by { assert LoadArgs([], header.value.0).None?; }
    HeaderStable(STAR, s, t);
    ArgsStable(header.value.1, t, header.value.0);
    hide LoadHeader, LoadArgs;
  }

  lemma PrependJoined(c: Argv, a: Option<seq<Argv>>, b: Option<seq<Argv>>)
    ensures Joined(Prepend(c, a), b) == Prepend(c, Joined(a, b))
  {
    if a.Some? && b.Some? { assert [c] + (a.value + b.value) == ([c] + a.value) + b.value; }
  }

  lemma LoadAllStep(s: seq<Byte>)
    requires s != []
    ensures LoadAll(s) == if LoadCommand(s).None? then None
      else Prepend(LoadCommand(s).value.0, LoadAll(LoadCommand(s).value.1))
  {}

  /** A file that loads still loads, with the same commands first, when more is appended. */
  lemma {:induction false} LoadAppend(s: seq<Byte>, t: seq<Byte>)
    requires LoadAll(s).Some?
    ensures LoadAll(s + t) == Joined(LoadAll(s), LoadAll(t))
    decreases |s|
  {
    if s == [] {
      assert s + t == t;
      if LoadAll(t).Some? { assert [] + LoadAll(t).value == LoadAll(t).value; }
    } else {
      LoadAllStep(s);
      LoadAllStep(s + t);
      hide LoadCommand, LoadAll, Joined;
      CommandStable(s, t);
      var (c, rest) := LoadCommand(s).value;
      LoadAppend(rest, t);
      PrependJoined(c, LoadAll(rest), LoadAll(t));
    }
  }

  // ---------------------------------------------------------------- a log that is cut off

  /** The first n bytes of the printed commands end where a command ends. */
  predicate EndsCommand(cmds: seq<Argv>, n: nat) {
    n == 0 || (cmds != [] && n >= |Print(cmds[0])| && EndsCommand(cmds[1..], n - |Print(cmds[0])|))
  }

  lemma CutCommandFails(argv: Argv, n: nat)
    requires 1 <= |argv| <= LONG_MAX && 0 < n < |Print(argv)|
    ensures LoadAll(Print(argv)[..n]).None?
  {
    var p, rest := Print(argv)[..n], Print(argv)[n..];
    assert p + rest == Print(argv) == Print(argv) + [];
    CommandLoads(argv, []);
    hide LoadCommand, Print;
    if LoadCommand(p).Some? { CommandStable(p, rest); }
  }

  /** A cut-off log of printed commands loads exactly when the cut falls between two commands. */
  lemma {:induction false} CutLoads(cmds: seq<Argv>, n: nat)
    requires (forall i :: 0 <= i < |cmds| ==> 1 <= |cmds[i]| <= LONG_MAX) && n <= |PrintAll(cmds)|
    ensures LoadAll(PrintAll(cmds)[..n]).Some? <==> EndsCommand(cmds, n)
  {
    hide *;
    if n == 0 {
      CutNothing(cmds);
    } else {
      if cmds == [] { NoCommands(); }
      CutStep(cmds, n);
      var m := |Print(cmds[0])|;
      if n >= m { CutLoads(cmds[1..], n - m); }
    }
  }

  lemma NoCommands()
    ensures PrintAll([]) == []
  {}

  lemma CutNothing(cmds: seq<Argv>)
    ensures LoadAll(PrintAll(cmds)[..0]).Some? && EndsCommand(cmds, 0)
  {
    assert PrintAll(cmds)[..0] == [];
  }

  lemma CutStep(cmds: seq<Argv>, n: nat)
    requires (forall i :: 0 <= i < |cmds| ==> 1 <= |cmds[i]| <= LONG_MAX) && cmds != [] && 0 < n <= |PrintAll(cmds)|
    ensures var m, t := |Print(cmds[0])|, PrintAll(cmds[1..]);
      if n < m then LoadAll(PrintAll(cmds)[..n]).None? && !EndsCommand(cmds, n)
      else
        && n - m <= |t| && EndsCommand(cmds, n) == EndsCommand(cmds[1..], n - m)
        && (LoadAll(PrintAll(cmds)[..n]).Some? <==> LoadAll(t[..n - m]).Some?)
  {
    hide *;
    FirstCut(cmds, n);
    var m := |Print(cmds[0])|;
    if n < m { CutCommandFails(cmds[0], n); } else { FirstLoads(cmds[0], PrintAll(cmds[1..])[..n - m]); }
  }

  lemma FirstCut(cmds: seq<Argv>, n: nat)
    requires cmds != [] && 0 < n <= |PrintAll(cmds)|
    ensures var p, t := Print(cmds[0]), PrintAll(cmds[1..]);
      if n < |p| then PrintAll(cmds)[..n] == p[..n] && !EndsCommand(cmds, n)
      else
        && n - |p| <= |t| && PrintAll(cmds)[..n] == p + t[..n - |p|]
        && EndsCommand(cmds, n) == EndsCommand(cmds[1..], n - |p|)
  {
    hide Print;
  }

  lemma FirstLoads(argv: Argv, t: seq<Byte>)
    requires 1 <= |argv| <= LONG_MAX
    ensures LoadAll(Print(argv) + t).Some? <==> LoadAll(t).Some?
  {
    CommandLoads(argv, t);
    LoadAllStep(Print(argv) + t);
    hide LoadCommand, LoadAll;
  }
}
