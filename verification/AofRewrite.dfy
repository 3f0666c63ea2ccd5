/** The dataset, what commands do to it, and the log rewrite of aof.c: a list of commands that
    rebuilds the dataset when it is replayed from nothing. */
module AofRewrite {
  import opened Basics
  import opened Bytes
  import opened Protocol

  datatype RawValue =
    | Text(text: Str)
    | List(items: seq<Str>)
    | Set(elems: set<Str>)
    | Hash(fields: map<Str, Str>)

  /** Keys with empty collections do not exist. */
  predicate NonEmpty(v: RawValue) {
    match v
    case Text(_) => true
    case List(items) => items != []
    case Set(elems) => elems != {}
    case Hash(fields) => fields != map[]
  }

  type Value = v: RawValue | NonEmpty(v) witness Text([])
  type Db = map<Str, Value>

  /** The databases and the one a client has selected. */
  datatype Client = Client(dbs: seq<Db>, sel: nat)

  /** What commands other than the ones below do is left open: any function of the databases, the
      selected one and the arguments. */
  type Other = (seq<Db>, nat, Argv) -> seq<Db>

  const SELECT: Str := [83, 69, 76, 69, 67, 84]
  const SET: Str := [83, 69, 84]
  const RPUSH: Str := [82, 80, 85, 83, 72]
  const SADD: Str := [83, 65, 68, 68]
  const HMSET: Str := [72, 77, 83, 69, 84]

  const ITEMS_PER_CMD: nat := 64

  datatype Kind = ListKind | SetKind | HashKind

  /** The command that adds to a collection, and how many arguments make up an item. */
  function CommandName(kind: Kind): Str {
    match kind case ListKind => RPUSH case SetKind => SADD case HashKind => HMSET
  }

  function Width(kind: Kind): nat {
    if kind.HashKind? then 2 else 1
  }

  function PutPairs(m: map<Str, Str>, args: seq<Str>): map<Str, Str>
    decreases |args|
  {
    if |args| < 2 then m else PutPairs(m[args[0] := args[1]], args[2..])
  }

  /** A collection with more items; None when the key holds something else. */
  function AddItems(kind: Kind, v: Option<RawValue>, args: seq<Str>): Option<RawValue> {
    match kind
    case ListKind =>
      if v.None? then Some(List(args)) else if v.value.List? then Some(List(v.value.items + args)) else None
    case SetKind =>
      var more := set a | a in args;
      if v.None? then Some(Set(more)) else if v.value.Set? then Some(Set(v.value.elems + more)) else None
    case HashKind =>
      if v.None? then Some(Hash(PutPairs(map[], args)))
      else if v.value.Hash? then Some(Hash(PutPairs(v.value.fields, args))) else None
  }

  function KindOf(argv: Argv): Option<Kind> {
    if argv == [] then None
    else if argv[0] == RPUSH && |argv| >= 3 then Some(ListKind)
    else if argv[0] == SADD && |argv| >= 3 then Some(SetKind)
    else if argv[0] == HMSET && |argv| >= 4 && |argv| % 2 == 0 then Some(HashKind)
    else None
  }

  function At(db: Db, key: Str): Option<RawValue> {
    if key in db then Some(db[key]) else None
  }

  function Stored(db: Db, key: Str, v: Value): Db {
    db[key := v]
  }

  function Put(c: Client, key: Str, v: Value): (r: Client)
    requires c.sel < |c.dbs|
    ensures |r.dbs| == |c.dbs| && r.sel == c.sel
  {
    c.(dbs := c.dbs[c.sel := Stored(c.dbs[c.sel], key, v)])
  }

  function Upper(b: Byte): Byte {
    if 97 <= b <= 122 then b - 32 else b
  }

  /** Command names are looked up in any case. */
  predicate IsSelect(name: Str) {
    |name| == 6 && forall i :: 0 <= i < 6 ==> Upper(name[i]) == SELECT[i]
  }

  /** What one command does to the databases of a client. */
  function Exec(other: Other, c: Client, argv: Argv): (r: Client)
    ensures |r.dbs| == |c.dbs| && (c.sel < |c.dbs| ==> r.sel < |r.dbs|)
    ensures argv != [] && !IsSelect(argv[0]) ==> r.sel == c.sel
  {
    if argv != [] && IsSelect(argv[0]) then
      if |argv| == 2 && ReadNumber(argv[1], 0) < |c.dbs| then c.(sel := ReadNumber(argv[1], 0)) else c
    else if c.sel >= |c.dbs| then c
    else if |argv| == 3 && argv[0] == SET then Put(c, argv[1], Text(argv[2]))
    else if KindOf(argv).Some? then
      var v := AddItems(KindOf(argv).value, At(c.dbs[c.sel], argv[1]), argv[2..]);
      if v.Some? && NonEmpty(v.value) then Put(c, argv[1], v.value) else c
    else
      var dbs := other(c.dbs, c.sel, argv);
      if |dbs| == |c.dbs| then c.(dbs := dbs) else c
  }

  function ExecAll(other: Other, c: Client, cmds: seq<Argv>): (r: Client)
    ensures |r.dbs| == |c.dbs| && (c.sel < |c.dbs| ==> r.sel < |r.dbs|)
    decreases |cmds|
  {
    if cmds == [] then c else ExecAll(other, Exec(other, c, cmds[0]), cmds[1..])
  }

  lemma {:induction false} ExecAllAppend(other: Other, c: Client, a: seq<Argv>, b: seq<Argv>)
    ensures ExecAll(other, c, a + b) == ExecAll(other, ExecAll(other, c, a), b)
    decreases |a|
  {
    if a == [] {
      assert a + b == b;
    } else {
      assert (a + b)[1..] == a[1..] + b;
      hide Exec;
      ExecAllAppend(other, Exec(other, c, a[0]), a[1..], b);
    }
  }

  function Empty(dbnum: nat): Client {
    Client(seq(dbnum, _ => map[]), 0)
  }

  /** loadAppendOnlyFile: a fake client runs the whole file from empty databases. */
  function Replay(other: Other, dbnum: nat, file: seq<Byte>): Option<Client> {
    var cmds := LoadAll(file);
    if cmds.None? then None else Some(ExecAll(other, Empty(dbnum), cmds.value))
  }

  /** Appending the printed form of commands to a log replays them after what was there. */
  lemma ReplayAppend(other: Other, dbnum: nat, file: seq<Byte>, cmds: seq<Argv>)
    requires Replay(other, dbnum, file).Some?
    requires forall i :: 0 <= i < |cmds| ==> 1 <= |cmds[i]| <= LONG_MAX
    ensures Replay(other, dbnum, file + PrintAll(cmds)) == Some(ExecAll(other, Replay(other, dbnum, file).value, cmds))
  {
    AllLoad(cmds);
    LoadAppend(file, PrintAll(cmds));
    ExecAllAppend(other, Empty(dbnum), LoadAll(file).value, cmds);
    hide ExecAll, LoadAll, PrintAll;
  }

  // ---------------------------------------------------------------- the commands of a rewrite

  /** A key, its value, and the value's items in the order the rewrite meets them. */
  datatype Entry = Entry(key: Str, value: Value, args: seq<Str>)

  function KeyAt(args: seq<Str>, i: nat): Str {
    if 2 * i < |args| then args[2 * i] else []
  }

  function ValAt(args: seq<Str>, i: nat): Str {
    if 2 * i + 1 < |args| then args[2 * i + 1] else []
  }

  /** Arguments that are fields, each followed by its value. */
  ghost predicate PairsOf(args: seq<Str>, fields: map<Str, Str>) {
    |args| % 2 == 0 && forall i :: 0 <= i < |args| / 2 ==>
      KeyAt(args, i) in fields && fields[KeyAt(args, i)] == ValAt(args, i)
  }

  ghost predicate Lists(v: RawValue, args: seq<Str>) {
    match v
    case Text(_) => true
    case List(items) => args == items
    case Set(elems) =>
      (forall e :: e in elems <==> e in args) && forall i, j :: 0 <= i < j < |args| ==> args[i] != args[j]
    case Hash(fields) =>
      && |args| == 2 * |fields| && PairsOf(args, fields)
      && forall f :: f in fields ==> exists i :: 0 <= i < |fields| && KeyAt(args, i) == f
  }

  /** The entries a dictionary iteration over db returns: every key once, in any order. */
  ghost predicate Iterates(entries: seq<Entry>, db: Db) {
    && (forall i :: 0 <= i < |entries| ==>
          entries[i].key in db && db[entries[i].key] == entries[i].value && Lists(entries[i].value, entries[i].args))
    && (forall i, j :: 0 <= i < j < |entries| ==> entries[i].key != entries[j].key)
    && forall k :: k in db ==> exists i :: 0 <= i < |entries| && entries[i].key == k
  }

  /** At most 64 items a command. */
  function Batches(kind: Kind, key: Str, args: seq<Str>): seq<Argv>
    decreases |args|
  {
    if args == [] then []
    else
      var n := Min(ITEMS_PER_CMD * Width(kind), |args|);
      [[CommandName(kind), key] + args[..n]] + Batches(kind, key, args[n..])
  }

  lemma SliceOfRest(args: seq<Str>, n: nat, a: nat, b: nat)
    requires a <= b && n + b <= |args|
    ensures args[n..][a..b] == args[n + a..n + b]
  {}

  function ArgsPerCommand(kind: Kind): nat {
    if kind.HashKind? then 128 else 64
  }

  lemma {:induction false} BatchCount(kind: Kind, key: Str, args: seq<Str>)
    ensures var n := ArgsPerCommand(kind); |args| <= n * |Batches(kind, key, args)| < |args| + n
    decreases |args|
  {
    hide CommandName;
    if args != [] { BatchCount(kind, key, args[Min(ArgsPerCommand(kind), |args|)..]); }
  }

  /** The i-th command holds the i-th 64 items, which for a hash are 128 arguments. */
  lemma {:induction false} BatchesAreSlices(kind: Kind, key: Str, args: seq<Str>, i: nat)
    requires i < |Batches(kind, key, args)|
    ensures var n := ArgsPerCommand(kind);
      && n * i < |args|
      && Batches(kind, key, args)[i] == [CommandName(kind), key] + args[n * i..Min(n * (i + 1), |args|)]
    decreases |args|
  {
    hide CommandName;
    var n := ArgsPerCommand(kind);
    var rest := args[Min(n, |args|)..];
    assert Batches(kind, key, args)[1..] == Batches(kind, key, rest);
    if i > 0 {
      BatchesAreSlices(kind, key, rest, i - 1);
      assert n + n * (i - 1) == n * i;
      SliceOfRest(args, n, n * (i - 1), Min(n * i, |rest|));
    }
  }

  function Spelled(name: string): (s: seq<int>)
    ensures |s| == |name|
  {
    seq(|name|, i requires 0 <= i < |name| => name[i] as int)
  }

  /** The commands are called by their names. */
  lemma CommandNames()
    ensures SELECT == Spelled("SELECT") && SET == Spelled("SET")
    ensures CommandName(ListKind) == Spelled("RPUSH") && CommandName(SetKind) == Spelled("SADD")
    ensures CommandName(HashKind) == Spelled("HMSET")
  {}

  function EntryCommands(e: Entry): seq<Argv> {
    match e.value
    case Text(text) => [[SET, e.key, text]]
    case List(_) => Batches(ListKind, e.key, e.args)
    case Set(_) => Batches(SetKind, e.key, e.args)
    case Hash(_) => Batches(HashKind, e.key, e.args)
  }

  function EntriesCommands(entries: seq<Entry>): seq<Argv> {
    if entries == [] then [] else EntryCommands(entries[0]) + EntriesCommands(entries[1..])
  }

  function SelectCommand(db: nat): Argv
    requires db <= LONG_MAX
  {
    ShortDigits(db);
    [SELECT, Digits(db)]
  }

  /** The commands for the databases from number j on; empty databases are passed over. */
  function Commands(order: seq<seq<Entry>>, j: nat): seq<Argv>
    requires |order| <= LONG_MAX
    decreases |order| - j
  {
    if j >= |order| then []
    else if order[j] == [] then Commands(order, j + 1)
    else [SelectCommand(j)] + EntriesCommands(order[j]) + Commands(order, j + 1)
  }

  // ---------------------------------------------------------------- a rewrite rebuilds the dataset

  lemma {:induction false} PutPairsAppend(m: map<Str, Str>, a: seq<Str>, b: seq<Str>)
    requires |a| % 2 == 0
    ensures PutPairs(m, a + b) == PutPairs(PutPairs(m, a), b)
    decreases |a|
  {
    if a == [] {
      assert a + b == b;
    } else {
      assert (a + b)[2..] == a[2..] + b;
      PutPairsAppend(m[a[0] := a[1]], a[2..], b);
    }
  }

  /** Adding items in two parts is adding them at once. */
  lemma AddItemsAppend(kind: Kind, v: Option<RawValue>, a: seq<Str>, b: seq<Str>)
    requires |a| % Width(kind) == 0 && AddItems(kind, v, a).Some?
    ensures AddItems(kind, v, a + b) == AddItems(kind, AddItems(kind, v, a), b)
  {
    match kind
    case ListKind => if v.Some? { assert v.value.items + (a + b) == (v.value.items + a) + b; }
    case SetKind =>
      assert (set x | x in a + b) == (set x | x in a) + (set x | x in b);
      if v.Some? {
        assert v.value.elems + ((set x | x in a) + (set x | x in b)) == (v.value.elems + (set x | x in a))
          + (set x | x in b);
      }
    case HashKind =>
      PutPairsAppend(map[], a, b);
      if v.Some? { PutPairsAppend(v.value.fields, a, b); }
  }

  lemma {:induction false} PutPairsNonEmpty(m: map<Str, Str>, args: seq<Str>)
    requires m != map[] || |args| >= 2
    ensures PutPairs(m, args) != map[]
    decreases |args|
  {
    if |args| >= 2 {
      assert args[0] in m[args[0] := args[1]];
      PutPairsNonEmpty(m[args[0] := args[1]], args[2..]);
    }
  }

  lemma AddItemsNonEmpty(kind: Kind, v: Option<RawValue>, args: seq<Str>)
    requires |args| >= Width(kind) && AddItems(kind, v, args).Some?
    ensures NonEmpty(AddItems(kind, v, args).value)
  {
    if kind.SetKind? {
      var more := set a | a in args;
      assert args[0] in more;
      if v.Some? { assert args[0] in v.value.elems + more; }
    }
    if kind.HashKind? {
      PutPairsNonEmpty(map[], args);
      if v.Some? { PutPairsNonEmpty(v.value.fields, args); }
    }
  }

  /** One command of a batch. */
  lemma AddCommand(other: Other, c: Client, kind: Kind, key: Str, args: seq<Str>)
    requires c.sel < |c.dbs| && |args| >= Width(kind) && |args| % Width(kind) == 0
    requires AddItems(kind, At(c.dbs[c.sel], key), args).Some?
    ensures var v := AddItems(kind, At(c.dbs[c.sel], key), args);
      NonEmpty(v.value) && Exec(other, c, [CommandName(kind), key] + args) == Put(c, key, v.value)
  {
    var argv := [CommandName(kind), key] + args;
    assert argv[2..] == args && argv[0] == CommandName(kind) && argv[1] == key;
    AddItemsNonEmpty(kind, At(c.dbs[c.sel], key), args);
    hide AddItems;
    assert KindOf(argv) == Some(kind);
  }

  lemma PutTwice(c: Client, key: Str, v: Value, w: Value)
    requires c.sel < |c.dbs|
    ensures Put(Put(c, key, v), key, w) == Put(c, key, w) && At(Put(c, key, v).dbs[c.sel], key) == Some(v)
  {
    assert Stored(Stored(c.dbs[c.sel], key, v), key, w) == Stored(c.dbs[c.sel], key, w);
  }

  lemma ExecAllCons(other: Other, c: Client, first: Argv, rest: seq<Argv>)
    ensures ExecAll(other, c, [first] + rest) == ExecAll(other, Exec(other, c, first), rest)
  {
    assert ([first] + rest)[1..] == rest;
    hide Exec;
  }

  /** The batches of a collection add all of its items. */
  lemma {:induction false} BatchesAdd(other: Other, c: Client, kind: Kind, key: Str, args: seq<Str>)
    requires c.sel < |c.dbs| && args != [] && |args| % Width(kind) == 0
    requires AddItems(kind, At(c.dbs[c.sel], key), args).Some?
    ensures var v := AddItems(kind, At(c.dbs[c.sel], key), args);
      NonEmpty(v.value) && ExecAll(other, c, Batches(kind, key, args)) == Put(c, key, v.value)
    decreases |args|
  {
    var n := Min(ITEMS_PER_CMD * Width(kind), |args|);
    var a, b := args[..n], args[n..];
    assert args == a + b && |a| % Width(kind) == 0 && |b| % Width(kind) == 0 && |a| >= Width(kind);
    var v0 := At(c.dbs[c.sel], key);
    assert AddItems(kind, v0, a).Some?;
    assert Batches(kind, key, args) == [[CommandName(kind), key] + a] + Batches(kind, key, b);
    assert b == [] ==> a == args && Batches(kind, key, b) == [];
    hide Exec, AddItems, At, Put, NonEmpty, CommandName, Batches;
    AddItemsAppend(kind, v0, a, b);
    AddItemsNonEmpty(kind, v0, args);
    AddCommand(other, c, kind, key, a);
    var v := AddItems(kind, v0, a).value;
    ExecAllCons(other, c, [CommandName(kind), key] + a, Batches(kind, key, b));
    if b != [] {
      PutTwice(c, key, v, AddItems(kind, v0, args).value);
      BatchesAdd(other, Put(c, key, v), kind, key, b);
    }
  }

  lemma PairsTail(args: seq<Str>, fields: map<Str, Str>)
    requires args != [] && PairsOf(args, fields)
    ensures PairsOf(args[2..], fields) && args[0] in fields && fields[args[0]] == args[1]
    ensures forall i :: 0 < i < |args| / 2 ==> KeyAt(args, i) == KeyAt(args[2..], i - 1)
  {
    assert KeyAt(args, 0) == args[0];
    forall i | 0 <= i < |args[2..]| / 2
      ensures KeyAt(args[2..], i) in fields && fields[KeyAt(args[2..], i)] == ValAt(args[2..], i) {
      assert KeyAt(args[2..], i) == KeyAt(args, i + 1) && ValAt(args[2..], i) == ValAt(args, i + 1);
    }
  }

  lemma {:induction false} PairsPut(m: map<Str, Str>, args: seq<Str>, fields: map<Str, Str>)
    requires PairsOf(args, fields)
    ensures var r := PutPairs(m, args);
      && (forall i :: 0 <= i < |args| / 2 ==> KeyAt(args, i) in r)
      && (forall f :: f in m ==> f in r)
      && forall f :: f in r ==> (f in fields && r[f] == fields[f]) || (f in m && r[f] == m[f])
    decreases |args|
  {
    if args != [] {
      PairsTail(args, fields);
      assert KeyAt(args, 0) == args[0];
      hide KeyAt, PairsOf;
      PairsPut(m[args[0] := args[1]], args[2..], fields);
    }
  }

  lemma ListedHash(fields: map<Str, Str>, args: seq<Str>)
    requires Lists(Hash(fields), args) && fields != map[]
    ensures args != [] && |args| % 2 == 0 && PutPairs(map[], args) == fields
  {
    PairsPut(map[], args, fields);
    hide KeyAt, PairsOf;
    var r := PutPairs(map[], args);
    forall f | f in fields ensures f in r {
      var i :| 0 <= i < |fields| && KeyAt(args, i) == f;
    }
    assert |fields| > 0;
  }

  /** The items of a listed collection, added to nothing, are the collection. */
  lemma ListedItems(v: Value, args: seq<Str>)
    requires Lists(v, args) && !v.Text?
    ensures var kind := if v.List? then ListKind else if v.Set? then SetKind else HashKind;
      args != [] && |args| % Width(kind) == 0 && AddItems(kind, None, args) == Some(v)
  {
    match v
    case List(_) =>
    case Set(elems) =>
      assert (set a | a in args) == elems;
      assert args == [] ==> elems == {};
    case Hash(fields) =>
      ListedHash(fields, args);
      hide Lists, PutPairs;
  }

  /** The commands of one key put its value there. */
  lemma EntryRebuilds(other: Other, c: Client, e: Entry)
    requires c.sel < |c.dbs| && e.key !in c.dbs[c.sel] && Lists(e.value, e.args)
    ensures ExecAll(other, c, EntryCommands(e)) == Put(c, e.key, e.value)
  {
    if e.value.Text? {
      var cmd := [SET, e.key, e.value.text];
      ExecAllCons(other, c, cmd, []);
      assert [cmd] + [] == [cmd];
    } else {
      ListedItems(e.value, e.args);
      hide Lists, AddItems, Batches, ExecAll;
      BatchesAdd(other, c, if e.value.List? then ListKind else if e.value.Set? then SetKind
        else HashKind, e.key, e.args);
    }
  }

  ghost predicate Holds(db: Db, entries: seq<Entry>, before: Db) {
    && (forall i :: 0 <= i < |entries| ==> entries[i].key in db && db[entries[i].key] == entries[i].value)
    && (forall k :: k in before ==> k in db && db[k] == before[k])
    && forall k :: k in db ==> k in before || exists i :: 0 <= i < |entries| && entries[i].key == k
  }

  lemma {:induction false} EntriesRebuild(other: Other, c: Client, entries: seq<Entry>)
    requires c.sel < |c.dbs| && forall i :: 0 <= i < |entries| ==>
      entries[i].key !in c.dbs[c.sel] && Lists(entries[i].value, entries[i].args)
    requires forall i, j :: 0 <= i < j < |entries| ==> entries[i].key != entries[j].key
    ensures var r := ExecAll(other, c, EntriesCommands(entries));
      r.sel == c.sel && Holds(r.dbs[c.sel], entries, c.dbs[c.sel]) && r == c.(dbs := c.dbs[c.sel := r.dbs[c.sel]])
    decreases |entries|
  {
    if entries != [] {
      var e, rest := entries[0], entries[1..];
      EntryRebuilds(other, c, e);
      var c' := Put(c, e.key, e.value);
      ExecAllAppend(other, c, EntryCommands(e), EntriesCommands(rest));
      forall i | 0 <= i < |rest| ensures rest[i].key != e.key && rest[i] == entries[i + 1] {}
      hide ExecAll, Lists, EntryCommands;
      EntriesRebuild(other, c', rest);
      HoldsMore(ExecAll(other, c', EntriesCommands(rest)).dbs[c.sel], entries, c.dbs[c.sel]);
    }
  }

  lemma HoldsMore(db: Db, entries: seq<Entry>, before: Db)
    requires entries != [] && entries[0].key !in before
    requires Holds(db, entries[1..], Stored(before, entries[0].key, entries[0].value))
    ensures Holds(db, entries, before)
  {
    var rest := entries[1..];
    forall i | 0 <= i < |entries| ensures entries[i].key in db && db[entries[i].key] == entries[i].value {
      if i > 0 { assert entries[i] == rest[i - 1]; }
    }
    forall k | k in db && k !in before ensures exists i :: 0 <= i < |entries| && entries[i].key == k {
      if k == entries[0].key {
      } else {
        var i :| 0 <= i < |rest| && rest[i].key == k;
        assert entries[i + 1].key == k;
      }
    }
  }

  lemma SelectRuns(other: Other, c: Client, j: nat)
    requires j < |c.dbs| && j <= LONG_MAX
    ensures Exec(other, c, SelectCommand(j)) == c.(sel := j)
  {
    ValueOfDigits(j, []);
    ShortDigits(j);
    assert Digits(j) + [] == Digits(j);
  }

  lemma HoldsExactly(db: Db, entries: seq<Entry>, target: Db)
    requires Iterates(entries, target) && Holds(db, entries, map[])
    ensures db == target
  {
    forall k ensures k in db <==> k in target {
      if k in target { var i :| 0 <= i < |entries| && entries[i].key == k; }
      if k in db { var i :| 0 <= i < |entries| && entries[i].key == k; }
    }
    forall k | k in db ensures db[k] == target[k] {
      var i :| 0 <= i < |entries| && entries[i].key == k;
    }
  }

  /** One database: SELECT, then the commands of its keys. */
  lemma DbRebuilds(other: Other, c: Client, entries: seq<Entry>, j: nat, db: Db)
    requires j < |c.dbs| && j <= LONG_MAX && c.dbs[j] == map[] && Iterates(entries, db)
    ensures ExecAll(other, c, [SelectCommand(j)] + EntriesCommands(entries)) == Client(c.dbs[j := db], j)
  {
    ExecAllCons(other, c, SelectCommand(j), EntriesCommands(entries));
    SelectRuns(other, c, j);
    hide ExecAll, Lists, EntriesCommands, SelectCommand, Exec;
    var c' := c.(sel := j);
    EntriesRebuild(other, c', entries);
    HoldsExactly(ExecAll(other, c', EntriesCommands(entries)).dbs[j], entries, db);
  }

  ghost predicate AllIterate(order: seq<seq<Entry>>, dbs: seq<Db>) {
    |order| == |dbs| <= LONG_MAX && forall j :: 0 <= j < |dbs| ==> Iterates(order[j], dbs[j])
  }

  lemma {:induction false} CommandsRebuild(other: Other, c: Client, order: seq<seq<Entry>>, j: nat, dbs: seq<Db>)
    requires AllIterate(order, dbs) && |c.dbs| == |dbs| && j <= |dbs|
    requires (forall i :: 0 <= i < j ==> c.dbs[i] == dbs[i]) && forall i :: j <= i < |dbs| ==> c.dbs[i] == map[]
    ensures ExecAll(other, c, Commands(order, j)).dbs == dbs
    decreases |dbs| - j
  {
    hide *;
    IterateParts(order, dbs, j);
    if j == |dbs| {
      CommandsEnd(order);
      ExecNothing(other, c);
      assert c.dbs == dbs;
    } else if order[j] == [] {
      CommandsStep(order, j);
      NoEntries(dbs[j]);
      CommandsRebuild(other, c, order, j + 1, dbs);
    } else {
      CommandsStep(order, j);
      DbRebuilds(other, c, order[j], j, dbs[j]);
      ExecAllAppend(other, c, [SelectCommand(j)] + EntriesCommands(order[j]), Commands(order, j + 1));
      CommandsRebuild(other, Client(c.dbs[j := dbs[j]], j), order, j + 1, dbs);
    }
  }

  lemma IterateParts(order: seq<seq<Entry>>, dbs: seq<Db>, j: nat)
    requires AllIterate(order, dbs)
    ensures |order| == |dbs| <= LONG_MAX && (j < |dbs| ==> Iterates(order[j], dbs[j]))
  {}

  lemma CommandsStep(order: seq<seq<Entry>>, j: nat)
    requires j < |order| <= LONG_MAX
    ensures Commands(order, j) == if order[j] == [] then Commands(order, j + 1)
                                  else [SelectCommand(j)] + EntriesCommands(order[j]) + Commands(order, j + 1)
  {}

  lemma CommandsEnd(order: seq<seq<Entry>>)
    requires |order| <= LONG_MAX
    ensures Commands(order, |order|) == []
  {}

  lemma ExecNothing(other: Other, c: Client)
    ensures ExecAll(other, c, []) == c
  {}

  lemma NoEntries(db: Db)
    requires Iterates([], db)
    ensures db == map[]
  {
    assert forall k :: k !in db;
  }

  // ---------------------------------------------------------------- the loops that write it

  /** What is still to be written after `count` items of a command whose header is written: the rest of
      that command, and the commands after it. */
  function Started(kind: Kind, key: Str, count: nat, args: seq<Str>): seq<Byte>
    requires count < ITEMS_PER_CMD
  {
    var k := ArgsLeft(kind, count, |args|);
    PrintArgs(args[..k]) + PrintAll(Batches(kind, key, args[k..]))
  }

  /** How many of n arguments still fit into a command that has `count` items. */
  function ArgsLeft(kind: Kind, count: nat, n: nat): (k: nat)
    requires count < ITEMS_PER_CMD
    ensures k <= n
  {
    Min((ITEMS_PER_CMD - count) * Width(kind), n)
  }

  function Pending(kind: Kind, key: Str, count: nat, args: seq<Str>): seq<Byte>
    requires count < ITEMS_PER_CMD
  {
    if count == 0 then PrintAll(Batches(kind, key, args)) else Started(kind, key, count, args)
  }

  function BatchHeader(kind: Kind, key: Str, n: nat): seq<Byte> {
    Header(STAR, 2 + n) + PrintArg(CommandName(kind)) + PrintArg(key)
  }

  lemma TwoArgs(a: Str, b: Str, more: seq<Str>)
    ensures PrintArgs([a, b] + more) == (PrintArg(a) + PrintArg(b)) + PrintArgs(more)
  {
    assert ([a, b] + more)[1..] == [b] + more && ([b] + more)[1..] == more;
    hide PrintArg;
    Assoc(PrintArg(a), PrintArg(b), PrintArgs(more));
  }

  lemma PrintBatch(kind: Kind, key: Str, a: seq<Str>)
    ensures Print([CommandName(kind), key] + a) == BatchHeader(kind, key, |a|) + PrintArgs(a)
  {
    var name := CommandName(kind);
    var h := Header(STAR, 2 + |a|);
    assert |[name, key] + a| == 2 + |a|;
    hide PrintArg, Header, CommandName, PrintArgs;
    TwoArgs(name, key, a);
    Assoc(h, PrintArg(name) + PrintArg(key), PrintArgs(a));
    Assoc(h, PrintArg(name), PrintArg(key));
  }

  lemma PrintAllCons(cmd: Argv, rest: seq<Argv>)
    ensures PrintAll([cmd] + rest) == Print(cmd) + PrintAll(rest)
  {
    assert ([cmd] + rest)[1..] == rest;
    hide Print;
  }

  lemma StartBatch(kind: Kind, key: Str, args: seq<Str>)
    requires args != []
    ensures Pending(kind, key, 0, args)
         == BatchHeader(kind, key, Min(ITEMS_PER_CMD * Width(kind), |args|)) + Started(kind, key, 0, args)
  {
    var n := Min(ITEMS_PER_CMD * Width(kind), |args|);
    var a, b := args[..n], args[n..];
    assert Batches(kind, key, args) == [[CommandName(kind), key] + a] + Batches(kind, key, b);
    hide BatchHeader, PrintAll, Print, PrintArgs, Width, CommandName, Batches;
    PrintBatch(kind, key, a);
    PrintAllCons([CommandName(kind), key] + a, Batches(kind, key, b));
    Assoc(BatchHeader(kind, key, n), PrintArgs(a), PrintAll(Batches(kind, key, b)));
  }

  lemma TakeMore<T>(first: seq<T>, rest: seq<T>, m: nat)
    requires m <= |rest|
    ensures (first + rest)[..|first| + m] == first + rest[..m] && (first + rest)[|first| + m..] == rest[m..]
  {}

  /** The end of a command, m arguments after the current item. */
  lemma OneItemFrom(kind: Kind, key: Str, first: seq<Str>, rest: seq<Str>, m: nat)
    requires m <= |rest|
    ensures var args := first + rest;
      PrintArgs(args[..|first| + m]) + PrintAll(Batches(kind, key, args[|first| + m..]))
      == PrintArgs(first) + (PrintArgs(rest[..m]) + PrintAll(Batches(kind, key, rest[m..])))
  {
    hide *;
    TakeMore(first, rest, m);
    PrintArgsAppend(first, rest[..m]);
    Assoc(PrintArgs(first), PrintArgs(rest[..m]), PrintAll(Batches(kind, key, rest[m..])));
  }

  lemma NoArgsLeft(kind: Kind, key: Str, rest: seq<Str>)
    ensures PrintArgs(rest[..0]) + PrintAll(Batches(kind, key, rest[0..])) == PrintAll(Batches(kind, key, rest))
  {
    assert rest[0..] == rest && PrintArgs(rest[..0]) == [];
  }

  lemma ArgsLeftStep(kind: Kind, count: nat, w: nat, n: nat)
    requires count < ITEMS_PER_CMD && w == Width(kind)
    ensures ArgsLeft(kind, count, w + n) == w + if count + 1 == ITEMS_PER_CMD then 0 else ArgsLeft(kind, count + 1, n)
  {}

  /** One item of the current command. */
  lemma OneItem(kind: Kind, key: Str, count: nat, first: seq<Str>, rest: seq<Str>, next: nat)
    requires count < ITEMS_PER_CMD && Width(kind) == |first| && next == if count + 1 == ITEMS_PER_CMD then 0
      else count + 1
    ensures Started(kind, key, count, first + rest) == PrintArgs(first) + Pending(kind, key, next, rest)
  {
    hide PrintArgs, PrintAll, Batches, Width, ArgsLeft;
    ArgsLeftStep(kind, count, |first|, |rest|);
    assert |first + rest| == |first| + |rest|;
    if next == 0 {
      OneItemFrom(kind, key, first, rest, 0);
      NoArgsLeft(kind, key, rest);
    } else {
      OneItemFrom(kind, key, first, rest, ArgsLeft(kind, next, |rest|));
    }
  }

  lemma NothingPending(kind: Kind, key: Str, count: nat)
    requires count < ITEMS_PER_CMD
    ensures Pending(kind, key, count, []) == []
  {
    assert PrintArgs([]) == [] && PrintAll([]) == [] && Batches(kind, key, []) == [];
  }

  /** The loop of rewriteListObject, rewriteSetObject and rewriteHashObject. */
  method WriteItems(kind: Kind, key: Str, args0: seq<Str>) returns (out: seq<Byte>)
    requires |args0| % Width(kind) == 0
    ensures out == PrintAll(Batches(kind, key, args0))
  {
    var w := Width(kind);
    assert w == 1 || w == 2;
    out := [];
    var args, count: nat, items := args0, 0, |args0| / w;
    ghost var goal := PrintAll(Batches(kind, key, args0));
    assert Pending(kind, key, 0, args0) == goal;
    hide *;
    while args != []
      invariant count < ITEMS_PER_CMD && |args| == items * w
      invariant out + Pending(kind, key, count, args) == goal
      decreases |args|
    {
      FirstItem(w, items, args);
      if count == 0 {
        StartBatch(kind, key, args);
        var cmd_items := if items > ITEMS_PER_CMD then ITEMS_PER_CMD else items;
        Assoc(out, BatchHeader(kind, key, cmd_items * w), Started(kind, key, 0, args));
        out := out + BatchHeader(kind, key, cmd_items * w);
      } else {
        PendingIsStarted(kind, key, count, args);
      }
      out, args, count := WriteItem(kind, key, count, args, out);
      items := items - 1;
    }
    NothingPending(kind, key, count);
  }

  /** The end of the loop's body: one item, and the count of items in the current command. */
  method WriteItem(kind: Kind, key: Str, count: nat, args: seq<Str>, out: seq<Byte>)
    returns (out': seq<Byte>, args': seq<Str>, count': nat)
    requires count < ITEMS_PER_CMD && Width(kind) <= |args|
    ensures count' < ITEMS_PER_CMD && |args'| == |args| - Width(kind)
    ensures out' + Pending(kind, key, count', args') == out + Started(kind, key, count, args)
  {
    var w := Width(kind);
    var item := args[..w];
    args' := args[w..];
    assert item + args' == args;
    count' := count + 1;
    if count' == ITEMS_PER_CMD { count' := 0; }
    hide *;
    OneItem(kind, key, count, item, args', count');
    Assoc(out, PrintArgs(item), Pending(kind, key, count', args'));
    out' := out + PrintArgs(item);
  }

  lemma FirstItem(w: nat, items: int, args: seq<Str>)
    requires w in {1, 2} && |args| == items * w && args != []
    ensures |args| >= w && (items - 1) * w == |args| - w
    ensures (if items > ITEMS_PER_CMD then ITEMS_PER_CMD else items) * w == Min(ITEMS_PER_CMD * w, |args|)
  {}

  lemma PendingIsStarted(kind: Kind, key: Str, count: nat, args: seq<Str>)
    requires 0 < count < ITEMS_PER_CMD
    ensures Pending(kind, key, count, args) == Started(kind, key, count, args)
  {}

  // ---------------------------------------------------------------- the whole rewrite

  /** The part of rewriteAppendOnlyFile for one key. */
  method WriteEntry(e: Entry) returns (out: seq<Byte>)
    requires Lists(e.value, e.args)
    ensures out == PrintAll(EntryCommands(e))
  {
    match e.value
    case Text(text) =>
      out := CatGenericCommand([], [SET, e.key, text]);
      PrintAllCons([SET, e.key, text], []);
      assert [[SET, e.key, text]] + [] == [[SET, e.key, text]];
    case List(_) =>
      ListedItems(e.value, e.args);
      out := WriteItems(ListKind, e.key, e.args);
    case Set(_) =>
      ListedItems(e.value, e.args);
      out := WriteItems(SetKind, e.key, e.args);
    case Hash(_) =>
      ListedItems(e.value, e.args);
      out := WriteItems(HashKind, e.key, e.args);
  }

  lemma EntryPrinted(entries: seq<Entry>, i: nat, out: seq<Byte>)
    requires i < |entries|
    ensures out + PrintAll(EntryCommands(entries[i])) + PrintAll(EntriesCommands(entries[i + 1..]))
         == out + PrintAll(EntriesCommands(entries[i..]))
  {
    hide *;
    EntriesStep(entries, i);
    PrintAllAppend(EntryCommands(entries[i]), EntriesCommands(entries[i + 1..]));
    Assoc(out, PrintAll(EntryCommands(entries[i])), PrintAll(EntriesCommands(entries[i + 1..])));
  }

  method WriteEntries(entries: seq<Entry>) returns (out: seq<Byte>)
    requires forall i :: 0 <= i < |entries| ==> Lists(entries[i].value, entries[i].args)
    ensures out == PrintAll(EntriesCommands(entries))
  {
    hide *;
    out := [];
    var i := 0;
    ghost var goal := PrintAll(EntriesCommands(entries));
    assert entries[0..] == entries;
    while i < |entries|
      invariant i <= |entries| && out + PrintAll(EntriesCommands(entries[i..])) == goal
    {
      var bytes := WriteEntry(entries[i]);
      EntryPrinted(entries, i, out);
      out := out + bytes;
      i := i + 1;
    }
    NothingPrinted(entries);
  }

  lemma EntriesStep(entries: seq<Entry>, i: nat)
    requires i < |entries|
    ensures EntriesCommands(entries[i..]) == EntryCommands(entries[i]) + EntriesCommands(entries[i + 1..])
  {
    assert entries[i..][1..] == entries[i + 1..];
  }

  lemma NothingPrinted<T>(s: seq<T>)
    ensures PrintAll([]) == [] && EntriesCommands([]) == [] && s[|s|..] == []
  {}

  lemma {:induction false} BatchesFit(kind: Kind, key: Str, args: seq<Str>)
    ensures forall i :: 0 <= i < |Batches(kind, key, args)| ==> 1 <= |Batches(kind, key, args)[i]| <= LONG_MAX
    decreases |args|
  {
    if args != [] { BatchesFit(kind, key, args[Min(ITEMS_PER_CMD * Width(kind), |args|)..]); }
  }

  lemma {:induction false} EntriesFit(entries: seq<Entry>)
    ensures forall i :: 0 <= i < |EntriesCommands(entries)| ==> 1 <= |EntriesCommands(entries)[i]| <= LONG_MAX
  {
    if entries != [] {
      BatchesFit(ListKind, entries[0].key, entries[0].args);
      BatchesFit(SetKind, entries[0].key, entries[0].args);
      BatchesFit(HashKind, entries[0].key, entries[0].args);
      hide Batches;
      EntriesFit(entries[1..]);
    }
  }

  lemma {:induction false} CommandsFit(order: seq<seq<Entry>>, j: nat)
    requires |order| <= LONG_MAX
    ensures forall i :: 0 <= i < |Commands(order, j)| ==> 1 <= |Commands(order, j)[i]| <= LONG_MAX
    decreases |order| - j
  {
    if j < |order| {
      CommandsFit(order, j + 1);
      EntriesFit(order[j]);
      hide EntriesCommands;
    }
  }

  /** The rewritten file loads, and loading it rebuilds exactly the dataset it was written from, in
      whatever order the dictionaries were walked. */
  lemma RewriteRebuilds(other: Other, order: seq<seq<Entry>>, dbs: seq<Db>)
    requires AllIterate(order, dbs)
    ensures var r := Replay(other, |dbs|, PrintAll(Commands(order, 0))); r.Some? && r.value.dbs == dbs
  {
    CommandsFit(order, 0);
    AllLoad(Commands(order, 0));
    CommandsRebuild(other, Empty(|dbs|), order, 0, dbs);
  }

  /** rewriteAppendOnlyFile, given the entries its dictionary iterators return: loading what it writes gives the
      databases. */
  method RewriteAppendOnlyFile(ghost other: Other, order: seq<seq<Entry>>, ghost dbs: seq<Db>) returns (out: seq<Byte>)
    requires AllIterate(order, dbs)
    ensures out == PrintAll(Commands(order, 0))
    ensures Replay(other, |dbs|, out).Some? && Replay(other, |dbs|, out).value.dbs == dbs
  {
    hide *;
    out := WriteDatabases(order, dbs);
    RewriteRebuilds(other, order, dbs);
  }

  method WriteDatabases(order: seq<seq<Entry>>, ghost dbs: seq<Db>) returns (out: seq<Byte>)
    requires AllIterate(order, dbs)
    ensures out == PrintAll(Commands(order, 0))
  {
    hide *;
    IterateParts(order, dbs, 0);
    out := [];
    var j: nat := 0;
    ghost var goal := PrintAll(Commands(order, 0));
    while j < |order|
      invariant j <= |order| && out + PrintAll(Commands(order, j)) == goal
    {
      out := WriteNext(order, j, out, dbs);
      j := j + 1;
    }
    CommandsEnd(order);
    NothingPrinted(order);
  }

  /** One turn of the loop over the databases. */
  method WriteNext(order: seq<seq<Entry>>, j: nat, out: seq<Byte>, ghost dbs: seq<Db>) returns (out': seq<Byte>)
    requires AllIterate(order, dbs) && j < |order| <= LONG_MAX
    ensures out' + PrintAll(Commands(order, j + 1)) == out + PrintAll(Commands(order, j))
  {
    hide *;
    CommandsStep(order, j);
    if order[j] == [] { return out; }
    AllListed(order, dbs, j);
    out' := WriteDatabase(order, j, out);
  }

  lemma AllListed(order: seq<seq<Entry>>, dbs: seq<Db>, j: nat)
    requires AllIterate(order, dbs) && j < |order|
    ensures forall i :: 0 <= i < |order[j]| ==> Lists(order[j][i].value, order[j][i].args)
  {
    assert Iterates(order[j], dbs[j]);
    hide Lists;
  }

  method WriteDatabase(order: seq<seq<Entry>>, j: nat, out: seq<Byte>) returns (out': seq<Byte>)
    requires j < |order| <= LONG_MAX && order[j] != []
    requires forall i :: 0 <= i < |order[j]| ==> Lists(order[j][i].value, order[j][i].args)
    ensures out' + PrintAll(Commands(order, j + 1)) == out + PrintAll(Commands(order, j))
  {
    hide Lists, EntriesCommands, PrintAll, SelectCommand, Print;
    var a, b, c := SelectCommand(j), EntriesCommands(order[j]), Commands(order, j + 1);
    PrintAllAppend([a] + b, c);
    PrintAllCons(a, b);
    var select := CatGenericCommand([], a);
    var bytes := WriteEntries(order[j]);
    Assoc(out, select + bytes, PrintAll(c));
    out' := out + (select + bytes);
  }
}
