/** What WATCH and EXEC are meant to do: every client remembers, for every key it watches, whether the key
    was touched since it began to watch it, and EXEC runs the queue exactly when none was. The server of
    multi.c, with its lists and its single dirty flag, behaves the same in every run. */
module MultiIdeal {
  import opened Basics
  import opened Multi

  /** `watch` maps every watched key to whether it has been touched. */
  datatype IdealClient = IdealClient(db: nat, multi: bool, queueError: bool, queue: seq<string>,
                                     watch: map<DbKey, bool>)

  function NewIdealClient(): IdealClient {
    IdealClient(0, false, false, [], map[])
  }

  datatype Ideal = Ideal(clients: map<ClientId, IdealClient>, keys: set<DbKey>)

  ghost predicate SomeTouched(watch: map<DbKey, bool>) {
    exists k :: k in watch && watch[k]
  }

  ghost function ISetClient(t: Ideal, c: ClientId, client: IdealClient): (r: Ideal)
    ensures r.clients.Keys == t.clients.Keys + {c}
  {
    t.(clients := t.clients[c := client])
  }

  ghost function IWatchKeys(t: Ideal, c: ClientId, names: seq<string>): (r: Ideal)
    requires c in t.clients
    ensures r.clients.Keys == t.clients.Keys
    decreases |names|
  {
    if names == [] then t
    else
      var client := t.clients[c];
      var k := DbKey(client.db, names[0]);
      var t' := if k in client.watch then t else ISetClient(t, c, client.(watch := client.watch[k := false]));
      IWatchKeys(t', c, names[1..])
  }

  ghost function IUnwatch(t: Ideal, c: ClientId): (r: Ideal)
    requires c in t.clients
    ensures r.clients.Keys == t.clients.Keys
  {
    ISetClient(t, c, t.clients[c].(watch := map[]))
  }

  /** The keys a predicate picks are marked in every client that watches them. */
  ghost function Marked(watch: map<DbKey, bool>, touched: DbKey -> bool): map<DbKey, bool> {
    map k | k in watch :: watch[k] || touched(k)
  }

  ghost function ITouch(t: Ideal, touched: DbKey -> bool): (r: Ideal)
    ensures r.clients.Keys == t.clients.Keys
  {
    t.(clients := map i | i in t.clients :: t.clients[i].(watch := Marked(t.clients[i].watch, touched)))
  }

  /** The keys a flush removes: all of them for -1, else those of one database. */
  ghost function FlushedKeys(keys: set<DbKey>, dbid: int): set<DbKey> {
    if dbid == -1 then keys else set k | k in keys && k.db == dbid
  }

  ghost function IApply(t: Ideal, c: ClientId, e: Effect): (r: Ideal)
    requires c in t.clients
    ensures r.clients.Keys == t.clients.Keys
  {
    match e
    case Modify(k, existsAfter) => ITouch(t, k' => k' == k).(keys := if existsAfter then t.keys + {k} else t.keys - {k})
    case Flush(dbid) =>
      var gone := FlushedKeys(t.keys, dbid);
      ITouch(t, k => k in gone).(keys := t.keys - gone)
    case Expire(k) => t.(keys := t.keys - {k})
    case Select(db) => ISetClient(t, c, t.clients[c].(db := db))
    case Unwatch => IUnwatch(t, c)
  }

  ghost function IApplyAll(t: Ideal, c: ClientId, es: seq<Effect>): (r: Ideal)
    requires c in t.clients
    ensures r.clients.Keys == t.clients.Keys
    decreases |es|
  {
    if es == [] then t else IApplyAll(IApply(t, c, es[0]), c, es[1..])
  }

  ghost function IDiscarded(t: Ideal, c: ClientId): Ideal
    requires c in t.clients
  {
    ISetClient(t, c, t.clients[c].(multi := false, queueError := false, queue := [], watch := map[]))
  }

  /** EXEC runs the queue exactly when nothing watched was touched and every command was queued. */
  ghost function IExec(t: Ideal, c: ClientId, effects: seq<Effect>): (r: (Ideal, Outcome))
    requires c in t.clients
  {
    var client := t.clients[c];
    if !client.multi then (t, ExecWithoutMulti)
    else if client.queueError then (IDiscarded(t, c), ExecAborted)
    else if SomeTouched(client.watch) then (IDiscarded(t, c), NullMultiBulk)
    else (IDiscarded(IApplyAll(IUnwatch(t, c), c, effects), c), Executed(client.queue))
  }

  ghost predicate IEnabled(t: Ideal, step: Step) {
    match step
    case Connect(c) => c !in t.clients
    case RunStep(c, _) => c in t.clients && !t.clients[c].multi
    case QueueStep(c, _) => c in t.clients && t.clients[c].multi
    case _ => step.c in t.clients
  }

  ghost function IDo(t: Ideal, step: Step): (r: (Ideal, Outcome))
    requires IEnabled(t, step)
  {
    match step
    case Connect(c) => (ISetClient(t, c, NewIdealClient()), Ok)
    case Disconnect(c) => (t.(clients := t.clients - {c}), Ok)
    case RunStep(c, e) => (IApply(t, c, e), Ok)
    case WatchStep(c, names) => if t.clients[c].multi then (t, WatchInsideMulti) else (IWatchKeys(t, c, names), Ok)
    case MultiStep(c) =>
      if t.clients[c].multi then (t, NestedMulti) else (ISetClient(t, c, t.clients[c].(multi := true)), Ok)
    case QueueStep(c, cmd) => (ISetClient(t, c, t.clients[c].(queue := t.clients[c].queue + [cmd])), Ok)
    case QueueErrorStep(c) =>
      (if t.clients[c].multi then ISetClient(t, c, t.clients[c].(queueError := true)) else t, Ok)
    case ExecStep(c, effects) => IExec(t, c, effects)
    case DiscardStep(c) => if !t.clients[c].multi then (t, DiscardWithoutMulti) else (IDiscarded(t, c), Ok)
  }

  // ---------------------------------------------------------------- the simulation

  ghost predicate SameClient(a: Client, b: IdealClient) {
    && a.db == b.db && a.multi == b.multi && a.dirtyExec == b.queueError && a.queue == b.queue
    && (forall k :: k in a.watched <==> k in b.watch)
    && a.dirtyCas == SomeTouched(b.watch)
  }

  ghost predicate Same(s: Server, t: Ideal) {
    && Inverse(s) && s.keys == t.keys && s.clients.Keys == t.clients.Keys
    && forall c :: c in s.clients ==> SameClient(s.clients[c], t.clients[c])
  }

  /** One client changed, its watch list not. */
  lemma SetSame(s: Server, t: Ideal, c: ClientId, a: Client, b: IdealClient)
    requires Same(s, t) && c in s.clients && SameClient(a, b) && a.watched == s.clients[c].watched
    ensures Same(SetClient(s, c, a), ISetClient(t, c, b))
  {
    InverseFrame(s, SetClient(s, c, a));
    hide Inverse, SameClient;
  }

  lemma WatchOneMore(w: map<DbKey, bool>, k: DbKey)
    requires k !in w
    ensures SomeTouched(w[k := false]) <==> SomeTouched(w)
  {
    if SomeTouched(w) {
      var k' :| k' in w && w[k'];
      assert k' in w[k := false] && w[k := false][k'];
    }
  }

  lemma WatchKeySame(s: Server, t: Ideal, c: ClientId, k: DbKey)
    requires Same(s, t) && c in s.clients
    ensures var b := t.clients[c];
      Same(WatchKey(s, c, k), if k in b.watch then t else ISetClient(t, c, b.(watch := b.watch[k := false])))
  {
    WatchKeyKeeps(s, c, k);
    var b := t.clients[c];
    if k !in b.watch { WatchOneMore(b.watch, k); }
    hide Inverse, SomeTouched;
  }

  lemma {:induction false} WatchSame(s: Server, t: Ideal, c: ClientId, names: seq<string>)
    requires Same(s, t) && c in s.clients
    ensures Same(WatchKeys(s, c, names), IWatchKeys(t, c, names))
    decreases |names|
  {
    if names != [] {
      var k, b := DbKey(s.clients[c].db, names[0]), t.clients[c];
      WatchKeySame(s, t, c, k);
      WatchKeyDomain(s, c, k);
      var t' := if k in b.watch then t else ISetClient(t, c, b.(watch := b.watch[k := false]));
      assert b.db == s.clients[c].db;
      hide Same, WatchKey, ISetClient;
      WatchSame(WatchKey(s, c, k), t', c, names[1..]);
    }
  }

  lemma WatchKeyDomain(s: Server, c: ClientId, k: DbKey)
    requires c in s.clients
    ensures c in WatchKey(s, c, k).clients
  {}

  /** A client that watches nothing. */
  lemma UnwatchSame(s: Server, t: Ideal, c: ClientId, a: Client, b: IdealClient)
    requires Same(s, t) && c in s.clients && a.watched == [] && SameClient(a, b)
    ensures Same(SetClient(UnwatchAll(s, c), c, a), ISetClient(t, c, b))
  {
    UnwatchKeeps(s, c);
    var u := UnwatchAll(s, c);
    assert u.clients[c].watched == [] && u.keys == s.keys;
    assert forall i :: i in s.clients && i != c ==> u.clients[i] == s.clients[i];
    assert u.clients.Keys == s.clients.Keys;
    hide Inverse, SameClient, UnwatchAll;
    InverseFrame(u, SetClient(u, c, a));
  }

  lemma UnwatchedClient(a: Client, b: IdealClient)
    requires SameClient(a, b)
    ensures SameClient(a.(watched := [], dirtyCas := false), b.(watch := map[]))
    ensures SameClient(a.(multi := false, dirtyCas := false, dirtyExec := false, queue := [], watched := []),
                       b.(multi := false, queueError := false, queue := [], watch := map[]))
  {
    assert !SomeTouched(map[]);
  }

  lemma UnwatchAllClient(s: Server, c: ClientId)
    requires c in s.clients
    ensures c in UnwatchAll(s, c).clients && UnwatchAll(s, c).clients[c] == s.clients[c].(watched := [])
  {}

  lemma UnwatchEffectSame(s: Server, t: Ideal, c: ClientId)
    requires Same(s, t) && c in s.clients
    ensures Same(Apply(s, c, Unwatch), IUnwatch(t, c))
  {
    UnwatchedClient(s.clients[c], t.clients[c]);
    UnwatchAllClient(s, c);
    hide Same, SameClient, UnwatchAll;
    UnwatchSame(s, t, c, s.clients[c].(watched := [], dirtyCas := false), t.clients[c].(watch := map[]));
  }

  lemma DiscardedSame(s: Server, t: Ideal, c: ClientId)
    requires Same(s, t) && c in s.clients
    ensures Same(Discarded(s, c), IDiscarded(t, c))
  {
    UnwatchedClient(s.clients[c], t.clients[c]);
    UnwatchAllClient(s, c);
    hide SameClient, UnwatchAll, Inverse;
    UnwatchSame(s, t, c,
      s.clients[c].(multi := false, dirtyCas := false, dirtyExec := false, queue := [], watched := []),
                t.clients[c].(multi := false, queueError := false, queue := [], watch := map[]));
  }

  /** A client whose watched keys are marked, with its flag raised if any of them is. */
  lemma MarkedClient(a: Client, b: IdealClient, touched: DbKey -> bool, hit: bool)
    requires SameClient(a, b) && (hit <==> exists k :: k in a.watched && touched(k))
    ensures SameClient(if hit then a.(dirtyCas := true) else a, b.(watch := Marked(b.watch, touched)))
  {
    var m := Marked(b.watch, touched);
    if hit {
      var k :| k in a.watched && touched(k);
      assert k in m && m[k];
    }
    if SomeTouched(b.watch) {
      var k :| k in b.watch && b.watch[k];
      assert k in m && m[k];
    }
  }

  lemma TouchSame(s: Server, t: Ideal, k: DbKey)
    requires Same(s, t)
    ensures Same(TouchKey(s, k), ITouch(t, k' => k' == k))
  {
    var s', t' := TouchKey(s, k), ITouch(t, k' => k' == k);
    forall c | c in s.clients ensures SameClient(s'.clients[c], t'.clients[c]) {
      MarkedClient(s.clients[c], t.clients[c], k' => k' == k, c in WatchersOf(s.watchers, k));
    }
    hide SameClient, NoDuplicates;
  }

  lemma FlushSame(s: Server, t: Ideal, dbid: int)
    requires Same(s, t)
    ensures var gone := FlushedKeys(t.keys, dbid); Same(TouchOnFlush(s, dbid), ITouch(t, k => k in gone))
  {
    var gone := FlushedKeys(t.keys, dbid);
    var touched := k => k in gone;
    var s', t' := TouchOnFlush(s, dbid), ITouch(t, touched);
    forall c | c in s.clients ensures SameClient(s'.clients[c], t'.clients[c]) {
      var w := s.clients[c].watched;
      if FlushTouches(s, dbid, w) {
        var j :| 0 <= j < |w| && Flushes(dbid, w[j]) && w[j] in s.keys;
        assert w[j] in w && touched(w[j]);
      }
      MarkedClient(s.clients[c], t.clients[c], touched, FlushTouches(s, dbid, w));
    }
    hide SameClient, NoDuplicates, FlushTouches;
  }

  /** FLUSHALL, which flushes database -1: no key is left, and every client that watched an existing one can no longer
      execute its transaction. */
  lemma FlushAll(s: Server, c: ClientId, i: ClientId)
    requires c in s.clients && i in s.clients
    ensures var s' := Apply(s, c, Flush(-1));
      && s'.keys == {} && s'.watchers == s.watchers
      && s'.clients[i] == s.clients[i].(dirtyCas := s'.clients[i].dirtyCas)
      && (s'.clients[i].dirtyCas <==> s.clients[i].dirtyCas || exists k :: k in s.clients[i].watched && k in s.keys)
  {
    assert forall k :: k in s.clients[i].watched ==>
      exists j :: 0 <= j < |s.clients[i].watched| && s.clients[i].watched[j] == k;
  }

  /** FLUSHDB: the keys of the other databases are left, and a client becomes dirty exactly when it watches an existing
      key of this one. */
  lemma FlushDb(s: Server, c: ClientId, i: ClientId, db: nat)
    requires c in s.clients && i in s.clients
    ensures var s' := Apply(s, c, Flush(db));
      && (forall k :: k in s'.keys <==> k in s.keys && k.db != db) && s'.watchers == s.watchers
      && s'.clients[i] == s.clients[i].(dirtyCas := s'.clients[i].dirtyCas)
      && (s'.clients[i].dirtyCas <==>
           s.clients[i].dirtyCas || exists k :: k in s.clients[i].watched && k in s.keys && k.db == db)
  {
    assert forall k :: k in s.clients[i].watched ==>
      exists j :: 0 <= j < |s.clients[i].watched| && s.clients[i].watched[j] == k;
  }

  lemma KeysSame(s: Server, t: Ideal, keys: set<DbKey>)
    requires Same(s, t)
    ensures Same(s.(keys := keys), t.(keys := keys))
  {
    InverseFrame(s, s.(keys := keys));
    hide Inverse, SameClient;
  }

  lemma FlushEffectSame(s: Server, t: Ideal, c: ClientId, dbid: int)
    requires Same(s, t) && c in s.clients && c in t.clients
    ensures Same(Apply(s, c, Flush(dbid)), IApply(t, c, Flush(dbid)))
  {
    var gone := FlushedKeys(t.keys, dbid);
    assert (set k | k in s.keys && !Flushes(dbid, k)) == t.keys - gone;
    FlushSame(s, t, dbid);
    hide Same, TouchOnFlush, ITouch, FlushedKeys;
    KeysSame(TouchOnFlush(s, dbid), ITouch(t, k => k in gone), t.keys - gone);
  }

  lemma ApplySame(s: Server, t: Ideal, c: ClientId, e: Effect)
    requires Same(s, t) && c in s.clients
    ensures Same(Apply(s, c, e), IApply(t, c, e))
  {
    assert s.keys == t.keys && c in t.clients;
    match e
    case Modify(k, existsAfter) =>
      TouchSame(s, t, k);
      hide Same, TouchKey, ITouch;
      KeysSame(TouchKey(s, k), ITouch(t, k' => k' == k), if existsAfter then s.keys + {k} else s.keys - {k});
    case Flush(dbid) => FlushEffectSame(s, t, c, dbid);
    case Expire(k) =>
      hide Same;
      KeysSame(s, t, s.keys - {k});
    case Select(db) =>
      assert SameClient(s.clients[c].(db := db), t.clients[c].(db := db));
      hide Same, SameClient;
      SetSame(s, t, c, s.clients[c].(db := db), t.clients[c].(db := db));
    case Unwatch => UnwatchEffectSame(s, t, c);
  }

  lemma {:induction false} ApplyAllSame(s: Server, t: Ideal, c: ClientId, es: seq<Effect>)
    requires Same(s, t) && c in s.clients
    ensures Same(ApplyAll(s, c, es), IApplyAll(t, c, es))
    decreases |es|
  {
    if es != [] {
      ApplySame(s, t, c, es[0]);
      hide Apply, IApply, Inverse, SameClient;
      ApplyAllSame(Apply(s, c, es[0]), IApply(t, c, es[0]), c, es[1..]);
    }
  }

  lemma UnwatchIsEffect(s: Server, c: ClientId)
    requires c in s.clients && !s.clients[c].dirtyCas
    ensures Apply(s, c, Unwatch) == UnwatchAll(s, c)
  {
    UnwatchAllClient(s, c);
    var u := UnwatchAll(s, c);
    assert u.clients[c].(dirtyCas := false) == u.clients[c];
    hide UnwatchAll;
    assert u.clients[c := u.clients[c]] == u.clients;
  }

  lemma QueueRunSame(s: Server, t: Ideal, c: ClientId, effects: seq<Effect>)
    requires Same(s, t) && c in s.clients && !s.clients[c].dirtyCas
    ensures c in UnwatchAll(s, c).clients
    ensures Same(Discarded(ApplyAll(UnwatchAll(s, c), c, effects), c),
      IDiscarded(IApplyAll(IUnwatch(t, c), c, effects), c))
  {
    UnwatchEffectSame(s, t, c);
    UnwatchIsEffect(s, c);
    UnwatchAllClient(s, c);
    assert c in t.clients;
    var s', t' := UnwatchAll(s, c), IUnwatch(t, c);
    assert c in t'.clients;
    hide UnwatchAll, Discarded, IDiscarded, Same, Apply, IUnwatch;
    ApplyAllSame(s', t', c, effects);
    DiscardedSame(ApplyAll(s', c, effects), IApplyAll(t', c, effects), c);
  }

  lemma ExecSame(s: Server, t: Ideal, c: ClientId, effects: seq<Effect>)
    requires Same(s, t) && c in s.clients
    ensures Exec(s, c, effects).1 == IExec(t, c, effects).1 && Same(Exec(s, c, effects).0, IExec(t, c, effects).0)
  {
    assert SameClient(s.clients[c], t.clients[c]);
    hide Discarded, IDiscarded, Same, ApplyAll, IApplyAll, UnwatchAll, IUnwatch, SomeTouched;
    DiscardedSame(s, t, c);
    if !s.clients[c].dirtyCas { QueueRunSame(s, t, c, effects); }
  }

  lemma ClientSteps(a: Client, b: IdealClient, cmd: string)
    requires SameClient(a, b)
    ensures SameClient(a.(multi := true), b.(multi := true))
      && SameClient(a.(dirtyExec := true), b.(queueError := true))
    ensures SameClient(a.(queue := a.queue + [cmd]), b.(queue := b.queue + [cmd]))
  {}

  /** Every step gives the same answer and leaves the two machines in step. */
  lemma StepSame(s: Server, t: Ideal, step: Step)
    requires Same(s, t) && Enabled(s.clients, step)
    ensures IEnabled(t, step) && Do(s, step).1 == IDo(t, step).1 && Same(Do(s, step).0, IDo(t, step).0)
  {
    if step.c in s.clients {
      var a, b := s.clients[step.c], t.clients[step.c];
      assert SameClient(a, b) && a.multi == b.multi;
      ClientSteps(a, b, if step.QueueStep? then step.cmd else "");
    }
    assert s.clients.Keys == t.clients.Keys;
    hide Same, SameClient, Exec, IExec, Discarded, IDiscarded, SetClient, ISetClient, UnwatchAll, Apply, IApply;
    match step
    case Connect(c) => ConnectSame(s, t, c);
    case Disconnect(c) => DisconnectSame(s, t, c);
    case RunStep(c, e) => ApplySame(s, t, c, e);
    case WatchStep(c, names) => WatchSame(s, t, c, names);
    case MultiStep(c) => SetSame(s, t, c, s.clients[c].(multi := true), t.clients[c].(multi := true));
    case QueueStep(c, cmd) =>
      SetSame(s, t, c, s.clients[c].(queue := s.clients[c].queue + [cmd]),
        t.clients[c].(queue := t.clients[c].queue + [cmd]));
    case QueueErrorStep(c) => SetSame(s, t, c, s.clients[c].(dirtyExec := true), t.clients[c].(queueError := true));
    case ExecStep(c, effects) => ExecSame(s, t, c, effects);
    case DiscardStep(c) => DiscardedSame(s, t, c);
  }

  lemma ConnectSame(s: Server, t: Ideal, c: ClientId)
    requires Same(s, t) && c !in s.clients
    ensures Same(SetClient(s, c, NewClient()), ISetClient(t, c, NewIdealClient()))
  {
    var none: seq<DbKey> := [];
    assert NoDuplicates(none);
    assert SameClient(NewClient(), NewIdealClient());
    hide NoDuplicates, SameClient;
  }

  lemma DisconnectSame(s: Server, t: Ideal, c: ClientId)
    requires Same(s, t) && c in s.clients
    ensures var u := UnwatchAll(s, c); Same(u.(clients := u.clients - {c}), t.(clients := t.clients - {c}))
  {
    UnwatchKeeps(s, c);
    UnwatchAllClient(s, c);
    hide RemoveWatchers, NoDuplicates, SameClient;
  }

  ghost function Outcomes(s: Server, steps: seq<Step>): Option<seq<Outcome>>
    decreases |steps|
  {
    if steps == [] then Some([])
    else if !Enabled(s.clients, steps[0]) then None
    else
      var (s', o) := Do(s, steps[0]);
      var rest := Outcomes(s', steps[1..]);
      if rest.None? then None else Some([o] + rest.value)
  }

  ghost function IOutcomes(t: Ideal, steps: seq<Step>): Option<seq<Outcome>>
    decreases |steps|
  {
    if steps == [] then Some([])
    else if !IEnabled(t, steps[0]) then None
    else
      var (t', o) := IDo(t, steps[0]);
      var rest := IOutcomes(t', steps[1..]);
      if rest.None? then None else Some([o] + rest.value)
  }

  lemma {:induction false} RunSame(s: Server, t: Ideal, steps: seq<Step>)
    requires Same(s, t)
    ensures Outcomes(s, steps) == IOutcomes(t, steps)
    decreases |steps|
  {
    if steps != [] {
      assert Enabled(s.clients, steps[0]) <==> IEnabled(t, steps[0]);
      if Enabled(s.clients, steps[0]) {
        StepSame(s, t, steps[0]);
        hide Same, Do, IDo;
        RunSame(Do(s, steps[0]).0, IDo(t, steps[0]).0, steps[1..]);
      }
    }
  }

  /** In every run from the empty server the source's bookkeeping answers every command, EXEC above all, as
      the ideal one does. */
  lemma ServerBehavesIdeally(steps: seq<Step>)
    ensures Outcomes(Server(map[], map[], {}), steps) == IOutcomes(Ideal(map[], {}), steps)
  {
    RunSame(Server(map[], map[], {}), Ideal(map[], {}), steps);
  }

  /** s' is the server after these steps. */
  ghost predicate Reaches(s: Server, steps: seq<Step>, s': Server)
    decreases |steps|
  {
    if steps == [] then s' == s else Enabled(s.clients, steps[0]) && Reaches(Do(s, steps[0]).0, steps[1..], s')
  }

  lemma {:induction false} RunKeepsSame(s: Server, t: Ideal, steps: seq<Step>, s': Server) returns (t': Ideal)
    requires Same(s, t) && Reaches(s, steps, s')
    ensures Same(s', t')
    decreases |steps|
  {
    if steps == [] {
      t' := t;
    } else {
      StepSame(s, t, steps[0]);
      hide Same, Do, IDo;
      t' := RunKeepsSame(Do(s, steps[0]).0, IDo(t, steps[0]).0, steps[1..], s');
    }
  }

  /** In every reachable state the lists of watching clients and the lists of watched keys are exact inverses,
      without duplicates and without empty lists. */
  lemma ListsStayInverse(steps: seq<Step>, s': Server)
    requires Reaches(Server(map[], map[], {}), steps, s')
    ensures Inverse(s')
  {
    var t' := RunKeepsSame(Server(map[], map[], {}), Ideal(map[], {}), steps, s');
  }
}
