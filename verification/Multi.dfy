/** WATCH, MULTI and EXEC of multi.c. A `Server` is what the source keeps: for every key the list of
    clients watching it, for every client the list of keys it watches, and one dirty flag. */
module Multi {

  type ClientId = nat
  datatype DbKey = DbKey(db: nat, name: string)

  datatype Client = Client(db: nat, multi: bool, dirtyCas: bool, dirtyExec: bool, queue: seq<string>,
                           watched: seq<DbKey>)

  /** `keys` are the keys that exist. */
  datatype Server = Server(clients: map<ClientId, Client>, watchers: map<DbKey, seq<ClientId>>, keys: set<DbKey>)

  datatype Outcome =
    | Ok
    | NestedMulti
    | ExecWithoutMulti
    | DiscardWithoutMulti
    | WatchInsideMulti
    | ExecAborted
    | NullMultiBulk
    | Executed(queue: seq<string>)

  function NewClient(): Client {
    Client(0, false, false, false, [], [])
  }

  function SetClient(s: Server, c: ClientId, client: Client): Server {
    s.(clients := s.clients[c := client])
  }

  // ---------------------------------------------------------------- the watch lists

  function WatchersOf(watchers: map<DbKey, seq<ClientId>>, k: DbKey): seq<ClientId> {
    if k in watchers then watchers[k] else []
  }

  /** watchForKey */
  function WatchKey(s: Server, c: ClientId, k: DbKey): Server
    requires c in s.clients
  {
    var client := s.clients[c];
    if k in client.watched then s
    else
      SetClient(s.(watchers := s.watchers[k := WatchersOf(s.watchers, k) + [c]]), c,
        client.(watched := client.watched + [k]))
  }

  function WatchKeys(s: Server, c: ClientId, names: seq<string>): (r: Server)
    requires c in s.clients
    ensures r.clients.Keys == s.clients.Keys && r.clients[c].db == s.clients[c].db
    decreases |names|
  {
    if names == [] then s else WatchKeys(WatchKey(s, c, DbKey(s.clients[c].db, names[0])), c, names[1..])
  }

  /** The list without the first occurrence of c. */
  function RemoveFirst(l: seq<ClientId>, c: ClientId): seq<ClientId> {
    if l == [] then [] else if l[0] == c then l[1..] else [l[0]] + RemoveFirst(l[1..], c)
  }

  /** One client taken off the list of one key; an empty list is dropped. */
  function RemoveWatcher(watchers: map<DbKey, seq<ClientId>>, k: DbKey, c: ClientId): map<DbKey, seq<ClientId>> {
    var l := RemoveFirst(WatchersOf(watchers, k), c);
    if l == [] then watchers - {k} else watchers[k := l]
  }

  function RemoveWatchers(watchers: map<DbKey, seq<ClientId>>, ks: seq<DbKey>, c: ClientId): map<DbKey, seq<ClientId>> {
    if ks == [] then watchers else RemoveWatchers(RemoveWatcher(watchers, ks[0], c), ks[1..], c)
  }

  /** unwatchAllKeys */
  function UnwatchAll(s: Server, c: ClientId): Server
    requires c in s.clients
  {
    SetClient(s.(watchers := RemoveWatchers(s.watchers, s.clients[c].watched, c)), c, s.clients[c].(watched := []))
  }

  // ---------------------------------------------------------------- touching

  /** touchWatchedKey */
  function TouchKey(s: Server, k: DbKey): Server {
    s.(clients := map i | i in s.clients ::
         if i in WatchersOf(s.watchers, k) then s.clients[i].(dirtyCas := true) else s.clients[i])
  }

  predicate Flushes(dbid: int, k: DbKey) {
    dbid == -1 || k.db == dbid
  }

  predicate FlushTouches(s: Server, dbid: int, watched: seq<DbKey>) {
    exists j :: 0 <= j < |watched| && Flushes(dbid, watched[j]) && watched[j] in s.keys
  }

  /** touchWatchedKeysOnFlush */
  function TouchOnFlush(s: Server, dbid: int): Server {
    s.(clients := map i | i in s.clients ::
         if FlushTouches(s, dbid, s.clients[i].watched) then s.clients[i].(dirtyCas := true) else s.clients[i])
  }

  /** What running a command can do to the state kept here: change a key and touch it, flush databases, let
      a key expire (which touches nothing), select a database, drop the watches. */
  datatype Effect =
    | Modify(k: DbKey, existsAfter: bool)
    | Flush(dbid: int)
    | Expire(k: DbKey)
    | Select(db: nat)
    | Unwatch

  function Apply(s: Server, c: ClientId, e: Effect): (r: Server)
    requires c in s.clients
    ensures r.clients.Keys == s.clients.Keys
  {
    match e
    case Modify(k, existsAfter) => TouchKey(s, k).(keys := if existsAfter then s.keys + {k} else s.keys - {k})
    case Flush(dbid) => TouchOnFlush(s, dbid).(keys := set k | k in s.keys && !Flushes(dbid, k))
    case Expire(k) => s.(keys := s.keys - {k})
    case Select(db) => SetClient(s, c, s.clients[c].(db := db))
    case Unwatch =>
      var u := UnwatchAll(s, c);
      SetClient(u, c, u.clients[c].(dirtyCas := false))
  }

  function ApplyAll(s: Server, c: ClientId, es: seq<Effect>): (r: Server)
    requires c in s.clients
    ensures r.clients.Keys == s.clients.Keys
    decreases |es|
  {
    if es == [] then s else ApplyAll(Apply(s, c, es[0]), c, es[1..])
  }

  // ---------------------------------------------------------------- commands

  /** discardTransaction */
  function Discarded(s: Server, c: ClientId): Server
    requires c in s.clients
  {
    var u := UnwatchAll(s, c);
    SetClient(u, c, u.clients[c].(multi := false, dirtyCas := false, dirtyExec := false, queue := []))
  }

  /** execCommand; `effects` is what the queued commands do when they run. */
  function Exec(s: Server, c: ClientId, effects: seq<Effect>): (r: (Server, Outcome))
    requires c in s.clients
  {
    var client := s.clients[c];
    if !client.multi then (s, ExecWithoutMulti)
    else if client.dirtyCas || client.dirtyExec then
      (Discarded(s, c), if client.dirtyExec then ExecAborted else NullMultiBulk)
    else (Discarded(ApplyAll(UnwatchAll(s, c), c, effects), c), Executed(client.queue))
  }

  datatype Step =
    | Connect(c: ClientId)
    | Disconnect(c: ClientId)
    | RunStep(c: ClientId, e: Effect)
    | WatchStep(c: ClientId, names: seq<string>)
    | MultiStep(c: ClientId)
    | QueueStep(c: ClientId, cmd: string)
    | QueueErrorStep(c: ClientId)
    | ExecStep(c: ClientId, effects: seq<Effect>)
    | DiscardStep(c: ClientId)

  /** Outside a transaction commands run at once, inside one they are queued. */
  ghost predicate Enabled(clients: map<ClientId, Client>, step: Step) {
    match step
    case Connect(c) => c !in clients
    case RunStep(c, _) => c in clients && !clients[c].multi
    case QueueStep(c, _) => c in clients && clients[c].multi
    case _ => step.c in clients
  }

  ghost function Do(s: Server, step: Step): (r: (Server, Outcome))
    requires Enabled(s.clients, step)
  {
    match step
    case Connect(c) => (SetClient(s, c, NewClient()), Ok)
    case Disconnect(c) => var u := UnwatchAll(s, c); (u.(clients := u.clients - {c}), Ok)
    case RunStep(c, e) => (Apply(s, c, e), Ok)
    case WatchStep(c, names) => if s.clients[c].multi then (s, WatchInsideMulti) else (WatchKeys(s, c, names), Ok)
    case MultiStep(c) =>
      if s.clients[c].multi then (s, NestedMulti) else (SetClient(s, c, s.clients[c].(multi := true)), Ok)
    case QueueStep(c, cmd) => (SetClient(s, c, s.clients[c].(queue := s.clients[c].queue + [cmd])), Ok)
    case QueueErrorStep(c) =>
      (if s.clients[c].multi then SetClient(s, c, s.clients[c].(dirtyExec := true)) else s, Ok)
    case ExecStep(c, effects) => Exec(s, c, effects)
    case DiscardStep(c) => if !s.clients[c].multi then (s, DiscardWithoutMulti) else (Discarded(s, c), Ok)
  }

  // ---------------------------------------------------------------- the lists are inverses

  ghost predicate NoDuplicates<T>(l: seq<T>) {
    forall i, j :: 0 <= i < j < |l| ==> l[i] != l[j]
  }

  ghost predicate ProperLists(watchers: map<DbKey, seq<ClientId>>) {
    forall k :: k in watchers ==> watchers[k] != [] && NoDuplicates(watchers[k])
  }

  /** The map from keys to clients and the clients' own lists say the same; no list has duplicates, no key has
      an empty list. */
  ghost predicate Inverse(s: Server) {
    && ProperLists(s.watchers)
    && (forall c :: c in s.clients ==> NoDuplicates(s.clients[c].watched))
    && forall c, k :: c in WatchersOf(s.watchers, k) <==> c in s.clients && k in s.clients[c].watched
  }

  lemma {:induction false} RemoveFirstEffect(l: seq<ClientId>, c: ClientId)
    requires NoDuplicates(l)
    ensures NoDuplicates(RemoveFirst(l, c)) && forall x :: x in RemoveFirst(l, c) <==> x in l && x != c
  {
    if l != [] {
      RemoveFirstEffect(l[1..], c);
      assert l == [l[0]] + l[1..];
      assert l[0] !in l[1..];
    }
  }

  lemma RemoveWatcherEffect(watchers: map<DbKey, seq<ClientId>>, k0: DbKey, c: ClientId)
    requires ProperLists(watchers)
    ensures var r := RemoveWatcher(watchers, k0, c);
      && ProperLists(r)
      && forall k, x :: x in WatchersOf(r, k) <==> x in WatchersOf(watchers, k) && !(x == c && k == k0)
  {
    RemoveFirstEffect(WatchersOf(watchers, k0), c);
    hide RemoveFirst, NoDuplicates;
  }

  /** The clients on every list, with c taken off the lists of ks. */
  lemma {:induction false} RemoveWatchersEffect(watchers: map<DbKey, seq<ClientId>>, ks: seq<DbKey>, c: ClientId)
    requires ProperLists(watchers)
    ensures var r := RemoveWatchers(watchers, ks, c);
      && ProperLists(r)
      && forall k, x :: x in WatchersOf(r, k) <==> x in WatchersOf(watchers, k) && !(x == c && k in ks)
    decreases |ks|
  {
    if ks != [] {
      assert ks == [ks[0]] + ks[1..];
      RemoveWatcherEffect(watchers, ks[0], c);
      hide RemoveWatcher, WatchersOf, ProperLists;
      RemoveWatchersEffect(RemoveWatcher(watchers, ks[0], c), ks[1..], c);
    }
  }

  lemma AppendDistinct<T>(l: seq<T>, x: T)
    requires NoDuplicates(l) && x !in l
    ensures NoDuplicates(l + [x])
  {}

  lemma WatchKeyKeeps(s: Server, c: ClientId, k: DbKey)
    requires Inverse(s) && c in s.clients
    ensures Inverse(WatchKey(s, c, k))
    ensures forall i :: i in s.clients ==> forall k' ::
      k' in WatchKey(s, c, k).clients[i].watched <==> k' in s.clients[i].watched || (i == c && k' == k)
  {
    if k !in s.clients[c].watched {
      assert c !in WatchersOf(s.watchers, k);
      AppendDistinct(WatchersOf(s.watchers, k), c);
      AppendDistinct(s.clients[c].watched, k);
      assert NoDuplicates(s.clients[c].watched + [k]);
      hide NoDuplicates;
      var s' := WatchKey(s, c, k);
      assert ProperLists(s'.watchers);
      forall i, k' ensures i in WatchersOf(s'.watchers, k') <==> i in s'.clients && k' in s'.clients[i].watched {
        assert i in WatchersOf(s.watchers, k') <==> i in s.clients && k' in s.clients[i].watched;
        assert WatchersOf(s'.watchers, k') == if k' == k then WatchersOf(s.watchers, k) + [c]
          else WatchersOf(s.watchers, k');
      }
    }
  }

  lemma UnwatchKeeps(s: Server, c: ClientId)
    requires Inverse(s) && c in s.clients
    ensures Inverse(UnwatchAll(s, c))
  {
    RemoveWatchersEffect(s.watchers, s.clients[c].watched, c);
    hide RemoveWatchers;
  }

  /** Changes that leave the watch lists alone. */
  lemma InverseFrame(s: Server, s': Server)
    requires Inverse(s) && s'.watchers == s.watchers && s'.clients.Keys == s.clients.Keys
    requires forall c :: c in s.clients ==> s'.clients[c].watched == s.clients[c].watched
    ensures Inverse(s')
  {
    hide NoDuplicates;
  }
}
