/** The code of multi.c in its own form: loops over the watch lists that update clients and the per-key
    lists in place. Every method leaves exactly the state that the functions of Multi describe. */
module MultiServer {
  import opened Multi

  lemma {:induction false} RemoveFirstAt(l: seq<ClientId>, c: ClientId, i: nat)
    requires i < |l| && l[i] == c && forall j :: 0 <= j < i ==> l[j] != c
    ensures RemoveFirst(l, c) == l[..i] + l[i + 1..]
  {
    if i > 0 {
      RemoveFirstAt(l[1..], c, i - 1);
      assert [l[0]] + (l[1..][..i - 1] + l[1..][i..]) == l[..i] + l[i + 1..];
    }
  }

  /** One key dropped from a client that watches it first. */
  function UnwatchFirst(s: Server, c: ClientId): Server
    requires c in s.clients && s.clients[c].watched != []
  {
    var client := s.clients[c];
    SetClient(s.(watchers := RemoveWatcher(s.watchers, client.watched[0], c)), c,
      client.(watched := client.watched[1..]))
  }

  lemma UnwatchFirstThenAll(s: Server, c: ClientId)
    requires c in s.clients && s.clients[c].watched != []
    ensures c in UnwatchFirst(s, c).clients && UnwatchAll(UnwatchFirst(s, c), c) == UnwatchAll(s, c)
  {
    hide RemoveWatcher;
  }

  lemma NoDuplicatesTail<T>(l: seq<T>)
    requires NoDuplicates(l) && l != []
    ensures NoDuplicates(l[1..]) && forall x :: x in l[1..] <==> x in l && x != l[0]
  {
    assert l == [l[0]] + l[1..];
  }

  lemma UnwatchFirstKeeps(s: Server, c: ClientId)
    requires Inverse(s) && c in s.clients && s.clients[c].watched != []
    ensures Inverse(UnwatchFirst(s, c)) && c in WatchersOf(s.watchers, s.clients[c].watched[0])
  {
    var w := s.clients[c].watched;
    assert w[0] in w;
    RemoveWatcherEffect(s.watchers, w[0], c);
    NoDuplicatesTail(w);
    var s' := UnwatchFirst(s, c);
    hide RemoveWatcher, NoDuplicates, WatchersOf, ProperLists;
    forall i, k ensures i in WatchersOf(s'.watchers, k) <==> i in s'.clients && k in s'.clients[i].watched {
      assert i in WatchersOf(s.watchers, k) <==> i in s.clients && k in s.clients[i].watched;
    }
  }

  /** The first j clients of a list marked. */
  ghost function MarkedUpTo(clients: map<ClientId, Client>, l: seq<ClientId>, j: nat): map<ClientId, Client>
    requires j <= |l|
  {
    map i | i in clients :: if i in l[..j] then clients[i].(dirtyCas := true) else clients[i]
  }

  lemma MarkOneMore(clients: map<ClientId, Client>, l: seq<ClientId>, j: nat)
    requires j < |l| && l[j] in clients
    ensures var m := MarkedUpTo(clients, l, j);
      l[j] in m && MarkedUpTo(clients, l, j + 1) == m[l[j] := m[l[j]].(dirtyCas := true)]
  {
    assert l[..j + 1] == l[..j] + [l[j]];
  }

  class MultiServer {
    var clients: map<ClientId, Client>
    var watchers: map<DbKey, seq<ClientId>>
    var keys: set<DbKey>

    function St(): Server
      reads this
    {
      Server(clients, watchers, keys)
    }

    constructor ()
      ensures St() == Server(map[], map[], {})
    {
      clients, watchers, keys := map[], map[], {};
    }

    /** watchForKey */
    method WatchForKey(c: ClientId, k: DbKey)
      requires c in clients
      modifies this
      ensures St() == WatchKey(old(St()), c, k)
    {
      var client := clients[c];
      var j := 0;
      while j < |client.watched|
        invariant j <= |client.watched| && k !in client.watched[..j]
      {
        if client.watched[j] == k { return; }
        assert client.watched[..j + 1] == client.watched[..j] + [client.watched[j]];
        j := j + 1;
      }
      assert client.watched[..j] == client.watched;
      var list := if k in watchers then watchers[k] else [];
      watchers := watchers[k := list + [c]];
      clients := clients[c := client.(watched := client.watched + [k])];
    }

    /** The loop of watchCommand. */
    method WatchAll(c: ClientId, names: seq<string>)
      requires c in clients
      modifies this
      ensures St() == WatchKeys(old(St()), c, names)
    {
      var j := 0;
      assert names[0..] == names;
      while j < |names|
        invariant j <= |names| && c in clients && WatchKeys(St(), c, names[j..]) == WatchKeys(old(St()), c, names)
      {
        assert names[j..][1..] == names[j + 1..];
        WatchForKey(c, DbKey(clients[c].db, names[j]));
        j := j + 1;
      }
    }

    /** listSearchKey: the first node that holds c. */
    method SearchList(l: seq<ClientId>, c: ClientId) returns (i: nat)
      requires c in l
      ensures i < |l| && l[i] == c && forall j :: 0 <= j < i ==> l[j] != c
    {
      i := 0;
      while l[i] != c
        invariant i < |l| && forall j :: 0 <= j < i ==> l[j] != c
        decreases |l| - i
      {
        assert exists j :: i < j < |l| && l[j] == c;
        i := i + 1;
      }
    }

    /** unwatchAllKeys; its assertion that every watched key has a list holds. */
    method UnwatchAllKeys(c: ClientId)
      requires c in clients && Inverse(St())
      modifies this`clients, this`watchers
      ensures St() == UnwatchAll(old(St()), c) && Inverse(St())
    {
      if clients[c].watched == [] {
        assert clients[c := clients[c].(watched := [])] == clients;
        return;
      }
      hide Inverse;
      while clients[c].watched != []
        invariant c in clients && Inverse(St()) && UnwatchAll(St(), c) == UnwatchAll(old(St()), c)
        decreases |clients[c].watched|
      {
        UnwatchFirstKeeps(St(), c);
        UnwatchFirstThenAll(St(), c);
        UnwatchOne(c);
      }
      assert clients[c := clients[c].(watched := [])] == clients;
    }

    method UnwatchOne(c: ClientId)
      requires c in clients && clients[c].watched != [] && c in WatchersOf(watchers, clients[c].watched[0])
      modifies this`clients, this`watchers
      ensures St() == UnwatchFirst(old(St()), c)
    {
      var k := clients[c].watched[0];
      assert k in watchers;
      var list := watchers[k];
      var i := SearchList(list, c);
      RemoveFirstAt(list, c, i);
      list := list[..i] + list[i + 1..];
      watchers := if |list| == 0 then watchers - {k} else watchers[k := list];
      clients := clients[c := clients[c].(watched := clients[c].watched[1..])];
    }

    lemma WatchersAreClients(k: DbKey)
      requires Inverse(St()) && k in watchers
      ensures forall i :: 0 <= i < |watchers[k]| ==> watchers[k][i] in clients
    {
      forall i | 0 <= i < |watchers[k]| ensures watchers[k][i] in clients {
        assert watchers[k][i] in WatchersOf(watchers, k);
      }
    }

    /** touchWatchedKey */
    method TouchWatchedKey(k: DbKey)
      requires Inverse(St())
      modifies this`clients
      ensures St() == TouchKey(old(St()), k)
    {
      if k !in watchers {
        assert TouchKey(St(), k).clients == clients;
        return;
      }
      var list := watchers[k];
      WatchersAreClients(k);
      ghost var was := clients;
      assert MarkedUpTo(was, list, 0) == was;
      var j := 0;
      while j < |list|
        invariant j <= |list| && clients == MarkedUpTo(was, list, j)
        invariant forall i :: 0 <= i < |list| ==> list[i] in was
      {
        MarkOneMore(was, list, j);
        hide MarkedUpTo;
        clients := clients[list[j] := clients[list[j]].(dirtyCas := true)];
        j := j + 1;
      }
      assert list[..j] == list;
    }

    /** The inner loop of touchWatchedKeysOnFlush: whether the flush removes a key of this list. */
    method FlushRemoves(watched: seq<DbKey>, dbid: int) returns (dirty: bool)
      ensures dirty == FlushTouches(St(), dbid, watched)
    {
      dirty := false;
      var j := 0;
      while j < |watched|
        invariant j <= |watched|
        invariant dirty == exists i :: 0 <= i < j && Flushes(dbid, watched[i]) && watched[i] in keys
      {
        if dbid == -1 || watched[j].db == dbid {
          if watched[j] in keys { dirty := true; }
        }
        j := j + 1;
      }
    }

    /** touchWatchedKeysOnFlush; the clients are visited in any order. */
    method TouchWatchedKeysOnFlush(dbid: int)
      modifies this`clients
      ensures St() == TouchOnFlush(old(St()), dbid)
    {
      ghost var was := St();
      ghost var after := TouchOnFlush(was, dbid).clients;
      var left := clients.Keys;
      while left != {}
        invariant left <= was.clients.Keys && clients.Keys == was.clients.Keys == after.Keys
        invariant forall i :: i in clients ==> clients[i] == if i in left then was.clients[i] else after[i]
        decreases |left|
      {
        var i :| i in left;
        var dirty := FlushRemoves(clients[i].watched, dbid);
        SameFlush(was, St(), dbid, clients[i].watched);
        assert after[i] == if dirty then was.clients[i].(dirtyCas := true) else was.clients[i];
        hide FlushTouches, TouchOnFlush;
        if dirty { clients := clients[i := clients[i].(dirtyCas := true)]; }
        left := left - {i};
      }
      assert clients == after;
    }

    lemma SameFlush(s: Server, s': Server, dbid: int, watched: seq<DbKey>)
      requires s.keys == s'.keys
      ensures FlushTouches(s, dbid, watched) == FlushTouches(s', dbid, watched)
    {}

    /** The effect of one command of client c. */
    method Run(c: ClientId, e: Effect)
      requires c in clients && Inverse(St())
      modifies this
      ensures St() == Apply(old(St()), c, e)
    {
      match e
      case Modify(k, existsAfter) =>
        hide Inverse, TouchKey;
        TouchWatchedKey(k);
        keys := if existsAfter then keys + {k} else keys - {k};
      case Flush(dbid) =>
        hide Inverse, TouchOnFlush;
        TouchWatchedKeysOnFlush(dbid);
        keys := set k | k in keys && !Flushes(dbid, k);
      case Expire(k) => keys := keys - {k};
      case Select(db) => clients := clients[c := clients[c].(db := db)];
      case Unwatch =>
        hide Inverse;
        UnwatchAllKeys(c);
        clients := clients[c := clients[c].(dirtyCas := false)];
    }

    /** discardTransaction */
    method DiscardTransaction(c: ClientId)
      requires c in clients && Inverse(St())
      modifies this
      ensures St() == Discarded(old(St()), c)
    {
      hide Inverse;
      UnwatchAllKeys(c);
      clients := clients[c := clients[c].(multi := false, dirtyCas := false, dirtyExec := false, queue := [])];
    }

    /** multiCommand */
    method MultiCommand(c: ClientId) returns (o: Outcome)
      requires c in clients
      modifies this
      ensures (St(), o) == Do(old(St()), MultiStep(c))
    {
      if clients[c].multi { return NestedMulti; }
      clients := clients[c := clients[c].(multi := true)];
      return Ok;
    }

    /** queueMultiCommand */
    method QueueCommand(c: ClientId, cmd: string)
      requires c in clients && clients[c].multi
      modifies this
      ensures St() == Do(old(St()), QueueStep(c, cmd)).0
    {
      clients := clients[c := clients[c].(queue := clients[c].queue + [cmd])];
    }

    /** flagTransaction */
    method FlagTransaction(c: ClientId)
      requires c in clients
      modifies this
      ensures St() == Do(old(St()), QueueErrorStep(c)).0
    {
      if clients[c].multi { clients := clients[c := clients[c].(dirtyExec := true)]; }
    }

    /** watchCommand */
    method WatchCommand(c: ClientId, names: seq<string>) returns (o: Outcome)
      requires c in clients
      modifies this
      ensures (St(), o) == Do(old(St()), WatchStep(c, names))
    {
      if clients[c].multi { return WatchInsideMulti; }
      WatchAll(c, names);
      return Ok;
    }

    /** discardCommand */
    method DiscardCommand(c: ClientId) returns (o: Outcome)
      requires c in clients && Inverse(St())
      modifies this
      ensures (St(), o) == Do(old(St()), DiscardStep(c))
    {
      if !clients[c].multi { return DiscardWithoutMulti; }
      DiscardTransaction(c);
      return Ok;
    }

    /** The loop of execCommand over the queue. */
    method RunQueue(c: ClientId, effects: seq<Effect>)
      requires c in clients && Inverse(St())
      modifies this
      ensures St() == ApplyAll(old(St()), c, effects) && Inverse(St())
    {
      var j := 0;
      hide Inverse, Apply;
      assert effects[0..] == effects;
      while j < |effects|
        invariant j <= |effects| && c in clients && Inverse(St())
        invariant ApplyAll(St(), c, effects[j..]) == ApplyAll(old(St()), c, effects)
      {
        assert effects[j..][1..] == effects[j + 1..];
        ApplyKeeps(St(), c, effects[j]);
        Run(c, effects[j]);
        j := j + 1;
      }
    }

    /** execCommand */
    method ExecCommand(c: ClientId, effects: seq<Effect>) returns (o: Outcome)
      requires c in clients && Inverse(St())
      modifies this
      ensures (St(), o) == Exec(old(St()), c, effects)
    {
      hide Inverse, Discarded, ApplyAll, UnwatchAll;
      if !clients[c].multi { return ExecWithoutMulti; }
      if clients[c].dirtyCas || clients[c].dirtyExec {
        o := if clients[c].dirtyExec then ExecAborted else NullMultiBulk;
        DiscardTransaction(c);
        return;
      }
      var queue := clients[c].queue;
      UnwatchAllDomain(St(), c);
      UnwatchAllKeys(c);
      RunQueue(c, effects);
      DiscardTransaction(c);
      return Executed(queue);
    }
  }

  lemma UnwatchAllDomain(s: Server, c: ClientId)
    requires c in s.clients
    ensures c in UnwatchAll(s, c).clients
  {}

  /** No effect of a command breaks the lists. */
  lemma ApplyKeeps(s: Server, c: ClientId, e: Effect)
    requires Inverse(s) && c in s.clients
    ensures Inverse(Apply(s, c, e))
  {
    match e
    case Unwatch =>
      UnwatchKeeps(s, c);
      hide Inverse, UnwatchAll;
      UnwatchAllDomain(s, c);
      InverseFrame(UnwatchAll(s, c), Apply(s, c, e));
    case _ => InverseFrame(s, Apply(s, c, e));
  }
}
