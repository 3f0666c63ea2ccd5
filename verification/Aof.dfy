/** The append-only file of aof.c as a state machine: commands are executed and fed to the log, the
    log buffer is flushed with partial writes, a child rewrites the log in the background. The
    outcomes of system calls are inputs of the steps. */
module Aof {
  import opened Basics
  import opened Bytes
  import opened Protocol
  import opened AofRewrite

  datatype AofState = Off | On | WaitRewrite
  datatype Fsync = Always | EverySec | Never

  /** server.aof_fd: -1, the configured file, or the number of a descriptor already closed. */
  datatype Descriptor = NoFd | Main | Closed

  /** `file` is the content of the configured file; `childFile` is what the running child's temporary
      file will hold when it is done; time 0 in `postponedStart` means no postponed flush. */
  datatype Server = Server(
    dbs: seq<Db>, state: AofState, fsync: Fsync, fd: Descriptor, file: seq<Byte>, currentSize: nat,
    buf: seq<Byte>, selectedDb: int, postponedStart: int, lastWriteOk: bool,
    child: bool, childFile: seq<Byte>, rewriteBuf: seq<Byte>, scheduled: bool)

  const POSTPONE_SECONDS: int := 2

  // ---------------------------------------------------------------- feeding

  /** The bytes of one command, after a SELECT when the log's last command was for another database. */
  function FeedBytes(selectedDb: int, dbid: nat, argv: Argv): seq<Byte>
    requires dbid <= LONG_MAX
  {
    PrintAll(if dbid != selectedDb then [SelectCommand(dbid), argv] else [argv])
  }

  /** feedAppendOnlyFile */
  function Feed(s: Server, dbid: nat, argv: Argv): Server
    requires dbid <= LONG_MAX
  {
    var bytes := FeedBytes(s.selectedDb, dbid, argv);
    s.(selectedDb := dbid,
       buf := if s.state == On then s.buf + bytes else s.buf,
       rewriteBuf := if s.child then s.rewriteBuf + bytes else s.rewriteBuf)
  }

  /** A client's command: its effect, and its propagation to the log unless the log is off. */
  function Execute(other: Other, s: Server, dbid: nat, argv: Argv): Server
    requires dbid <= LONG_MAX
  {
    var s' := s.(dbs := Exec(other, Client(s.dbs, dbid), argv).dbs);
    if s.state != Off then Feed(s', dbid, argv) else s'
  }

  // ---------------------------------------------------------------- flushing

  function Truncated(file: seq<Byte>, size: nat): seq<Byte> {
    if size <= |file| then file[..size] else file + seq(size - |file|, _ => 0)
  }

  predicate MustPostpone(s: Server, force: bool, syncInProgress: bool, now: int) {
    s.fsync == EverySec && !force && syncInProgress
    && (s.postponedStart == 0 || now - s.postponedStart < POSTPONE_SECONDS)
  }

  /** The write of flushAppendOnlyFile. write(2) returns `written` (-1 on error, always on a closed
      descriptor), and ftruncate(2) succeeds or not. The flag says that the process exits. */
  function WriteOut(s: Server, written: int, truncateOk: bool): (r: (Server, bool))
    requires -1 <= written <= |s.buf|
  {
    if s.fd != Main || written == -1 then WriteError(s, 0)
    else
      var grown := s.file + s.buf[..written];
      if written == |s.buf| then
        (s.(file := grown, currentSize := s.currentSize + written, buf := [], lastWriteOk := true), false)
      else if truncateOk then WriteError(s.(file := Truncated(grown, s.currentSize)), 0)
      else WriteError(s.(file := grown), written)
  }

  /** With policy always the process exits; otherwise the buffer is kept, without what stays written. */
  function WriteError(s: Server, kept: nat): (r: (Server, bool))
    requires kept <= |s.buf|
  {
    if s.fsync == Always then (s, true)
    else (s.(lastWriteOk := false, currentSize := s.currentSize + kept, buf := s.buf[kept..]), false)
  }

  /** flushAppendOnlyFile */
  function Flush(s: Server, force: bool, syncInProgress: bool, now: int, written: int,
                 truncateOk: bool): (r: (Server, bool))
    requires -1 <= written <= |s.buf|
  {
    if s.buf == [] then (s, false)
    else if MustPostpone(s, force, syncInProgress, now) then
      (s.(postponedStart := if s.postponedStart == 0 then now else s.postponedStart), false)
    else WriteOut(s.(postponedStart := 0), written, truncateOk)
  }

  // ---------------------------------------------------------------- the background rewrite

  /** rewriteAppendOnlyFileBackground: the child works on a snapshot taken at fork(2). */
  function Fork(s: Server, forkOk: bool, order: seq<seq<Entry>>): (r: (Server, bool))
    requires |order| <= LONG_MAX
  {
    if s.child || !forkOk then (s, false)
    else (s.(child := true, childFile := PrintAll(Commands(order, 0)), scheduled := false, selectedDb := -1), true)
  }

  function Cleanup(s: Server): Server {
    s.(rewriteBuf := [], child := false, childFile := [], scheduled := s.scheduled || s.state == WaitRewrite)
  }

  /** After rename(2): the descriptor follows unless there was none, and waiting for a rewrite ends. */
  function Switched(s: Server, file: seq<Byte>): Server {
    var s1 := s.(file := file);
    var s2 := if s.fd == NoFd then s1 else s1.(fd := Main, selectedDb := -1, currentSize := |file|, buf := []);
    s2.(state := if s.state == WaitRewrite then On else s.state)
  }

  /** backgroundRewriteDoneHandler: the outcomes of the child, of opening its file, of writing the
      accumulated differences to it, and of rename(2). */
  function Done(s: Server, childOk: bool, openOk: bool, writeOk: bool, renameOk: bool): Server {
    Cleanup(if childOk && openOk && writeOk && renameOk then Switched(s, s.childFile + s.rewriteBuf) else s)
  }

  /** startAppendOnly; the flag is REDIS_OK. */
  function Start(s: Server, openOk: bool, forkOk: bool, order: seq<seq<Entry>>): (r: (Server, bool))
    requires |order| <= LONG_MAX
  {
    if !openOk then (s.(fd := NoFd), false)
    else
      var (s', ok) := Fork(s, forkOk, order);
      if !ok then (s'.(fd := Closed), false) else (s'.(fd := Main, state := WaitRewrite), true)
  }

  /** stopAppendOnly, with the outcome of the forced flush it begins with. */
  function Stop(s: Server, syncInProgress: bool, now: int, written: int, truncateOk: bool): (r: (Server, bool))
    requires -1 <= written <= |s.buf|
  {
    var (s', exited) := Flush(s, true, syncInProgress, now, written, truncateOk);
    if exited then (s', true)
    else
      var s1 := s'.(fd := NoFd, selectedDb := -1, state := Off);
      (if s.child then s1.(rewriteBuf := [], child := false, childFile := []) else s1, false)
  }

  // ---------------------------------------------------------------- what every step keeps

  /** Loading these bytes gives these databases, and leaves the database selected that the server
      believes to be selected in its log. */
  ghost predicate Logs(other: Other, bytes: seq<Byte>, dbs: seq<Db>, selectedDb: int) {
    var r := Replay(other, |dbs|, bytes);
    r.Some? && r.value.dbs == dbs && (selectedDb == -1 || r.value.sel == selectedDb)
  }

  /** With the log on, file and buffer together replay to the dataset. While a child is rewriting, so do
      its file and the differences accumulated since. */
  ghost predicate Consistent(other: Other, s: Server) {
    && |s.dbs| <= LONG_MAX
    && (!s.child ==> s.rewriteBuf == [])
    && (s.state != Off ==> s.fd == Main)
    && (s.state == On ==> s.currentSize == |s.file| && Logs(other, s.file + s.buf, s.dbs, s.selectedDb))
    && (s.child && s.state != Off ==> Logs(other, s.childFile + s.rewriteBuf, s.dbs, s.selectedDb))
  }

  /** `dirty` says that a command counted a change; only then is it fed to the log. One that did not has left
      the databases as they were, and no SELECT counts any. */
  datatype Step =
    | ExecuteStep(dbid: nat, argv: Argv, dirty: bool)
    | FlushStep(force: bool, syncInProgress: bool, now: int, written: int, truncateOk: bool)
    | ForkStep(forkOk: bool, order: seq<seq<Entry>>)
    | DoneStep(childOk: bool, openOk: bool, writeOk: bool, renameOk: bool)
    | StartStep(openOk: bool, forkOk: bool, order: seq<seq<Entry>>)
    | StopStep(syncInProgress: bool, now: int, written: int, truncateOk: bool)

  ghost predicate Enabled(other: Other, s: Server, step: Step) {
    match step
    case ExecuteStep(dbid, argv, dirty) =>
      && dbid < |s.dbs| <= LONG_MAX && 1 <= |argv| <= LONG_MAX
      && if dirty then !IsSelect(argv[0]) else Exec(other, Client(s.dbs, dbid), argv).dbs == s.dbs
    case FlushStep(_, _, _, written, _) => -1 <= written <= |s.buf|
    case ForkStep(_, order) => AllIterate(order, s.dbs)
    case DoneStep(_, _, _, _) => s.child
    case StartStep(_, _, order) => s.state == Off && AllIterate(order, s.dbs)
    case StopStep(_, _, written, _) => s.state != Off && -1 <= written <= |s.buf|
  }

  /** The new state, and whether the process exited. */
  ghost function Do(other: Other, s: Server, step: Step): (r: (Server, bool))
    requires Enabled(other, s, step)
  {
    match step
    case ExecuteStep(dbid, argv, dirty) => (if dirty then Execute(other, s, dbid, argv) else s, false)
    case FlushStep(force, sync, now, written, truncateOk) => Flush(s, force, sync, now, written, truncateOk)
    case ForkStep(forkOk, order) => (Fork(s, forkOk, order).0, false)
    case DoneStep(childOk, openOk, writeOk, renameOk) => (Done(s, childOk, openOk, writeOk, renameOk), false)
    case StartStep(openOk, forkOk, order) => (Start(s, openOk, forkOk, order).0, false)
    case StopStep(sync, now, written, truncateOk) => Stop(s, sync, now, written, truncateOk)
  }

  lemma ExecOne(other: Other, c: Client, argv: Argv)
    ensures ExecAll(other, c, [argv]) == Exec(other, c, argv)
  {
    ExecAllCons(other, c, argv, []);
    assert [argv] + [] == [argv];
    hide Exec;
  }

  /** Feeding a command to a log that replays to the dataset before it. */
  lemma FeedLogs(other: Other, bytes: seq<Byte>, dbs: seq<Db>, selectedDb: int, dbid: nat, argv: Argv)
    requires Logs(other, bytes, dbs, selectedDb) && dbid < |dbs| <= LONG_MAX
    requires 1 <= |argv| <= LONG_MAX && !IsSelect(argv[0])
    ensures Logs(other, bytes + FeedBytes(selectedDb, dbid, argv), Exec(other, Client(dbs, dbid), argv).dbs, dbid)
  {
    var c := Replay(other, |dbs|, bytes).value;
    var select := SelectCommand(dbid);
    SelectRuns(other, c, dbid);
    ExecOne(other, c, argv);
    assert |Exec(other, Client(dbs, dbid), argv).dbs| == |dbs| && Exec(other, Client(dbs, dbid), argv).sel == dbid;
    hide Replay, Exec, PrintAll, ExecAll, SelectCommand;
    if dbid == selectedDb {
      ReplayAppend(other, |dbs|, bytes, [argv]);
    } else {
      SelectFits(dbid);
      ReplayAppend(other, |dbs|, bytes, [select, argv]);
      assert [select, argv] == [select] + [argv];
      ExecAllCons(other, c, select, [argv]);
      ExecOne(other, Client(dbs, dbid), argv);
    }
  }

  lemma SelectFits(j: nat)
    requires j <= LONG_MAX
    ensures 1 <= |SelectCommand(j)| <= LONG_MAX
  {}

  lemma ExecuteKeeps(other: Other, s: Server, dbid: nat, argv: Argv)
    requires Consistent(other, s) && dbid < |s.dbs| && 1 <= |argv| <= LONG_MAX && !IsSelect(argv[0])
    ensures Consistent(other, Execute(other, s, dbid, argv))
  {
    var bytes := FeedBytes(s.selectedDb, dbid, argv);
    if s.state == On { FeedLogs(other, s.file + s.buf, s.dbs, s.selectedDb, dbid, argv); }
    if s.child && s.state != Off { FeedLogs(other, s.childFile + s.rewriteBuf, s.dbs, s.selectedDb, dbid, argv); }
    hide Logs, FeedBytes, Exec;
    Assoc(s.file, s.buf, bytes);
    Assoc(s.childFile, s.rewriteBuf, bytes);
  }

  lemma SplitBuffer(file: seq<Byte>, buf: seq<Byte>, n: nat)
    requires n <= |buf|
    ensures (file + buf[..n]) + buf[n..] == file + buf && buf[..|buf|] == buf && (file + buf) + [] == file + buf
    ensures (file + buf[..n])[..|file|] == file
  {}

  lemma FlushFrame(s: Server, force: bool, sync: bool, now: int, written: int, truncateOk: bool)
    requires -1 <= written <= |s.buf|
    ensures var s' := Flush(s, force, sync, now, written, truncateOk).0;
      && s'.dbs == s.dbs && s'.state == s.state && s'.child == s.child && s'.childFile == s.childFile
      && s'.rewriteBuf == s.rewriteBuf && s'.selectedDb == s.selectedDb && s'.fd == s.fd && s'.scheduled == s.scheduled
  {}

  /** A flush, complete, partial, postponed or failed, loses nothing and duplicates nothing. */
  lemma FlushConserves(s: Server, force: bool, sync: bool, now: int, written: int, truncateOk: bool)
    requires s.currentSize == |s.file| && -1 <= written <= |s.buf|
    ensures var (s', exited) := Flush(s, force, sync, now, written, truncateOk);
      !exited ==> s'.file + s'.buf == s.file + s.buf && s'.currentSize == |s'.file|
  {
    if written >= 0 { SplitBuffer(s.file, s.buf, written); }
  }

  lemma FlushKeeps(other: Other, s: Server, force: bool, sync: bool, now: int, written: int, truncateOk: bool)
    requires Consistent(other, s) && -1 <= written <= |s.buf|
    ensures var (s', exited) := Flush(s, force, sync, now, written, truncateOk);
      !exited ==> Consistent(other, s')
  {
    FlushFrame(s, force, sync, now, written, truncateOk);
    if s.state == On { FlushConserves(s, force, sync, now, written, truncateOk); }
    hide Logs, Flush;
  }

  lemma ForkKeeps(other: Other, s: Server, forkOk: bool, order: seq<seq<Entry>>)
    requires Consistent(other, s) && AllIterate(order, s.dbs)
    ensures Consistent(other, Fork(s, forkOk, order).0)
    ensures Fork(s, forkOk, order).1 ==> Logs(other, Fork(s, forkOk, order).0.childFile, s.dbs, -1)
  {
    RewriteRebuilds(other, order, s.dbs);
    var bytes := PrintAll(Commands(order, 0));
    assert bytes + [] == bytes;
    assert s.state == On ==> Logs(other, s.file + s.buf, s.dbs, -1);
    hide Replay, Commands, AllIterate;
  }

  lemma DoneKeeps(other: Other, s: Server, childOk: bool, openOk: bool, writeOk: bool, renameOk: bool)
    requires Consistent(other, s) && s.child
    ensures Consistent(other, Done(s, childOk, openOk, writeOk, renameOk))
  {
    var file := s.childFile + s.rewriteBuf;
    assert file + [] == file;
    assert s.state != Off ==> Logs(other, file, s.dbs, -1);
    hide Logs;
  }

  lemma StartKeeps(other: Other, s: Server, openOk: bool, forkOk: bool, order: seq<seq<Entry>>)
    requires Consistent(other, s) && s.state == Off && AllIterate(order, s.dbs)
    ensures Consistent(other, Start(s, openOk, forkOk, order).0)
  {
    ForkKeeps(other, s, forkOk, order);
    var s' := Fork(s, forkOk, order).0;
    assert s'.childFile + [] == s'.childFile;
    hide Logs, Commands, PrintAll;
  }

  lemma StopKeeps(other: Other, s: Server, sync: bool, now: int, written: int, truncateOk: bool)
    requires Consistent(other, s) && s.state != Off && -1 <= written <= |s.buf|
    ensures var (s', exited) := Stop(s, sync, now, written, truncateOk);
      !exited ==> Consistent(other, s')
  {
    FlushFrame(s, true, sync, now, written, truncateOk);
    hide Logs, Flush;
  }

  /** Every step that does not end the process keeps the log consistent with the dataset. */
  lemma StepKeepsConsistent(other: Other, s: Server, step: Step)
    requires Consistent(other, s) && Enabled(other, s, step) && !Do(other, s, step).1
    ensures Consistent(other, Do(other, s, step).0)
  {
    hide Consistent, Execute, Flush, Fork, Done, Start, Stop, AllIterate;
    match step
    case ExecuteStep(dbid, argv, dirty) => if dirty { ExecuteKeeps(other, s, dbid, argv); }
    case FlushStep(force, sync, now, written, truncateOk) =>
      FlushKeeps(other, s, force, sync, now, written, truncateOk);
    case ForkStep(forkOk, order) => ForkKeeps(other, s, forkOk, order);
    case DoneStep(childOk, openOk, writeOk, renameOk) => DoneKeeps(other, s, childOk, openOk, writeOk, renameOk);
    case StartStep(openOk, forkOk, order) => StartKeeps(other, s, openOk, forkOk, order);
    case StopStep(sync, now, written, truncateOk) => StopKeeps(other, s, sync, now, written, truncateOk);
  }

  /** s' is reached from s by these steps, none of which ended the process. */
  ghost predicate Reaches(other: Other, s: Server, steps: seq<Step>, s': Server)
    decreases |steps|
  {
    if steps == [] then s' == s
    else
      && Enabled(other, s, steps[0]) && !Do(other, s, steps[0]).1
      && Reaches(other, Do(other, s, steps[0]).0, steps[1..], s')
  }

  /** In every reachable state with the log on, replaying the file and then the buffer gives exactly the
      current databases, and so do the file of a rewriting child and the differences accumulated since. */
  lemma {:induction false} RunLogsDataset(other: Other, s: Server, steps: seq<Step>, s': Server)
    requires Consistent(other, s) && Reaches(other, s, steps, s')
    ensures Consistent(other, s')
    ensures s'.state == On ==>
      Replay(other, |s'.dbs|, s'.file + s'.buf).Some? && Replay(other, |s'.dbs|, s'.file + s'.buf).value.dbs == s'.dbs
    ensures s'.state == On && s'.buf == [] ==>
      Replay(other, |s'.dbs|, s'.file).Some? && Replay(other, |s'.dbs|, s'.file).value.dbs == s'.dbs
    ensures s'.child && s'.state != Off ==>
      var r := Replay(other, |s'.dbs|, s'.childFile + s'.rewriteBuf); r.Some? && r.value.dbs == s'.dbs
    decreases |steps|
  {
    if steps != [] {
      StepKeepsConsistent(other, s, steps[0]);
      hide Consistent, Do, Enabled;
      RunLogsDataset(other, Do(other, s, steps[0]).0, steps[1..], s');
    } else {
      assert s'.file + [] == s'.file;
    }
  }

  /** The server as it starts with an empty log. */
  function Initial(dbnum: nat, fsync: Fsync): Server {
    Server(Empty(dbnum).dbs, On, fsync, Main, [], 0, [], -1, 0, true, false, [], [], false)
  }

  /** The server after loading a log. */
  lemma LoadedIsConsistent(other: Other, dbnum: nat, fsync: Fsync, file: seq<Byte>)
    requires dbnum <= LONG_MAX && Replay(other, dbnum, file).Some?
    ensures Consistent(other,
      Initial(dbnum, fsync).(dbs := Replay(other, dbnum, file).value.dbs, file := file, currentSize := |file|))
  {
    assert file + [] == file;
  }

  lemma InitialIsConsistent(other: Other, dbnum: nat, fsync: Fsync)
    requires dbnum <= LONG_MAX
    ensures Consistent(other, Initial(dbnum, fsync))
  {
    LoadedIsConsistent(other, dbnum, fsync, []);
  }

  /** The same from an empty log on. */
  lemma FreshRunLogsDataset(other: Other, dbnum: nat, fsync: Fsync, steps: seq<Step>, s: Server)
    requires dbnum <= LONG_MAX && Reaches(other, Initial(dbnum, fsync), steps, s)
    ensures s.state == On ==>
      var r := Replay(other, |s.dbs|, s.file + s.buf); r.Some? && r.value.dbs == s.dbs
  {
    InitialIsConsistent(other, dbnum, fsync);
    hide Initial, Reaches, Replay;
    RunLogsDataset(other, Initial(dbnum, fsync), steps, s);
  }

  /** What a flush can leave in the file and the buffer. */
  lemma FlushOutcomes(s: Server, force: bool, sync: bool, now: int, written: int, truncateOk: bool)
    requires s.currentSize == |s.file| && -1 <= written <= |s.buf|
    ensures var s' := Flush(s, force, sync, now, written, truncateOk).0;
      || (s'.file == s.file && s'.buf == s.buf)
      || (s'.file == s.file + s.buf && s'.buf == [])
      || (0 < written < |s.buf| && !truncateOk && s'.file == s.file + s.buf[..written])
  {
    if written >= 0 { SplitBuffer(s.file, s.buf, written); }
    if written == 0 { assert s.file + s.buf[..0] == s.file; }
  }

  /** As long as no short write stays in the file, the file alone can be loaded at any moment. */
  lemma FlushKeepsLoadable(other: Other, s: Server, force: bool, sync: bool, now: int, written: int, truncateOk: bool)
    requires Consistent(other, s) && s.state == On && -1 <= written <= |s.buf|
    requires LoadAll(s.file).Some? && LoadAll(s.buf).Some? && (truncateOk || written <= 0 || written == |s.buf|)
    ensures var s' := Flush(s, force, sync, now, written, truncateOk).0;
      LoadAll(s'.file).Some? && LoadAll(s'.buf).Some?
  {
    LoadAppend(s.file, s.buf);
    assert LoadAll([]) == Some([]);
    FlushOutcomes(s, force, sync, now, written, truncateOk);
    hide LoadAll, Flush;
  }

  /** What a flush leaves in the file. */
  lemma FlushFile(s: Server, force: bool, sync: bool, now: int, written: int, truncateOk: bool)
    requires s.currentSize == |s.file| && -1 <= written <= |s.buf|
    ensures Flush(s, force, sync, now, written, truncateOk).0.file ==
      if 0 < written && (written == |s.buf| || !truncateOk) && s.fd == Main && !MustPostpone(s, force, sync, now)
      then s.file + s.buf[..written] else s.file
  {
    if written >= 0 { SplitBuffer(s.file, s.buf, written); }
    if written == 0 { assert s.file + s.buf[..0] == s.file; }
    hide MustPostpone;
  }

  /** Exactly when it can be loaded after a flush of whole commands: not when a short write that was not truncated
      away ends in the middle of a command. */
  lemma FlushLeavesLoadable(s: Server, cmds: seq<Argv>, force: bool, sync: bool, now: int, written: int,
                            truncateOk: bool)
    requires LoadAll(s.file).Some? && s.buf == PrintAll(cmds) && s.currentSize == |s.file| && -1 <= written <= |s.buf|
    requires forall i :: 0 <= i < |cmds| ==> 1 <= |cmds[i]| <= LONG_MAX
    ensures LoadAll(Flush(s, force, sync, now, written, truncateOk).0.file).Some? <==>
      written <= 0 || EndsCommand(cmds, written) || truncateOk || s.fd != Main || MustPostpone(s, force, sync, now)
  {
    hide *;
    FlushFile(s, force, sync, now, written, truncateOk);
    if written > 0 {
      LoadAppend(s.file, s.buf[..written]);
      JoinedLoads(LoadAll(s.file), LoadAll(s.buf[..written]));
      CutLoads(cmds, written);
      assert written == |s.buf| ==> s.buf[..written] == s.buf;
      AllLoad(cmds);
    }
  }

  lemma JoinedLoads(a: Option<seq<Argv>>, b: Option<seq<Argv>>)
    requires a.Some?
    ensures Joined(a, b).Some? <==> b.Some?
  {}

  /** One byte of a command in the file makes it unloadable. */
  lemma OneByteIsNotLoadable(s: Server, argv: Argv)
    requires LoadAll(s.file).Some? && s.buf == PrintAll([argv]) && s.currentSize == |s.file| && s.fd == Main
    requires 1 <= |argv| <= LONG_MAX
    ensures |s.buf| > 1 && LoadAll(Flush(s, true, false, 0, 1, false).0.file).None?
  {
    assert [argv][1..] == [] && PrintAll([argv]) == Print(argv) + [] == Print(argv);
    assert |Print(argv)| > 1;
    FlushLeavesLoadable(s, [argv], true, false, 0, 1, false);
    hide Print, Flush, LoadAll;
  }
}
