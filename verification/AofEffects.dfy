/** What the steps of the append-only file bring about when the system calls succeed, and that nothing else changes
    when they fail: `Aof` proves what every step keeps, this module what each is for. */
module AofEffects {
  import opened Basics
  import opened Bytes
  import opened Protocol
  import opened AofRewrite
  import opened Aof

  // ---------------------------------------------------------------- feeding

  /** What is fed loads as the command, after a SELECT exactly when the last command was for another database. */
  lemma FedCommands(selectedDb: int, dbid: nat, argv: Argv)
    requires dbid <= LONG_MAX && 1 <= |argv| <= LONG_MAX
    ensures LoadAll(FeedBytes(selectedDb, dbid, argv))
         == Some(if dbid == selectedDb then [argv] else [SelectCommand(dbid), argv])
  {
    SelectFits(dbid);
    AllLoad(if dbid != selectedDb then [SelectCommand(dbid), argv] else [argv]);
    hide PrintAll, LoadAll, SelectCommand;
  }

  // ---------------------------------------------------------------- flushing

  /** A flush waits only under the policy everysec, unforced, while a sync is running, and for less than two seconds
      since the first flush that waited; it then only remembers when that was. Any other flush leaves no file of the
      old length behind when all bytes are taken. */
  lemma FlushWaits(s: Server, force: bool, sync: bool, now: int, truncateOk: bool)
    requires s.buf != [] && s.fd == Main
    ensures var (s', exited) := Flush(s, force, sync, now, |s.buf|, truncateOk);
      var waits := s.fsync == EverySec && !force && sync && (s.postponedStart == 0 || now < s.postponedStart + 2);
      && !exited
      && (waits ==> s' == s.(postponedStart := s'.postponedStart))
      && (waits ==> s'.postponedStart == if s.postponedStart == 0 then now else s.postponedStart)
      && (!waits ==> s'.file == s.file + s.buf && s'.buf == [] && s'.currentSize == s.currentSize + |s.buf|)
      && (!waits ==> s'.lastWriteOk && s'.postponedStart == 0)
  {
    assert s.buf[..|s.buf|] == s.buf;
  }

  /** A forced flush whose bytes are all taken empties the buffer into the file. */
  lemma ForcedFlushWrites(s: Server, sync: bool, now: int, truncateOk: bool)
    requires s.fd == Main
    ensures var (s', exited) := Flush(s, true, sync, now, |s.buf|, truncateOk);
      !exited && s'.file == s.file + s.buf && s'.buf == []
  {
    if s.buf == [] {
      assert s.file + s.buf == s.file;
    } else {
      FlushWaits(s, true, sync, now, truncateOk);
    }
  }

  /** A write that takes less, with a file that does not keep it, changes neither file nor buffer: the server exits
      when every reply promises a synced log, and otherwise remembers the error. */
  lemma FailedFlush(s: Server, sync: bool, now: int, written: int)
    requires s.buf != [] && s.fd == Main && s.currentSize == |s.file| && -1 <= written < |s.buf|
    ensures var (s', exited) := Flush(s, true, sync, now, written, true);
      && s'.file == s.file && s'.buf == s.buf && s'.currentSize == s.currentSize
      && exited == (s.fsync == Always) && (!exited ==> !s'.lastWriteOk)
  {
    if written >= 0 { SplitBuffer(s.file, s.buf, written); }
  }

  // ---------------------------------------------------------------- the background rewrite

  /** A rewrite starts exactly when none is running and fork(2) succeeds. */
  lemma ForkStarts(s: Server, forkOk: bool, order: seq<seq<Entry>>)
    requires |order| <= LONG_MAX
    ensures var (s', ok) := Fork(s, forkOk, order);
      && ok == (!s.child && forkOk)
      && (ok ==> s'.child && !s'.scheduled && s'.selectedDb == -1 && LoadAll(s'.childFile) == Some(Commands(order, 0)))
      && s' == s.(child := s'.child, childFile := s'.childFile, scheduled := s'.scheduled, selectedDb := s'.selectedDb)
      && (!ok ==> s' == s)
  {
    CommandsFit(order, 0);
    AllLoad(Commands(order, 0));
    hide Commands, PrintAll, LoadAll;
  }

  /** When the child, the open, the write and the rename succeed, the log holds the commands of the child's file and
      then those fed since; it is the file that is written from now on, and waiting for it is over. */
  lemma DoneSwitches(s: Server)
    requires LoadAll(s.childFile).Some?
    ensures var s' := Done(s, true, true, true, true);
      && s'.file == s.childFile + s.rewriteBuf
      && LoadAll(s'.file) == Joined(LoadAll(s.childFile), LoadAll(s.rewriteBuf))
      && s'.state == (if s.state == WaitRewrite then On else s.state)
      && s'.fd == (if s.fd == NoFd then NoFd else Main)
      && (s.fd != NoFd ==> s'.buf == [] && s'.selectedDb == -1 && s'.currentSize == |s'.file|)
      && (s.fd == NoFd ==> s'.buf == s.buf && s'.selectedDb == s.selectedDb && s'.currentSize == s.currentSize)
      && !s'.child && s'.childFile == [] && s'.rewriteBuf == [] && s'.dbs == s.dbs
  {
    LoadAppend(s.childFile, s.rewriteBuf);
    hide LoadAll;
  }

  /** When one of them fails, log and state are as they were: the child and its differences are gone, and a server
      that waits for its log tries again. */
  lemma DoneFails(s: Server, childOk: bool, openOk: bool, writeOk: bool, renameOk: bool)
    requires !(childOk && openOk && writeOk && renameOk)
    ensures var s' := Done(s, childOk, openOk, writeOk, renameOk);
      && s' == s.(child := false, childFile := [], rewriteBuf := [], scheduled := s'.scheduled)
      && s'.scheduled == (s.scheduled || s.state == WaitRewrite)
  {}

  // ---------------------------------------------------------------- turning the log on and off

  lemma StartWaits(other: Other, s: Server, openOk: bool, forkOk: bool, order: seq<seq<Entry>>)
    requires s.state == Off && AllIterate(order, s.dbs)
    ensures var (s', ok) := Start(s, openOk, forkOk, order);
      && ok == (openOk && forkOk && !s.child)
      && s'.state == (if ok then WaitRewrite else Off)
      && (ok ==> s'.fd == Main && s'.child && LoadAll(s'.childFile) == Some(Commands(order, 0)))
      && (!openOk ==> s'.fd == NoFd) && (openOk && !ok ==> s'.fd == Closed)
      && s'.dbs == s.dbs && s'.file == s.file && s'.buf == s.buf
  {
    ForkStarts(s, forkOk, order);
    hide Fork, AllIterate, LoadAll;
  }

  /** Only stopping turns the log off. */
  lemma {:induction false} OnlyStopTurnsOff(other: Other, s: Server, steps: seq<Step>, s': Server)
    requires s.state != Off && Reaches(other, s, steps, s') && forall i :: 0 <= i < |steps| ==> !steps[i].StopStep?
    ensures s'.state != Off
    decreases |steps|
  {
    if steps != [] {
      assert !steps[0].StopStep?;
      StepStaysOn(other, s, steps[0]);
      hide Do, Enabled;
      OnlyStopTurnsOff(other, Do(other, s, steps[0]).0, steps[1..], s');
    }
  }

  lemma StepStaysOn(other: Other, s: Server, step: Step)
    requires s.state != Off && Enabled(other, s, step) && !step.StopStep?
    ensures Do(other, s, step).0.state != Off
  {
    match step
    case FlushStep(force, sync, now, written, truncateOk) => FlushFrame(s, force, sync, now, written, truncateOk);
    case _ =>
  }

  /** Turning the log on works: from off, whatever runs after a successful start short of turning it off again, the
      next rewrite that is installed leaves the log on, with a file that replays to the databases of that moment. */
  lemma TurningOn(other: Other, s: Server, order: seq<seq<Entry>>, steps: seq<Step>, s': Server)
    requires Consistent(other, s) && s.state == Off && !s.child && AllIterate(order, s.dbs)
    requires Reaches(other, Start(s, true, true, order).0, steps, s')
    requires s'.child && forall i :: 0 <= i < |steps| ==> !steps[i].StopStep?
    ensures Start(s, true, true, order).1
    ensures var r := Done(s', true, true, true, true);
      && r.state == On && r.fd == Main && r.buf == [] && !r.child && r.dbs == s'.dbs
      && Replay(other, |r.dbs|, r.file).Some? && Replay(other, |r.dbs|, r.file).value.dbs == r.dbs
  {
    assert |order| <= LONG_MAX;
    hide *;
    var started := Start(s, true, true, order).0;
    StartKeeps(other, s, true, true, order);
    StartWaits(other, s, true, true, order);
    OnlyStopTurnsOff(other, started, steps, s');
    RunLogsDataset(other, started, steps, s');
    DoneKeeps(other, s', true, true, true, true);
    Installed(other, s');
  }

  lemma Installed(other: Other, s: Server)
    requires Consistent(other, s) && s.child && s.state != Off
    ensures var r := Done(s, true, true, true, true);
      && r.state == On && r.fd == Main && r.buf == [] && !r.child && r.dbs == s.dbs
      && Replay(other, |r.dbs|, r.file).Some? && Replay(other, |r.dbs|, r.file).value.dbs == r.dbs
  {
    hide Replay;
  }

  /** Turning the log off writes what was still in the buffer first: when the write is complete, the file alone
      replays to the databases. A rewriting child is given up. */
  lemma TurningOff(other: Other, s: Server, sync: bool, now: int, truncateOk: bool)
    requires Consistent(other, s) && s.state == On
    ensures var (s', exited) := Stop(s, sync, now, |s.buf|, truncateOk);
      && !exited && s'.state == Off && s'.fd == NoFd && !s'.child && s'.rewriteBuf == [] && s'.dbs == s.dbs
      && s'.file == s.file + s.buf && s'.buf == []
      && Replay(other, |s'.dbs|, s'.file).Some? && Replay(other, |s'.dbs|, s'.file).value.dbs == s'.dbs
  {
    ForcedFlushWrites(s, sync, now, truncateOk);
    FlushFrame(s, true, sync, now, |s.buf|, truncateOk);
    hide Replay, Flush;
  }
}
