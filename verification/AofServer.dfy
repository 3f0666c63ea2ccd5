/** The append-only file code of aof.c in its own form: the block list that collects differences during
    a rewrite, and the server fields that the operations update. Every method leaves exactly the state
    that the functions of Aof describe. */
module AofServer {
  import opened Bytes
  import opened Protocol
  import opened AofRewrite
  import opened Aof

  const BLOCK_SIZE: nat := 10 * 1024 * 1024

  class Block {
    var used: nat
    var free: nat
    const data: array<Byte>

    ghost predicate Ok()
      reads this
    {
      used + free == BLOCK_SIZE == data.Length
    }

    constructor ()
      ensures Ok() && used == 0 && fresh(data)
    {
      data := new Byte[BLOCK_SIZE](_ => 0);
      used, free := 0, BLOCK_SIZE;
    }

    /** memcpy of as much of s as fits. */
    method Fill(s: seq<Byte>) returns (n: nat)
      requires Ok()
      modifies this, data
      ensures Ok() && n == (if old(free) < |s| then old(free) else |s|) && used == old(used) + n
      ensures data[..used] == old(data[..used]) + s[..n]
    {
      n := if free < |s| then free else |s|;
      forall i | 0 <= i < n { data[used + i] := s[i]; }
      used, free := used + n, free - n;
    }
  }

  /** server.aof_rewrite_buf_blocks; Contents is what has been appended since the last reset. */
  class RewriteBuffer {
    var blocks: seq<Block>
    ghost var Contents: seq<Byte>
    ghost var Repr: set<object>

    /** Block i holds its part of the contents; every block but the last is full. */
    ghost predicate Holds(i: nat)
      requires i < |blocks|
      reads this, blocks[i], blocks[i].data
    {
      && blocks[i].Ok() && (i < |blocks| - 1 ==> blocks[i].free == 0)
      && i * BLOCK_SIZE + blocks[i].used <= |Contents|
      && blocks[i].data[..blocks[i].used] == Contents[i * BLOCK_SIZE..i * BLOCK_SIZE + blocks[i].used]
    }

    ghost predicate Valid()
      reads this, Repr
    {
      && this in Repr
      && (forall i :: 0 <= i < |blocks| ==> blocks[i] in Repr && blocks[i].data in Repr && Holds(i))
      && (forall i, j :: 0 <= i < j < |blocks| ==> blocks[i] != blocks[j] && blocks[i].data != blocks[j].data)
      && |Contents| == if blocks == [] then 0 else (|blocks| - 1) * BLOCK_SIZE + blocks[|blocks| - 1].used
    }

    constructor ()
      ensures Valid() && Contents == [] && fresh(Repr)
    {
      blocks, Contents, Repr := [], [], {this};
    }

    /** aofRewriteBufferReset */
    method Reset()
      modifies this
      ensures Valid() && Contents == [] && Repr == {this}
    {
      blocks, Contents, Repr := [], [], {this};
    }

    /** aofRewriteBufferSize */
    method Size() returns (n: nat)
      requires Valid()
      ensures n == |Contents|
    {
      if blocks == [] { return 0; }
      n := (|blocks| - 1) * BLOCK_SIZE + blocks[|blocks| - 1].used;
    }

    method AddBlock()
      requires Valid() && (blocks == [] || blocks[|blocks| - 1].free == 0)
      modifies this
      ensures Valid() && Contents == old(Contents) && |blocks| == old(|blocks|) + 1
        && blocks[|blocks| - 1].free == BLOCK_SIZE
      ensures fresh(Repr - old(Repr))
    {
      ghost var n := |blocks|;
      assert forall i :: 0 <= i < n ==> Holds(i);
      var b := new Block();
      blocks := blocks + [b];
      Repr := Repr + {b, b.data};
      forall i | 0 <= i < n
        ensures Holds(i) && blocks[i] in Repr && blocks[i].data in Repr && blocks[i] != b && blocks[i].data != b.data {
        assert old(Holds(i)) && blocks[i] == old(blocks)[i];
      }
      assert Holds(n);
      hide Holds;
    }

    method FillLast(s: seq<Byte>) returns (n: nat)
      requires Valid() && blocks != []
      modifies this`Contents, blocks[|blocks| - 1], blocks[|blocks| - 1].data
      ensures n == if old(blocks[|blocks| - 1].free) < |s| then old(blocks[|blocks| - 1].free) else |s|
      ensures Valid() && blocks == old(blocks) && Repr == old(Repr) && Contents == old(Contents) + s[..n]
      ensures n == |s| || blocks[|blocks| - 1].free == 0
    {
      var last: nat := |blocks| - 1;
      ghost var was := Contents;
      assert Holds(last);
      n := blocks[last].Fill(s);
      Contents := Contents + s[..n];
      EndOfAppend(was, s[..n], last * BLOCK_SIZE);
      assert Holds(last);
      OthersHold(s[..n]);
      hide Holds;
    }

    /** Appending to the contents while only the last block changes. */
    twostate lemma OthersHold(new t: seq<Byte>)
      requires blocks == old(blocks) && Contents == old(Contents) + t
      requires forall i :: 0 <= i < |blocks| - 1 ==> old(Holds(i))
      requires forall i :: 0 <= i < |blocks| - 1 ==> unchanged(blocks[i]) && unchanged(blocks[i].data)
      ensures forall i :: 0 <= i < |blocks| - 1 ==> Holds(i)
    {
      forall i | 0 <= i < |blocks| - 1 ensures Holds(i) {
        assert old(Holds(i));
        SliceOfAppend(old(Contents), t, i * BLOCK_SIZE, i * BLOCK_SIZE + blocks[i].used);
        assert old(blocks[i].data[..blocks[i].used]) == blocks[i].data[..blocks[i].used];
      }
    }

    lemma SliceOfAppend(c: seq<Byte>, t: seq<Byte>, a: nat, b: nat)
      requires a <= b <= |c|
      ensures (c + t)[a..b] == c[a..b]
    {}

    lemma EndOfAppend(c: seq<Byte>, t: seq<Byte>, a: nat)
      requires a <= |c|
      ensures (c + t)[a..|c| + |t|] == c[a..|c|] + t
    {}

    /** One turn of the loop of aofRewriteBufferAppend: what is left to append. */
    method AppendPiece(s: seq<Byte>) returns (rest: seq<Byte>)
      requires Valid() && s != []
      modifies Repr
      ensures Valid() && Contents + rest == old(Contents) + s && fresh(Repr - old(Repr))
      ensures |rest| <= |s| && (rest != [] ==> blocks != [] && blocks[|blocks| - 1].free == BLOCK_SIZE)
      ensures old(blocks != [] && blocks[|blocks| - 1].free > 0) ==> |rest| < |s|
    {
      rest := s;
      if blocks != [] {
        var n := FillLast(s);
        rest := s[n..];
        Rejoin(old(Contents), s, n);
      }
      if rest != [] { AddBlock(); }
    }

    lemma Rejoin(c: seq<Byte>, s: seq<Byte>, n: nat)
      requires n <= |s|
      ensures (c + s[..n]) + s[n..] == c + s
    {}

    /** aofRewriteBufferAppend */
    method Append(s0: seq<Byte>)
      requires Valid()
      modifies Repr
      ensures Valid() && Contents == old(Contents) + s0 && fresh(Repr - old(Repr))
    {
      var s := s0;
      while s != []
        invariant Valid() && fresh(Repr - old(Repr)) && Contents + s == old(Contents) + s0
        decreases |s|, if blocks == [] || blocks[|blocks| - 1].free == 0 then 1 else 0
      {
        s := AppendPiece(s);
      }
    }

    ghost predicate Accepted(accepted: seq<nat>)
      requires Valid()
      reads this, Repr
    {
      |accepted| >= |blocks| && forall i :: 0 <= i < |blocks| ==> accepted[i] >= blocks[i].used
    }

    /** aofRewriteBufferWrite: each write(2) takes as many bytes as `accepted` says; on the first short one
        -1 is returned. */
    method WriteTo(fd: seq<Byte>, accepted: seq<nat>) returns (written: seq<Byte>, count: int)
      requires Valid() && |accepted| >= |blocks|
      ensures (count != -1) == Accepted(accepted)
      ensures count != -1 ==> count == |Contents| && written == fd + Contents
    {
      written, count := fd, 0;
      var i: nat := 0;
      while i < |blocks|
        invariant i <= |blocks| && count == (if i < |blocks| then i * BLOCK_SIZE else |Contents|)
        invariant 0 <= count <= |Contents| && written == fd + Contents[..count]
        invariant forall j :: 0 <= j < i ==> accepted[j] >= blocks[j].used
      {
        var block := blocks[i];
        assert Holds(i);
        if block.used != 0 {
          if accepted[i] < block.used { return written + block.data[..accepted[i]], -1; }
          PrefixExtends(Contents, count, block.used);
          written := written + block.data[..block.used];
          count := count + block.used;
        }
        i := i + 1;
      }
    }

    lemma PrefixExtends(c: seq<Byte>, a: nat, n: nat)
      requires a + n <= |c|
      ensures c[..a + n] == c[..a] + c[a..a + n]
    {}
  }

  /** `*2 $6 SELECT $` with the ends of line, as feedAppendOnlyFile prints it. */
  const SELECT_PREFIX: seq<Byte> := [42, 50, 13, 10, 36, 54, 13, 10, 83, 69, 76, 69, 67, 84, 13, 10, 36]

  lemma PrefixBytes()
    ensures (Header(STAR, 2) + PrintArg(SELECT)) + [DOLLAR] == SELECT_PREFIX
  {
    assert Digits(2) == [50] && Digits(6) == [54];
  }

  lemma SelectBytes(dbid: nat)
    requires dbid <= LONG_MAX
    ensures Print(SelectCommand(dbid)) == SELECT_PREFIX + Digits(|Digits(dbid)|) + [CR, LF] + Digits(dbid) + [CR, LF]
  {
    ShortDigits(dbid);
    var d: Str := Digits(dbid);
    assert [SELECT, d] + [] == [SELECT, d] && PrintArgs([]) == [];
    TwoArgs(SELECT, d, []);
    PrefixBytes();
    hide Digits, PrintArgs;
    assert Print([SELECT, d]) == Header(STAR, 2) + (PrintArg(SELECT) + PrintArg(d));
    Regroup(Header(STAR, 2), PrintArg(SELECT), [DOLLAR], Digits(|d|), d);
  }

  lemma Regroup(h: seq<Byte>, p: seq<Byte>, m: seq<Byte>, n: seq<Byte>, d: seq<Byte>)
    ensures h + (p + (m + n + [CR, LF] + d + [CR, LF])) == ((h + p) + m) + n + [CR, LF] + d + [CR, LF]
  {}

  class AofServer {
    const other: Other
    const fsync: Fsync
    const rewriteBlocks: RewriteBuffer
    var dbs: seq<Db>
    var state: AofState
    var fd: Descriptor
    var file: seq<Byte>
    var currentSize: nat
    var buf: seq<Byte>
    var selectedDb: int
    var postponedStart: int
    var lastWriteOk: bool
    var child: bool
    var childFile: seq<Byte>
    var scheduled: bool

    ghost function St(): Server
      reads this, rewriteBlocks
    {
      Server(dbs, state, fsync, fd, file, currentSize, buf, selectedDb, postponedStart, lastWriteOk,
             child, childFile, rewriteBlocks.Contents, scheduled)
    }

    ghost function Footprint(): set<object>
      reads this, rewriteBlocks
    {
      {this} + rewriteBlocks.Repr
    }

    ghost predicate Valid()
      reads this, rewriteBlocks, rewriteBlocks.Repr
    {
      this !in rewriteBlocks.Repr && rewriteBlocks.Valid()
    }

    constructor (other: Other, dbnum: nat, fsync: Fsync)
      ensures Valid() && fresh(rewriteBlocks.Repr) && St() == Initial(dbnum, fsync) && this.other == other
    {
      this.other, this.fsync := other, fsync;
      rewriteBlocks := new RewriteBuffer();
      dbs, state, fd, file, currentSize := Empty(dbnum).dbs, On, Main, [], 0;
      buf, selectedDb, postponedStart, lastWriteOk := [], -1, 0, true;
      child, childFile, scheduled := false, [], false;
    }

    /** The bytes feedAppendOnlyFile prints. */
    method FeedText(dbid: nat, argv: Argv) returns (bytes: seq<Byte>)
      requires dbid <= LONG_MAX
      modifies this`selectedDb
      ensures bytes == FeedBytes(old(selectedDb), dbid, argv) && selectedDb == dbid
    {
      var sds: seq<Byte> := [];
      PrintAllCons(argv, []);
      assert [argv] + [] == [argv] && PrintAll([]) == [];
      if dbid != selectedDb {
        var seldb := Digits(dbid);
        SelectBytes(dbid);
        PrintAllCons(SelectCommand(dbid), [argv]);
        assert [SelectCommand(dbid)] + [argv] == [SelectCommand(dbid), argv];
        hide Digits, Print, SelectCommand, PrintAll;
        sds := SELECT_PREFIX + Digits(|seldb|) + [CR, LF] + seldb + [CR, LF];
        selectedDb := dbid;
      }
      hide Print, SelectCommand;
      bytes := CatGenericCommand(sds, argv);
    }

    /** feedAppendOnlyFile */
    method FeedAppendOnlyFile(dbid: nat, argv: Argv)
      requires Valid() && dbid <= LONG_MAX
      modifies Footprint()
      ensures Valid() && St() == Feed(old(St()), dbid, argv) && fresh(Footprint() - old(Footprint()))
    {
      hide FeedBytes;
      var bytes := FeedText(dbid, argv);
      if state == On { buf := buf + bytes; }
      if child { rewriteBlocks.Append(bytes); }
    }

    /** The execution of a client's command and its propagation. */
    method ExecuteCommand(dbid: nat, argv: Argv)
      requires Valid() && dbid <= LONG_MAX
      modifies Footprint()
      ensures Valid() && St() == Execute(other, old(St()), dbid, argv) && fresh(Footprint() - old(Footprint()))
    {
      hide Exec, Feed;
      dbs := Exec(other, Client(dbs, dbid), argv).dbs;
      if state != Off { FeedAppendOnlyFile(dbid, argv); }
    }

    /** write(2) on server.aof_fd. */
    method WriteFile(written: int) returns (nwritten: int)
      requires -1 <= written <= |buf|
      modifies this`file
      ensures nwritten == if fd == Main then written else -1
      ensures file == if nwritten > 0 then old(file) + buf[..nwritten] else old(file)
    {
      nwritten := if fd == Main then written else -1;
      if nwritten > 0 { file := file + buf[..nwritten]; }
    }

    /** flushAppendOnlyFile; true when the process exits. */
    method FlushAppendOnlyFile(force: bool, syncInProgress: bool, now: int, written: int, truncateOk: bool)
      returns (exited: bool)
      requires Valid() && -1 <= written <= |buf|
      modifies this`postponedStart, this`file, this`lastWriteOk, this`currentSize, this`buf
      ensures Valid() && (St(), exited) == Flush(old(St()), force, syncInProgress, now, written, truncateOk)
    {
      hide WriteOut;
      if buf == [] { return false; }
      if fsync == EverySec && !force {
        if syncInProgress {
          if postponedStart == 0 {
            postponedStart := now;
            return false;
          } else if now - postponedStart < POSTPONE_SECONDS {
            return false;
          }
        }
      }
      postponedStart := 0;
      exited := WriteBuffer(written, truncateOk);
    }

    method WriteBuffer(written: int, truncateOk: bool) returns (exited: bool)
      requires -1 <= written <= |buf|
      modifies this`file, this`lastWriteOk, this`currentSize, this`buf
      ensures (St(), exited) == WriteOut(old(St()), written, truncateOk)
    {
      var nwritten := WriteFile(written);
      assert file + buf[..0] == file;
      if nwritten != |buf| {
        exited := WriteFailed(nwritten, truncateOk);
        return;
      }
      lastWriteOk := true;
      assert buf[..|buf|] == buf;
      currentSize := currentSize + nwritten;
      buf := [];
      return false;
    }

    /** The part of flushAppendOnlyFile after a short or failed write. */
    method WriteFailed(written: int, truncateOk: bool) returns (exited: bool)
      requires -1 <= written < |buf|
      modifies this`file, this`lastWriteOk, this`currentSize, this`buf
      ensures exited == (fsync == Always) && lastWriteOk == (old(lastWriteOk) && exited)
      ensures file == if written != -1 && truncateOk then Truncated(old(file), old(currentSize)) else old(file)
      ensures if exited || written == -1 || truncateOk then currentSize == old(currentSize) && buf == old(buf)
              else currentSize == old(currentSize) + written && buf == old(buf)[written..]
    {
      var nwritten := written;
      if nwritten != -1 {
        if truncateOk {
          file := Truncated(file, currentSize);
          nwritten := -1;
        }
      }
      if fsync == Always { return true; }
      lastWriteOk := false;
      if nwritten > 0 {
        currentSize := currentSize + nwritten;
        buf := buf[nwritten..];
      }
      return false;
    }

    /** rewriteAppendOnlyFileBackground, with the work of the child. */
    method RewriteBackground(forkOk: bool, order: seq<seq<Entry>>) returns (ok: bool)
      requires Valid() && AllIterate(order, dbs)
      modifies this`child, this`childFile, this`scheduled, this`selectedDb
      ensures Valid() && (St(), ok) == Fork(old(St()), forkOk, order)
    {
      hide AllIterate, Commands, PrintAll, Replay;
      if child { return false; }
      if !forkOk { return false; }
      var file := RewriteAppendOnlyFile(other, order, dbs);
      StartChild(file);
      return true;
    }

    method StartChild(file: seq<Byte>)
      requires Valid()
      modifies this`child, this`childFile, this`scheduled, this`selectedDb
      ensures Valid() && St() == old(St()).(child := true, childFile := file, scheduled := false, selectedDb := -1)
    {
      childFile := file;
      child := true;
      scheduled := false;
      selectedDb := -1;
    }

    method CleanupRewrite()
      requires Valid()
      modifies this`child, this`childFile, this`scheduled, rewriteBlocks
      ensures Valid() && St() == Cleanup(old(St())) && rewriteBlocks.Repr == {rewriteBlocks}
    {
      rewriteBlocks.Reset();
      child := false;
      childFile := [];
      if state == WaitRewrite { scheduled := true; }
    }

    /** backgroundRewriteDoneHandler */
    method RewriteDone(childOk: bool, openOk: bool, accepted: seq<nat>, renameOk: bool)
      requires Valid() && |accepted| >= |rewriteBlocks.blocks|
      modifies this, rewriteBlocks
      ensures Valid() && St() == Done(old(St()), childOk, openOk, old(rewriteBlocks.Accepted(accepted)), renameOk)
      ensures rewriteBlocks.Repr == {rewriteBlocks}
    {
      if childOk && openOk {
        var tmpfile, count := rewriteBlocks.WriteTo(childFile, accepted);
        if count != -1 && renameOk { SwitchFile(tmpfile); }
      }
      CleanupRewrite();
    }

    /** The temporary file takes the place of the configured one. */
    method SwitchFile(tmpfile: seq<Byte>)
      modifies this`file, this`fd, this`selectedDb, this`currentSize, this`buf, this`state
      ensures St() == Switched(old(St()), tmpfile)
    {
      file := tmpfile;
      if fd != NoFd {
        fd := Main;
        selectedDb := -1;
        currentSize := |file|;
        buf := [];
      }
      if state == WaitRewrite { state := On; }
    }

    /** startAppendOnly */
    method StartAppendOnly(openOk: bool, forkOk: bool, order: seq<seq<Entry>>) returns (ok: bool)
      requires Valid() && state == Off && AllIterate(order, dbs)
      modifies this
      ensures Valid() && (St(), ok) == Start(old(St()), openOk, forkOk, order)
    {
      hide AllIterate, Commands, PrintAll, Replay;
      fd := if openOk then Main else NoFd;
      if fd == NoFd { return false; }
      ok := RewriteBackground(forkOk, order);
      if !ok {
        fd := Closed;
        return;
      }
      state := WaitRewrite;
    }

    /** stopAppendOnly; true when the process exits in its flush. */
    method StopAppendOnly(syncInProgress: bool, now: int, written: int, truncateOk: bool) returns (exited: bool)
      requires Valid() && state != Off && -1 <= written <= |buf|
      modifies this, rewriteBlocks
      ensures Valid() && (St(), exited) == Stop(old(St()), syncInProgress, now, written, truncateOk)
    {
      hide Flush;
      exited := FlushAppendOnlyFile(true, syncInProgress, now, written, truncateOk);
      if exited { return; }
      CloseLog();
    }

    /** The part of stopAppendOnly after the flush. */
    method CloseLog()
      requires Valid()
      modifies this`fd, this`selectedDb, this`state, this`child, this`childFile, rewriteBlocks
      ensures Valid()
      ensures var s := old(St()).(fd := NoFd, selectedDb := -1, state := Off);
        St() == if s.child then s.(rewriteBuf := [], child := false, childFile := []) else s
    {
      MarkClosed();
      assert St().child == child;
      hide Valid, St;
      if child { KillChild(); }
    }

    method MarkClosed()
      requires Valid()
      modifies this`fd, this`selectedDb, this`state
      ensures Valid() && St() == old(St()).(fd := NoFd, selectedDb := -1, state := Off)
    {
      fd := NoFd;
      selectedDb := -1;
      state := Off;
    }

    method KillChild()
      requires Valid()
      modifies this`child, this`childFile, rewriteBlocks
      ensures Valid() && St() == old(St()).(rewriteBuf := [], child := false, childFile := [])
    {
      rewriteBlocks.Reset();
      childFile := [];
      child := false;
    }
  }
}
