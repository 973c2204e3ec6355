/**
 The append only file while the server runs (aof.c): commands are logged to a buffer that is flushed to
 the file, and a background rewrite replaces the file by a snapshot followed by the differences.
 What a command does is a parameter; the log is kept at the level of bytes.
 */
module Aof {
  import opened Bytes
  import opened Resp
  import AofFile
  import Decimal

  const AOF_RW_BUF_BLOCK_SIZE := 1024 * 1024 * 10
  const SELECT: seq<byte> := [83, 69, 76, 69, 67, 84]
  const select: seq<byte> := [115, 101, 108, 101, 99, 116]

  // ----- Replaying a log -----

  /** The state of a replay: the selected database and the data. */
  datatype Replay<D> = Replay(db: int, data: D)

  predicate IsSelect(cmd: Command) {
    |cmd| == 2 && AofFile.Named(cmd[0], select)
  }

  function Step<D>(exec: (D, int, Command) -> D, s: Replay<D>, cmd: Command): Replay<D> {
    if IsSelect(cmd) then
      match Decimal.Parse(cmd[1])
      case Some(db) => s.(db := db)
      case None => s
    else
      s.(data := exec(s.data, s.db, cmd))
  }

  function Run<D>(exec: (D, int, Command) -> D, s: Replay<D>, cmds: seq<Command>): Replay<D> {
    if cmds == [] then s
    else Step(exec, Run(exec, s, cmds[..|cmds| - 1]), cmds[|cmds| - 1])
  }

  lemma {:induction false} RunAppend<D>(exec: (D, int, Command) -> D, s: Replay<D>, a: seq<Command>, b: seq<Command>)
    ensures Run(exec, s, a + b) == Run(exec, Run(exec, s, a), b)
    decreases |b|
  {
    if b == [] {
      assert a + b == a;
    } else {
      var init := b[..|b| - 1];
      assert (a + b)[..|a + b| - 1] == a + init;
      RunAppend(exec, s, a, init);
    }
  }

  lemma RunOne<D>(exec: (D, int, Command) -> D, s: Replay<D>, cmd: Command)
    ensures Run(exec, s, [cmd]) == Step(exec, s, cmd)
  {
    assert [cmd][..0] == [];
  }

  function SelectCommand(db: int): (cmd: Command)
    ensures IsSelect(cmd)
  {
    [SELECT, Decimal.Print(db)]
  }

  /** A log that starts by selecting a database replays the same from any selected database. */
  lemma SelectForgets<D>(exec: (D, int, Command) -> D, db1: int, db2: int, data: D, first: int, cmds: seq<Command>)
    requires 0 <= first <= Decimal.LLONG_MAX && cmds != [] && cmds[0] == SelectCommand(first)
    ensures Run(exec, Replay(db1, data), cmds) == Run(exec, Replay(db2, data), cmds)
  {
    hide Decimal.Parse;
    var head, tail := [cmds[0]], cmds[1..];
    assert cmds == head + tail;
    Decimal.ParsePrinted(first);
    RunAppend(exec, Replay(db1, data), head, tail);
    RunAppend(exec, Replay(db2, data), head, tail);
    RunOne(exec, Replay(db1, data), cmds[0]);
    RunOne(exec, Replay(db2, data), cmds[0]);
  }

  /** The text that feedAppendOnlyFile formats for SELECT is the encoding of that command. */
  lemma SelectText(db: nat)
    requires db < 0x8000_0000
    ensures [STAR, 50] + CRLF + [DOLLAR, 54] + CRLF + SELECT + CRLF
            + [DOLLAR] + Decimal.Print(|Decimal.Print(db)|) + CRLF + Decimal.Print(db) + CRLF
         == Encode(SelectCommand(db))
    ensures Sendable(SelectCommand(db))
  {
    hide Decimal.Print, IsSelect;
    var cmd := SelectCommand(db);
    assert Decimal.Print(2) == [50] && Decimal.Print(6) == [54] by {
      SmallNumbers();
    }
    assert Header(STAR, 2) == [STAR, 50] + CRLF;
    var none: seq<Arg> := [];
    assert cmd[1..][0] == cmd[1] && cmd[1..][1..] == none;
    assert EncodeArgs(cmd[1..]) == EncodeArg(cmd[1]) + EncodeArgs(none);
    assert EncodeArgs(cmd) == EncodeArg(cmd[0]) + EncodeArg(cmd[1]);
    assert EncodeArg(cmd[0]) == [DOLLAR, 54] + CRLF + SELECT + CRLF;
    PrintedLength(db);
  }

  lemma SmallNumbers()
    ensures Decimal.Print(2) == [50] && Decimal.Print(6) == [54]
  {
  }

  lemma PrintedLength(db: nat)
    requires db < 0x8000_0000
    ensures |Decimal.Print(db)| <= 10
  {
    PowerOfTen();
    Decimal.DigitsLength(db, 10, Decimal.Pow10(10));
  }

  // ----- What a log says about the data -----

  /** `log` encodes `cmds`, which lead from `start` to `data`; `selected` is the database it ends in, or -1. */
  ghost predicate Logged<D>(exec: (D, int, Command) -> D, start: Replay<D>, log: seq<byte>, cmds: seq<Command>,
                            data: D, selected: int) {
    var end := Run(exec, start, cmds);
    AllSendable(cmds) && log == EncodeAll(cmds) && end.data == data && (selected == -1 || selected == end.db)
  }

  /** The commands that are appended for one executed command: a SELECT when the database changes. */
  function Fed(selected: int, dictid: nat, argv: Command): seq<Command> {
    (if dictid != selected then [SelectCommand(dictid)] else []) + [argv]
  }

  lemma FedLogged<D>(exec: (D, int, Command) -> D, start: Replay<D>, log: seq<byte>, cmds: seq<Command>, data: D,
                     selected: int, dictid: nat, argv: Command)
    requires Logged(exec, start, log, cmds, data, selected)
    requires dictid < 0x8000_0000 && Sendable(argv) && !IsSelect(argv)
    ensures var fed := Fed(selected, dictid, argv);
            Logged(exec, start, log + EncodeAll(fed), cmds + fed, exec(data, dictid, argv), dictid)
  {
    hide EncodeAll, Sendable, Decimal.Parse, Decimal.Print;
    var fed, s := Fed(selected, dictid, argv), Run(exec, start, cmds);
    EncodeAllAppend(cmds, fed);
    RunAppend(exec, start, cmds, fed);
    SelectText(dictid);
    Decimal.ParsePrinted(dictid);
    if dictid != selected {
      RunAppend(exec, s, [SelectCommand(dictid)], [argv]);
      RunOne(exec, s, SelectCommand(dictid));
      RunOne(exec, s.(db := dictid), argv);
    } else {
      assert fed == [argv];
      RunOne(exec, s, argv);
    }
  }

  /** A snapshot log followed by the differences since the snapshot is a log of the data. */
  lemma SnapshotThenDiff<D>(exec: (D, int, Command) -> D, start: Replay<D>, snap: seq<Command>, snapshot: D,
                            log: seq<byte>, diff: seq<Command>, data: D, selected: int)
    requires AllSendable(snap) && Run(exec, start, snap).data == snapshot
    requires Logged(exec, Replay(0, snapshot), log, diff, data, selected)
    requires diff != [] ==> exists first :: 0 <= first <= Decimal.LLONG_MAX && diff[0] == SelectCommand(first)
    ensures Logged(exec, start, EncodeAll(snap) + log, snap + diff, data, -1)
  {
    hide EncodeAll, Decimal.Print, Sendable;
    EncodeAllAppend(snap, diff);
    RunAppend(exec, start, snap, diff);
    var s := Run(exec, start, snap);
    if diff != [] {
      var first :| 0 <= first <= Decimal.LLONG_MAX && diff[0] == SelectCommand(first);
      SelectForgets(exec, 0, s.db, snapshot, first, diff);
    }
  }

  // ----- The rewrite buffer -----

  /** One block of the rewrite buffer: the bytes used so far, of AOF_RW_BUF_BLOCK_SIZE. */
  type Block = b: seq<byte> | |b| <= AOF_RW_BUF_BLOCK_SIZE

  function Flatten(blocks: seq<Block>): seq<byte> {
    if blocks == [] then [] else Flatten(blocks[..|blocks| - 1]) + blocks[|blocks| - 1]
  }

  /** All blocks but the last are full. */
  ghost predicate Packed(blocks: seq<Block>) {
    (forall i :: 0 <= i < |blocks| - 1 ==> |blocks[i]| == AOF_RW_BUF_BLOCK_SIZE)
  }

  lemma {:induction false} FullBlocks(blocks: seq<Block>)
    requires forall i :: 0 <= i < |blocks| ==> |blocks[i]| == AOF_RW_BUF_BLOCK_SIZE
    ensures |Flatten(blocks)| == |blocks| * AOF_RW_BUF_BLOCK_SIZE
  {
    if blocks != [] {
      FullBlocks(blocks[..|blocks| - 1]);
    }
  }

  /** aofRewriteBufferSize: only the last block is looked at, so it is right because the others are full. */
  function RewriteBufferSize(blocks: seq<Block>): nat {
    if blocks == [] then 0 else (|blocks| - 1) * AOF_RW_BUF_BLOCK_SIZE + |blocks[|blocks| - 1]|
  }

  lemma RewriteBufferSizeExact(blocks: seq<Block>)
    requires Packed(blocks)
    ensures RewriteBufferSize(blocks) == |Flatten(blocks)|
  {
    if blocks != [] {
      FullBlocks(blocks[..|blocks| - 1]);
    }
  }

  lemma FlattenLast(blocks: seq<Block>, b: Block)
    ensures Flatten(blocks + [b]) == Flatten(blocks) + b
  {
    assert (blocks + [b])[..|blocks|] == blocks;
  }

  /** aofRewriteBufferAppend: fills the last block, then adds blocks until everything is stored. */
  method RewriteBufferAppend(blocks: seq<Block>, s: seq<byte>) returns (blocks': seq<Block>)
    requires Packed(blocks)
    ensures Packed(blocks') && Flatten(blocks') == Flatten(blocks) + s
  {
    hide Flatten;
    blocks' := blocks;
    var rest := s;
    while |rest| > 0
      invariant Packed(blocks') && Flatten(blocks') + rest == Flatten(blocks) + s
      decreases |rest|, if blocks' == [] || |blocks'[|blocks'| - 1]| == AOF_RW_BUF_BLOCK_SIZE then 1 else 0
    {
      if blocks' != [] {
        var block := blocks'[|blocks'| - 1];
        var free := AOF_RW_BUF_BLOCK_SIZE - |block|;
        var thislen := if free < |rest| then free else |rest|;
        if thislen > 0 {
          ghost var front := blocks'[..|blocks'| - 1];
          assert front + [block] == blocks';
          FlattenLast(front, block);
          FlattenLast(front, block + rest[..thislen]);
          blocks' := blocks'[..|blocks'| - 1] + [block + rest[..thislen]];
          assert rest == rest[..thislen] + rest[thislen..];
          rest := rest[thislen..];
        }
      }
      if |rest| > 0 {
        FlattenLast(blocks', []);
        blocks' := blocks' + [[]];
      }
    }
  }

  /** Every write takes the whole block. */
  predicate AllWritten(blocks: seq<Block>, answers: seq<int>)
    requires |answers| >= |blocks|
  {
    forall i :: 0 <= i < |blocks| ==> |blocks[i]| == 0 || answers[i] == |blocks[i]|
  }

  /**
   aofRewriteBufferWrite: one write per block. `answers` are what the writes return; anything but the
   whole block is an error.
   */
  method RewriteBufferWrite(file: seq<byte>, blocks: seq<Block>, answers: seq<int>)
    returns (file': seq<byte>, count: int)
    requires |answers| >= |blocks|
    ensures if AllWritten(blocks, answers) then count == |Flatten(blocks)| && file' == file + Flatten(blocks)
            else count == -1
  {
    file', count := file, 0;
    var i := 0;
    while i < |blocks|
      invariant 0 <= i <= |blocks|
      invariant count == |Flatten(blocks[..i])| && file' == file + Flatten(blocks[..i])
      invariant forall j :: 0 <= j < i ==> |blocks[j]| == 0 || answers[j] == |blocks[j]|
    {
      var block := blocks[i];
      assert blocks[..i + 1] == blocks[..i] + [block];
      FlattenLast(blocks[..i], block);
      if |block| > 0 {
        if answers[i] != |block| {
          return file', -1;
        }
        file' := file' + block;
        count := count + answers[i];
      }
      i := i + 1;
    }
    assert blocks[..i] == blocks;
  }

  // ----- The server -----

  datatype State = Off | On | WaitRewrite

  /** ftruncate: a file is cut, or extended with zero bytes. */
  function Truncate(file: seq<byte>, size: nat): (r: seq<byte>)
    ensures |r| == size
  {
    if size <= |file| then file[..size] else file + seq(size - |file|, _ => 0)
  }

  /** What the outside world decides: how writes, forks, the rewriting child and renames turn out. */
  datatype Event =
    | Execute(dbid: nat, argv: Command)
    | Flush(postpone: bool, written: int, truncated: bool)
    | Fork(forked: bool)
    | ChildDone(success: bool, found: bool, answers: seq<int>, renamed: bool)
    | Stop(written: int, truncated: bool)
    | Start(oldFile: seq<byte>)

  /** What an event does to the data: only executed commands change it. */
  function After<D>(exec: (D, int, Command) -> D, data: D, e: Event): D {
    if e.Execute? && e.dbid < 0x8000_0000 && Sendable(e.argv) && !IsSelect(e.argv)
    then exec(data, e.dbid, e.argv) else data
  }

  function AfterAll<D>(exec: (D, int, Command) -> D, data: D, events: seq<Event>): D
    decreases |events|
  {
    if events == [] then data else After(exec, AfterAll(exec, data, events[..|events| - 1]), events[|events| - 1])
  }

  /** The first event comes first. */
  lemma {:induction false} AfterFirst<D>(exec: (D, int, Command) -> D, data: D, e: Event, events: seq<Event>)
    ensures AfterAll(exec, data, [e] + events) == AfterAll(exec, After(exec, data, e), events)
    decreases |events|
  {
    if events == [] {
      assert [e] + events == [e] && [e][..0] == [];
    } else {
      assert ([e] + events)[..|events|] == [e] + events[..|events| - 1];
      AfterFirst(exec, data, e, events[..|events| - 1]);
    }
  }

  /** The text of feedAppendOnlyFile: a SELECT when the database changes, then the command. */
  method FeedText(selectedDb: int, dictid: nat, argv: Command) returns (text: seq<byte>)
    requires dictid < 0x8000_0000
    ensures text == EncodeAll(Fed(selectedDb, dictid, argv))
  {
    hide *;
    text := [];
    if dictid != selectedDb {
      var db := Decimal.Print(dictid);
      text := text + ([STAR, 50] + CRLF + [DOLLAR, 54] + CRLF + SELECT + CRLF
                      + [DOLLAR] + Decimal.Print(|db|) + CRLF + db + CRLF);
      SelectText(dictid);
    }
    text := CatCommand(text, argv);
    FedEncoding(selectedDb, dictid, argv);
  }

  class Server<D(!new)> {
    const exec: (D, int, Command) -> D
    const empty: D
    const snapshotLog: D -> seq<Command>  // what the rewriting child writes for a data set
    const fsyncAlways: bool

    var data: D
    var state: State
    var buf: seq<byte>       // aof_buf
    var file: seq<byte>      // the file behind aof_fd
    var currentSize: nat     // aof_current_size
    var selectedDb: int      // aof_selected_db
    var child: bool          // aof_child_pid != -1
    var blocks: seq<Block>   // aof_rewrite_buf_blocks
    var childFile: seq<byte> // the child's temporary file
    var alive: bool

    ghost var history: seq<Command>  // what file and buf encode while the state is On
    ghost var snapshot: D            // the data when the child was forked
    ghost var diff: seq<Command>     // what was fed since then

    /** What is asked of the rewriting child: its log leads from the empty data set to the given one. */
    ghost predicate SnapshotLaw() {
      forall d: D :: AllSendable(snapshotLog(d)) && Run(exec, Replay(0, empty), snapshotLog(d)).data == d
    }

    ghost predicate MainLog()
      reads this
    {
      && Logged(exec, Replay(0, empty), EncodeAll(history), history, data, selectedDb)
      && file <= EncodeAll(history)
      && (alive ==> file + buf == EncodeAll(history) && currentSize == |file|)
    }

    ghost predicate DiffLog()
      reads this
    {
      && childFile == EncodeAll(snapshotLog(snapshot))
      && Logged(exec, Replay(0, snapshot), Flatten(blocks), diff, data, selectedDb)
      && (diff != [] ==> exists first :: 0 <= first <= Decimal.LLONG_MAX && diff[0] == SelectCommand(first))
      && (diff == [] ==> selectedDb == -1)
    }

    ghost predicate Valid()
      reads this
    {
      && SnapshotLaw() && Packed(blocks) && (!child ==> blocks == [])
      && (state == On ==> MainLog())
      && (state != Off && child ==> DiffLog())
    }

    /** The server has loaded a log and goes on appending to it. */
    constructor (exec: (D, int, Command) -> D, empty: D, snapshotLog: D -> seq<Command>, fsyncAlways: bool,
                 loaded: seq<Command>)
      requires AllSendable(loaded)
      requires forall d: D :: AllSendable(snapshotLog(d)) && Run(exec, Replay(0, empty), snapshotLog(d)).data == d
      ensures Valid() && state == On && alive && history == loaded && buf == []
      ensures this.exec == exec && this.empty == empty && data == Run(exec, Replay(0, empty), loaded).data
    {
      this.exec, this.empty, this.snapshotLog, this.fsyncAlways := exec, empty, snapshotLog, fsyncAlways;
      data, state := Run(exec, Replay(0, empty), loaded).data, On;
      file, buf, currentSize := EncodeAll(loaded), [], |EncodeAll(loaded)|;
      selectedDb, child, blocks, childFile, alive := -1, false, [], [], true;
      history, snapshot, diff := loaded, empty, [];
    }

    /** feedAppendOnlyFile. */
    method Feed(dictid: nat, argv: Command)
      requires dictid < 0x8000_0000 && Packed(blocks)
      modifies this`selectedDb, this`buf, this`blocks
      ensures Packed(blocks) && selectedDb == dictid
      ensures var text := EncodeAll(Fed(old(selectedDb), dictid, argv));
              && buf == old(buf) + (if state == On then text else [])
              && Flatten(blocks) == Flatten(old(blocks)) + (if child then text else [])
      ensures !child ==> blocks == old(blocks)
    {
      hide Encode, Flatten, EncodeAll;
      var text := FeedText(selectedDb, dictid, argv);
      selectedDb := dictid;
      if state == On {
        buf := buf + text;
      }
      if child {
        blocks := RewriteBufferAppend(blocks, text);
      }
    }

    /** A write command is executed, and propagated to the log unless the AOF is off (redis.c, propagate). */
    method ExecuteCommand(dbid: nat, argv: Command)
      requires Valid() && alive
      requires dbid < 0x8000_0000 && Sendable(argv) && !IsSelect(argv)
      modifies this`data, this`selectedDb, this`buf, this`blocks, this`history, this`diff
      ensures Valid()
      ensures data == exec(old(data), dbid, argv)
      ensures state == On ==> history == old(history) + Fed(old(selectedDb), dbid, argv)
    {
      hide Run, EncodeAll, Flatten, IsSelect, Sendable;
      ghost var fed := Fed(selectedDb, dbid, argv);
      if state == On {
        FedLogged(exec, Replay(0, empty), EncodeAll(history), history, data, selectedDb, dbid, argv);
        EncodeAllAppend(history, fed);
      }
      if state != Off && child {
        FedLogged(exec, Replay(0, snapshot), Flatten(blocks), diff, data, selectedDb, dbid, argv);
      }
      data := exec(data, dbid, argv);
      if state != Off {
        Feed(dbid, argv);
        history, diff := history + fed, diff + fed;
      }
    }

    /**
     flushAppendOnlyFile. `written` is what write returns; a short write is undone by ftruncate when
     `truncated`, and otherwise kept and removed from the buffer. With appendfsync always the
     process exits instead.
     */
    method FlushBuffer(postpone: bool, written: int, truncated: bool)
      requires Valid() && alive && -1 <= written <= |buf|
      modifies this`file, this`buf, this`currentSize, this`alive
      ensures Valid()
      ensures alive <==> !fsyncAlways || postpone || old(buf) == [] || written == old(|buf|)
      ensures state == On && 0 <= written < old(|buf|) && truncated ==> file == old(file) && buf == old(buf)
      ensures !postpone && written == old(|buf|) ==> alive && buf == [] && file == old(file + buf)
      ensures !postpone && !fsyncAlways && 0 <= written < old(|buf|) && !truncated ==>
                file == old(file + buf[..written]) && buf == old(buf[written..])
      ensures postpone || written == -1 ==> file == old(file) && buf == old(buf)
    {
      hide Run, EncodeAll, Flatten, Logged, IsSelect, SelectCommand;
      if buf == [] || postpone {
        return;
      }
      var nwritten := written;
      ghost var all := file + buf;
      if nwritten > 0 {
        file := file + buf[..nwritten];
      }
      if nwritten != |buf| {
        if nwritten != -1 && truncated {
          file := Truncate(file, currentSize);
          nwritten := -1;
        }
        if fsyncAlways {
          alive := false;
          return;
        }
        if nwritten > 0 {
          currentSize := currentSize + nwritten;
          buf := buf[nwritten..];
        }
        return;
      }
      currentSize := currentSize + nwritten;
      buf := [];
    }

    /** rewriteAppendOnlyFileBackground: the child's data is a copy of the parent's at this moment. */
    method ForkChild(forked: bool) returns (ok: bool)
      requires Valid() && alive
      modifies this`selectedDb, this`child, this`childFile, this`snapshot, this`diff
      ensures Valid() && ok == (forked && !old(child)) && (ok ==> child && DiffLog())
      ensures ok ==> selectedDb == -1 && snapshot == data
    {
      hide EncodeAll;
      if child || !forked {
        return false;
      }
      child := true;
      childFile := EncodeAll(snapshotLog(data));
      selectedDb := -1;
      snapshot, diff := data, [];
      NothingLogged(exec, data);
      return true;
    }

    /**
     backgroundRewriteDoneHandler. On success the differences are appended to the child's file, which
     then takes the place of the log; any failure on the way, also a failed write, leaves the old log in use.
     */
    method RewriteDone(success: bool, found: bool, answers: seq<int>, renamed: bool)
      requires Valid() && alive && child && |answers| >= |blocks|
      modifies this
      ensures Valid() && alive && !child && data == old(data)
      ensures if success && found && renamed && AllWritten(old(blocks), answers) && old(state) != Off
              then state == On && file == old(childFile + Flatten(blocks)) && buf == [] && selectedDb == -1
              else state == old(state) && file == old(file) && buf == old(buf) && selectedDb == old(selectedDb)
    {
      hide Run, EncodeAll, Flatten, AllWritten, IsSelect, SelectCommand, Sendable, Logged;
      if success && found {
        var newFile, count := RewriteBufferWrite(childFile, blocks, answers);
        if count != -1 && renamed && state != Off {
          UseNewFile(newFile);
        }
      }
      blocks := [];
      child := false;
    }

    /** The switch to the new file. */
    method UseNewFile(newFile: seq<byte>)
      requires Valid() && alive && child && state != Off && newFile == childFile + Flatten(blocks)
      modifies `file, `selectedDb, `currentSize, `buf, `history, `state
      ensures SnapshotLaw() && MainLog() && state == On && file == newFile && buf == [] && selectedDb == -1
    {
      hide Run, EncodeAll, Flatten, IsSelect, SelectCommand, Sendable;
      SnapshotThenDiff(exec, Replay(0, empty), snapshotLog(snapshot), snapshot, Flatten(blocks), diff, data,
                       selectedDb);
      EncodeAllAppend(snapshotLog(snapshot), diff);
      file := newFile;
      selectedDb := -1;
      currentSize := |file|;
      buf := [];
      history := snapshotLog(snapshot) + diff;
      if state == WaitRewrite {
        state := On;
      }
    }

    /** stopAppendOnly: a last forced flush, and a running child is killed. */
    method StopAppendOnly(written: int, truncated: bool)
      requires Valid() && alive && state != Off && -1 <= written <= |buf|
      modifies this
      ensures Valid() && data == old(data) && (alive ==> state == Off && !child)
      ensures written == old(|buf|) ==> alive && buf == [] && file == old(file + buf)
    {
      hide Run, EncodeAll, Flatten;
      FlushBuffer(false, written, truncated);
      if !alive {
        return;
      }
      selectedDb := -1;
      state := Off;
      if child {
        blocks := [];
        child := false;
      }
    }

    /** startAppendOnly, when a rewrite can be started: the log counts only once that rewrite is done. */
    method StartAppendOnly(oldFile: seq<byte>)
      requires Valid() && alive && state == Off && !child
      modifies this
      ensures Valid() && alive && data == old(data) && state == WaitRewrite
    {
      file := oldFile;
      var ok := ForkChild(true);
      state := WaitRewrite;
    }

    /** Any one event, when the server is in a position for it. */
    method Handle(e: Event)
      requires Valid() && alive
      modifies this
      ensures Valid() && data == After(exec, old(data), e)
    {
      match e {
        case Execute(dbid, argv) =>
          if dbid < 0x8000_0000 && Sendable(argv) && !IsSelect(argv) {
            ExecuteCommand(dbid, argv);
          }
        case Flush(postpone, written, truncated) =>
          if -1 <= written <= |buf| {
            FlushBuffer(postpone, written, truncated);
          }
        case Fork(forked) =>
          var ok := ForkChild(forked);
        case ChildDone(success, found, answers, renamed) =>
          if child && |answers| >= |blocks| {
            RewriteDone(success, found, answers, renamed);
          }
        case Stop(written, truncated) =>
          if state != Off && -1 <= written <= |buf| {
            StopAppendOnly(written, truncated);
          }
        case Start(oldFile) =>
          if state == Off && !child {
            StartAppendOnly(oldFile);
          }
      }
    }

    /**
     Every run: after any events whatever the data is what the executed commands made of it, and while the AOF is
     on, the file followed by the buffer is a log whose replay gives the data, and the file alone is the beginning
     of that log.
     */
    method Serve(events: seq<Event>) returns (handled: nat)
      requires Valid() && alive
      modifies this
      ensures handled <= |events| && (alive ==> handled == |events|)
      ensures data == AfterAll(exec, old(data), events[..handled])
      ensures state == On && alive ==>
                file + buf == EncodeAll(history) && Run(exec, Replay(0, empty), history).data == data
      ensures state == On ==> file <= EncodeAll(history)
      ensures Valid()
    {
      hide Run, EncodeAll, After;
      handled := 0;
      assert events[..0] == [];
      while handled < |events| && alive
        invariant 0 <= handled <= |events| && Valid() && data == AfterAll(exec, old(data), events[..handled])
      {
        assert events[..handled + 1][..handled] == events[..handled];
        Handle(events[handled]);
        handled := handled + 1;
      }
    }

    /**
     A restart on the file as it stands, after a clean shutdown or a crash at any point: exactly the commands
     that are complete in the file are executed, and nothing is missing when the buffer was flushed.
     */
    method Restart(known: Arg -> bool) returns (dispatched: seq<Command>)
      requires Valid() && state == On
      requires forall i :: 0 <= i < |history| && history[i] != [] ==> known(history[i][0])
      ensures AofFile.CompleteIn(history, |file|, |dispatched|) && dispatched == history[..|dispatched|]
      ensures alive && buf == [] ==>
                dispatched == history && Run(exec, Replay(0, empty), dispatched).data == data
    {
      hide Run, EncodeAll;
      var validUpTo, outcome;
      dispatched, validUpTo, outcome := AofFile.Load(file, true, known, true, history);
      if alive && buf == [] {
        assert file == EncodeAll(history);
        AofFile.AllComplete(history, |dispatched|);
      }
    }
  }

  lemma NothingLogged<D>(exec: (D, int, Command) -> D, data: D)
    ensures Logged(exec, Replay(0, data), [], [], data, -1) && Flatten([]) == []
  {
  }

  lemma FedEncoding(selected: int, dictid: nat, argv: Command)
    ensures EncodeAll(Fed(selected, dictid, argv))
         == (if dictid != selected then Encode(SelectCommand(dictid)) else []) + Encode(argv)
  {
    hide Encode;
    EncodeAllOne(argv);
    EncodeAllOne(SelectCommand(dictid));
    EncodeAllAppend([SelectCommand(dictid)], [argv]);
    if dictid == selected {
      assert Fed(selected, dictid, argv) == [argv];
    }
  }
}
