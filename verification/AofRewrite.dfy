/**
 What the rewriting child writes (aof.c, rewriteAppendOnlyFile) for databases of lists: for every list, RPUSH
 commands of a bounded number of items, whose counts are written before the items are.
 */
module AofRewrite {
  import opened Bytes
  import opened Resp
  import Aof
  import AofFile
  import Decimal

  const RPUSH: seq<byte> := [82, 80, 85, 83, 72]

  function PushCommand(key: Arg, items: seq<Arg>): Command {
    [RPUSH, key] + items
  }

  const ITEMS_PER_CMD := 64

  /** An entry of a ziplist: a string or an integer. */
  datatype ZipEntry = Str(bytes: Arg) | Int(value: int) {
    function Text(): Arg {
      if Str? then bytes else Decimal.Print(value)
    }
  }

  datatype ListObject = Ziplist(entries: seq<ZipEntry>) | LinkedList(items: seq<Arg>) {
    function Length(): nat {
      if Ziplist? then |entries| else |items|
    }

    function Item(i: nat): Arg
      requires i < Length()
    {
      if Ziplist? then entries[i].Text() else items[i]
    }

    function Texts(): (s: seq<Arg>)
      ensures |s| == Length() && forall i :: 0 <= i < |s| ==> s[i] == Item(i)
    {
      seq(Length(), i requires 0 <= i < Length() => Item(i))
    }
  }

  /** The commands for a list: as many items in each as are allowed, and the rest in the last. */
  function ListCommands(key: Arg, list: seq<Arg>, perCmd: nat): seq<Command>
    requires perCmd >= 1
    decreases |list|
  {
    if list == [] then []
    else
      var n := if |list| > perCmd then perCmd else |list|;
      [PushCommand(key, list[..n])] + ListCommands(key, list[n..], perCmd)
  }

  /** A command whose count line announces `n` items, with the first of them written. */
  function Partial(key: Arg, n: nat, items: seq<Arg>): seq<byte> {
    Header(STAR, 2 + n) + EncodeArgs(PushCommand(key, items))
  }

  lemma PartialStep(key: Arg, n: nat, items: seq<Arg>, item: Arg)
    ensures Partial(key, n, items + [item]) == Partial(key, n, items) + EncodeArg(item)
  {
    hide Header, EncodeArg;
    var a, b := PushCommand(key, items), PushCommand(key, items + [item]);
    assert b == a + [item] && b[..|a|] == a;
    EncodeArgsStep(b, |a|);
    assert b[..|a| + 1] == b;
  }

  lemma PartialStart(key: Arg, n: nat)
    ensures Partial(key, n, []) == Header(STAR, 2 + n) + EncodeArg(RPUSH) + EncodeArg(key)
  {
    hide Header, EncodeArg;
    var a := PushCommand(key, []);
    EncodeArgsStep(a, 0);
    EncodeArgsStep(a, 1);
    NoArgs(a);
    assert a[..2] == a;
  }

  lemma PartialDone(out: seq<byte>, cmds: seq<Command>, key: Arg, items: seq<Arg>)
    requires out == EncodeAll(cmds) + Partial(key, |items|, items)
    ensures out == EncodeAll(cmds + [PushCommand(key, items)])
  {
    hide Header, EncodeArgs;
    EncodeAllAppend(cmds, [PushCommand(key, items)]);
    EncodeAllOne(PushCommand(key, items));
  }

  /** The output so far: whole commands, and a command of `n` items of which those in `chunk` are written. */
  ghost predicate Written(out: seq<byte>, cmds: seq<Command>, key: Arg, n: nat, chunk: seq<Arg>) {
    out == if chunk == [] then EncodeAll(cmds) else EncodeAll(cmds) + Partial(key, n, chunk)
  }

  /** The head of a command of `n` items. */
  method StartCommand(out: seq<byte>, ghost cmds: seq<Command>, key: Arg, n: nat) returns (out': seq<byte>)
    requires out == EncodeAll(cmds)
    ensures out' == EncodeAll(cmds) + Partial(key, n, [])
  {
    hide Header, EncodeArg, EncodeArgs, EncodeAll;
    out' := out + Header(STAR, 2 + n);
    out' := CatArg(out', RPUSH);
    out' := CatArg(out', key);
    PartialStart(key, n);
  }

  /** One more item. */
  method PushItem(out: seq<byte>, ghost cmds: seq<Command>, key: Arg, ghost n: nat, ghost chunk: seq<Arg>, item: Arg)
    returns (out': seq<byte>)
    requires out == EncodeAll(cmds) + Partial(key, n, chunk)
    ensures Written(out', cmds, key, n, chunk + [item])
  {
    hide Header, EncodeArg, EncodeArgs, EncodeAll;
    PartialStep(key, n, chunk, item);
    out' := CatArg(out, item);
  }

  lemma NextChunk(key: Arg, list: seq<Arg>, perCmd: nat, start: nat, n: nat)
    requires perCmd >= 1 && start < |list| && n == if |list| - start > perCmd then perCmd else |list| - start
    ensures ListCommands(key, list[start..], perCmd)
         == [PushCommand(key, list[start..start + n])] + ListCommands(key, list[start + n..], perCmd)
  {
    assert list[start..][..n] == list[start..start + n] && list[start..][n..] == list[start + n..];
  }

  /** A whole command has been written: it joins those before it. */
  lemma CloseCommand(out: seq<byte>, cmds: seq<Command>, key: Arg, list: seq<Arg>, perCmd: nat, start: nat, n: nat)
    requires perCmd >= 1 && start < |list| && n == if |list| - start > perCmd then perCmd else |list| - start
    requires ListCommands(key, list, perCmd) == cmds + ListCommands(key, list[start..], perCmd)
    requires Written(out, cmds, key, n, list[start..start + n])
    ensures var next := cmds + [PushCommand(key, list[start..start + n])];
            && out == EncodeAll(next) && Written(out, next, key, 0, [])
            && ListCommands(key, list, perCmd) == next + ListCommands(key, list[start + n..], perCmd)
  {
    hide Header, EncodeArgs, EncodeAll, ListCommands, PushCommand;
    PartialDone(out, cmds, key, list[start..start + n]);
    NextChunk(key, list, perCmd, start, n);
  }

  /** How many items the command that starts at item `start` has. */
  function ChunkSize(list: seq<Arg>, perCmd: nat, start: nat): nat
    requires start <= |list|
  {
    if |list| - start > perCmd then perCmd else |list| - start
  }

  /** The commands `cmds` are complete, and `count` items of the next one are written, up to item `i`. */
  ghost predicate Progress(out: seq<byte>, cmds: seq<Command>, key: Arg, list: seq<Arg>, perCmd: nat, i: nat,
                           count: nat)
    requires perCmd >= 1
  {
    && count <= i <= |list|
    && ListCommands(key, list, perCmd) == cmds + ListCommands(key, list[i - count..], perCmd)
    && Written(out, cmds, key, ChunkSize(list, perCmd, i - count), list[i - count..i])
  }

  /** One item, after the head of a command when it is the first one. */
  method WriteItem(out: seq<byte>, ghost cmds: seq<Command>, key: Arg, ghost list: seq<Arg>, perCmd: nat, ghost i: nat,
                   count: nat, items: nat, item: Arg)
    returns (out': seq<byte>)
    requires perCmd >= 1 && Progress(out, cmds, key, list, perCmd, i, count) && i < |list| && item == list[i]
    requires items == |list| - i && count < perCmd
    ensures Progress(out', cmds, key, list, perCmd, i + 1, count + 1)
  {
    hide Header, EncodeArg, EncodeArgs, EncodeAll, ListCommands, Written, PushCommand;
    ghost var start, n := i - count, ChunkSize(list, perCmd, i - count);
    out' := out;
    if count == 0 {
      var cmdItems := if items > perCmd then perCmd else items;
      assert list[i..i] == [];
      WrittenAll(out, cmds, key, n);
      out' := StartCommand(out', cmds, key, cmdItems);
    } else {
      WrittenPart(out, cmds, key, n, list[start..i]);
    }
    out' := PushItem(out', cmds, key, n, list[start..i], item);
    assert list[start..i] + [item] == list[start..i + 1];
  }

  /** The command that has all its items is complete. */
  lemma EndCommand(out: seq<byte>, cmds: seq<Command>, key: Arg, list: seq<Arg>, perCmd: nat, i: nat, count: nat)
    requires perCmd >= 1 && Progress(out, cmds, key, list, perCmd, i, count)
    requires 0 < count == ChunkSize(list, perCmd, i - count)
    ensures Progress(out, cmds + [PushCommand(key, list[i - count..i])], key, list, perCmd, i, 0)
  {
    hide ListCommands, Written, PushCommand;
    CloseCommand(out, cmds, key, list, perCmd, i - count, count);
    assert list[i..i] == [];
    var next := cmds + [PushCommand(key, list[i - count..i])];
    WrittenAll(out, next, key, 0);
    WrittenNothing(out, next, key, ChunkSize(list, perCmd, i));
  }

  /** rewriteListObject, both encodings. */
  method RewriteList(key: Arg, o: ListObject, perCmd: nat) returns (out: seq<byte>)
    requires perCmd >= 1
    ensures out == EncodeAll(ListCommands(key, o.Texts(), perCmd))
  {
    hide EncodeAll, ListCommands, Progress, PushCommand, Decimal.Print;
    ghost var list, cmds: seq<Command> := o.Texts(), [];
    out := [];
    var count, items := 0, o.Length();
    var i := 0;
    StartProgress(key, list, perCmd);
    while i < o.Length()
      invariant 0 <= count <= i <= |list| && items == |list| - i && count < perCmd
      invariant Progress(out, cmds, key, list, perCmd, i, count)
    {
      out := WriteItem(out, cmds, key, list, perCmd, i, count, items, o.Item(i));
      count := count + 1;
      i := i + 1;
      items := items - 1;
      if count == perCmd {
        EndCommand(out, cmds, key, list, perCmd, i, count);
        cmds := cmds + [PushCommand(key, list[i - count..i])];
        count := 0;
      }
    }
    if count > 0 {
      EndCommand(out, cmds, key, list, perCmd, i, count);
      cmds := cmds + [PushCommand(key, list[i - count..i])];
    }
    EndProgress(out, cmds, key, list, perCmd);
  }

  lemma StartProgress(key: Arg, list: seq<Arg>, perCmd: nat)
    requires perCmd >= 1
    ensures Progress([], [], key, list, perCmd, 0, 0)
  {
    assert list[0..] == list && list[0..0] == [];
    assert [] + ListCommands(key, list, perCmd) == ListCommands(key, list, perCmd);
  }

  lemma EndProgress(out: seq<byte>, cmds: seq<Command>, key: Arg, list: seq<Arg>, perCmd: nat)
    requires perCmd >= 1 && Progress(out, cmds, key, list, perCmd, |list|, 0)
    ensures out == EncodeAll(ListCommands(key, list, perCmd))
  {
    hide EncodeAll;
    assert list[|list|..|list|] == [];
    assert cmds + [] == cmds;
  }

  lemma WrittenAll(out: seq<byte>, cmds: seq<Command>, key: Arg, n: nat)
    requires Written(out, cmds, key, n, [])
    ensures out == EncodeAll(cmds)
  {
  }

  lemma WrittenNothing(out: seq<byte>, cmds: seq<Command>, key: Arg, n: nat)
    requires out == EncodeAll(cmds)
    ensures Written(out, cmds, key, n, [])
  {
  }

  lemma WrittenPart(out: seq<byte>, cmds: seq<Command>, key: Arg, n: nat, chunk: seq<Arg>)
    requires Written(out, cmds, key, n, chunk) && chunk != []
    ensures out == EncodeAll(cmds) + Partial(key, n, chunk)
  {
  }

  lemma NoItems(key: Arg, list: seq<Arg>, perCmd: nat)
    requires perCmd >= 1 && list == []
    ensures ListCommands(key, list, perCmd) == []
  {
  }

  // ----- Databases of lists -----

  const DBNUM := 16
  const rpush: seq<byte> := [114, 112, 117, 115, 104]

  datatype Entry = Entry(key: Arg, items: seq<Arg>) {
    predicate Ok() {
      items != [] && |key| <= MAX_BULK && forall i :: 0 <= i < |items| ==> |items[i]| <= MAX_BULK
    }
  }

  /** The lists of one database, in the order in which its table is walked. */
  type Db = seq<Entry>

  predicate DbOk(db: Db) {
    (forall i, j :: 0 <= i < j < |db| ==> db[i].key != db[j].key) && forall i :: 0 <= i < |db| ==> db[i].Ok()
  }

  type Databases = d: seq<Db> | |d| == DBNUM && forall j :: 0 <= j < DBNUM ==> DbOk(d[j])
    witness seq(DBNUM, _ => [])

  function NoData(): Databases { seq(DBNUM, _ => []) }

  /** RPUSH: at the end of the list with this key, or of a new list. */
  function Push(db: Db, key: Arg, items: seq<Arg>): Db {
    if db == [] then [Entry(key, items)]
    else if db[0].key == key then [Entry(key, db[0].items + items)] + db[1..]
    else [db[0]] + Push(db[1..], key, items)
  }

  lemma {:induction false} PushKeys(db: Db, key: Arg, items: seq<Arg>, e: Entry)
    requires e in Push(db, key, items)
    ensures e.key == key || exists i :: 0 <= i < |db| && db[i].key == e.key
  {
    if db != [] && e != db[0] && db[0].key != key {
      PushKeys(db[1..], key, items, e);
      if e.key != key {
        var i :| 0 <= i < |db[1..]| && db[1..][i].key == e.key;
        assert db[i + 1].key == e.key;
      }
    }
  }

  lemma {:induction false} PushOk(db: Db, key: Arg, items: seq<Arg>)
    requires DbOk(db) && Entry(key, items).Ok()
    ensures DbOk(Push(db, key, items))
  {
    if db != [] {
      var r := Push(db, key, items);
      assert DbOk(db[1..]);
      if db[0].key == key {
        assert forall i :: 1 <= i < |r| ==> r[i] == db[i];
      } else {
        PushOk(db[1..], key, items);
        forall i | 1 <= i < |r|
          ensures r[i].key != db[0].key
        {
          assert r[i] == Push(db[1..], key, items)[i - 1];
          PushKeys(db[1..], key, items, r[i]);
        }
        assert forall i :: 1 <= i < |r| ==> r[i] == Push(db[1..], key, items)[i - 1];
      }
    }
  }

  function Exec(d: Databases, dbid: int, cmd: Command): Databases {
    if 0 <= dbid < DBNUM && Sendable(cmd) && |cmd| >= 3 && AofFile.Named(cmd[0], rpush) then
      PushOk(d[dbid], cmd[1], cmd[2..]);
      d[dbid := Push(d[dbid], cmd[1], cmd[2..])]
    else d
  }

  /** The data while database `j` is selected. */
  function At(j: int, d: Databases): Aof.Replay<Databases> { Aof.Replay(j, d) }

  lemma {:induction false} PushTwice(db: Db, key: Arg, a: seq<Arg>, b: seq<Arg>)
    ensures Push(Push(db, key, a), key, b) == Push(db, key, a + b)
  {
    if db != [] && db[0].key != key {
      PushTwice(db[1..], key, a, b);
      assert Push(db, key, a)[1..] == Push(db[1..], key, a);
    } else if db != [] {
      assert db[0].items + a + b == db[0].items + (a + b);
      assert Push(db, key, a)[1..] == db[1..];
    }
  }

  lemma {:induction false} PushNew(db: Db, key: Arg, items: seq<Arg>)
    requires forall i :: 0 <= i < |db| ==> db[i].key != key
    ensures Push(db, key, items) == db + [Entry(key, items)]
  {
    if db != [] {
      PushNew(db[1..], key, items);
    }
  }

  /** Replaying the commands for a list adds its items to the list with that key. */
  lemma {:induction false} ListReplayed(d: Databases, j: nat, key: Arg, list: seq<Arg>)
    requires j < DBNUM && Entry(key, list).Ok()
    ensures AllSendable(ListCommands(key, list, ITEMS_PER_CMD))
    ensures DbOk(Push(d[j], key, list))
    ensures Aof.Run(Exec, At(j, d), ListCommands(key, list, ITEMS_PER_CMD))
         == At(j, d[j := Push(d[j], key, list)])
    decreases |list|
  {
    hide DbOk, Exec, AllSendable;
    PushOk(d[j], key, list);
    var n := if |list| > ITEMS_PER_CMD then ITEMS_PER_CMD else |list|;
    var cmd, rest := PushCommand(key, list[..n]), list[n..];
    PushReplayed(d, j, key, list[..n]);
    var d' := d[j := Push(d[j], key, list[..n])];
    Aof.RunOne(Exec, At(j, d), cmd);
    if rest == [] {
      NoItems(key, rest, ITEMS_PER_CMD);
      assert list[..n] == list && ListCommands(key, list, ITEMS_PER_CMD) == [cmd];
      SendableOne(cmd);
    } else {
      ListReplayed(d', j, key, rest);
      SendableOne(cmd);
      SendableAppend([cmd], ListCommands(key, rest, ITEMS_PER_CMD));
      Aof.RunAppend(Exec, At(j, d), [cmd], ListCommands(key, rest, ITEMS_PER_CMD));
      PushTwice(d[j], key, list[..n], rest);
      assert list[..n] + rest == list;
      assert d'[j := Push(d'[j], key, rest)] == d[j := Push(d[j], key, list)];
    }
  }

  lemma SendableOne(cmd: Command)
    ensures Sendable(cmd) ==> AllSendable([cmd])
    ensures AllSendable([])
  {
  }

  lemma SendableAppend(a: seq<Command>, b: seq<Command>)
    requires AllSendable(a) && AllSendable(b)
    ensures AllSendable(a + b)
  {
  }

  lemma PushReplayed(d: Databases, j: nat, key: Arg, items: seq<Arg>)
    requires j < DBNUM && Entry(key, items).Ok() && |items| <= ITEMS_PER_CMD
    ensures Sendable(PushCommand(key, items))
    ensures DbOk(Push(d[j], key, items))
    ensures Aof.Step(Exec, At(j, d), PushCommand(key, items)) == At(j, d[j := Push(d[j], key, items)])
  {
    var cmd := PushCommand(key, items);
    assert cmd[2..] == items && cmd[1] == key && cmd[0] == RPUSH;
    PushOk(d[j], key, items);
    RpushName();
  }

  lemma RpushName()
    ensures AofFile.Named(RPUSH, rpush)
  {
    assert AofFile.CString(RPUSH) == RPUSH;
  }

  /** The commands for the lists of one database. */
  function DbLog(db: Db): seq<Command>
    decreases |db|
  {
    if db == [] then []
    else
      var e := db[|db| - 1];
      DbLog(db[..|db| - 1]) + ListCommands(e.key, e.items, ITEMS_PER_CMD)
  }

  /** The commands for the first `n` databases; those without keys are left out. */
  function SnapshotOf(d: seq<Db>, n: nat): seq<Command>
    requires n <= |d|
  {
    if n == 0 then []
    else SnapshotOf(d, n - 1) + if d[n - 1] == [] then [] else [Aof.SelectCommand(n - 1)] + DbLog(d[n - 1])
  }

  function SnapshotLog(d: Databases): seq<Command> { SnapshotOf(d, DBNUM) }

  /** A key with its list as it is stored. */
  datatype Row = Row(key: Arg, o: ListObject)

  function Lists(rows: seq<Row>): (db: Db)
    ensures |db| == |rows| && forall i :: 0 <= i < |db| ==> db[i] == Entry(rows[i].key, rows[i].o.Texts())
  {
    seq(|rows|, i requires 0 <= i < |rows| => Entry(rows[i].key, rows[i].o.Texts()))
  }

  function AllLists(dbs: seq<seq<Row>>): (d: seq<Db>)
    ensures |d| == |dbs| && forall j :: 0 <= j < |d| ==> d[j] == Lists(dbs[j])
  {
    seq(|dbs|, j requires 0 <= j < |dbs| => Lists(dbs[j]))
  }

  /** The inner loop of rewriteAppendOnlyFile. */
  method RewriteDb(out: seq<byte>, rows: seq<Row>) returns (out': seq<byte>)
    ensures out' == out + EncodeAll(DbLog(Lists(rows)))
  {
    hide EncodeAll, ListCommands;
    ghost var db := Lists(rows);
    out' := out;
    var i := 0;
    NoRows(db[..0]);
    while i < |rows|
      invariant 0 <= i <= |rows| && out' == out + EncodeAll(DbLog(db[..i]))
    {
      var text := RewriteList(rows[i].key, rows[i].o, ITEMS_PER_CMD);
      assert db[..i + 1][..i] == db[..i];
      EncodeAllAppend(DbLog(db[..i]), ListCommands(db[i].key, db[i].items, ITEMS_PER_CMD));
      out' := out' + text;
      i := i + 1;
    }
    assert db[..i] == db;
  }

  lemma NoRows(db: Db)
    requires db == []
    ensures EncodeAll(DbLog(db)) == []
  {
  }

  /** rewriteAppendOnlyFile, with nothing but lists: every database that has keys is selected and written. */
  method RewriteAppendOnlyFile(dbs: seq<seq<Row>>) returns (out: seq<byte>)
    requires |dbs| < 0x8000_0000
    ensures out == EncodeAll(SnapshotOf(AllLists(dbs), |dbs|))
  {
    hide EncodeAll, DbLog, Lists, AllLists, SnapshotOf, Aof.SelectCommand, Decimal.Print;
    ghost var d := AllLists(dbs);
    out := [];
    var j := 0;
    NothingWritten(d);
    while j < |dbs|
      invariant 0 <= j <= |dbs| && out == EncodeAll(SnapshotOf(d, j))
    {
      assert |d[j]| == |dbs[j]|;
      SnapshotNext(d, j);
      ghost var before := out;
      if |dbs[j]| != 0 {
        ghost var select := [Aof.SelectCommand(j)];
        var number := Decimal.Print(j);
        out := out + ([STAR, 50] + CRLF + [DOLLAR, 54] + CRLF + Aof.SELECT + CRLF
                      + [DOLLAR] + Decimal.Print(|number|) + CRLF + number + CRLF);
        Aof.SelectText(j);
        EncodeAllOne(Aof.SelectCommand(j));
        EncodeAllAppend(select, DbLog(d[j]));
        EncodeAllAppend(SnapshotOf(d, j), select + DbLog(d[j]));
        assert out == before + Encode(Aof.SelectCommand(j));
        out := RewriteDb(out, dbs[j]);
        assert out == before + (Encode(Aof.SelectCommand(j)) + EncodeAll(DbLog(d[j])));
      }
      j := j + 1;
    }
  }

  lemma SnapshotNext(d: seq<Db>, j: nat)
    requires j < |d|
    ensures d[j] == [] ==> SnapshotOf(d, j + 1) == SnapshotOf(d, j)
    ensures d[j] != [] ==> SnapshotOf(d, j + 1) == SnapshotOf(d, j) + ([Aof.SelectCommand(j)] + DbLog(d[j]))
  {
    hide DbLog, Aof.SelectCommand;
  }

  lemma NothingWritten(d: seq<Db>)
    ensures EncodeAll(SnapshotOf(d, 0)) == []
  {
  }

  lemma {:induction false} DbReplayed(d: Databases, j: nat, db: Db)
    requires j < DBNUM && d[j] == [] && DbOk(db)
    ensures AllSendable(DbLog(db))
    ensures Aof.Run(Exec, At(j, d), DbLog(db)) == At(j, d[j := db])
    decreases |db|
  {
    hide ListCommands, Exec, AllSendable, Push;
    if db == [] {
      SendableOne([]);
      assert d[j := []] == d;
    } else {
      var init, e := db[..|db| - 1], db[|db| - 1];
      DbReplayed(d, j, init);
      hide DbOk, Aof.Run;
      var d' := d[j := init];
      ListReplayed(d', j, e.key, e.items);
      PushNew(init, e.key, e.items);
      assert init + [e] == db && d'[j := db] == d[j := db];
      SendableAppend(DbLog(init), ListCommands(e.key, e.items, ITEMS_PER_CMD));
      Aof.RunAppend(Exec, At(j, d), DbLog(init), ListCommands(e.key, e.items, ITEMS_PER_CMD));
    }
  }

  /** The first `n` databases of `d`, and nothing in the others. */
  function Front(d: Databases, n: nat): (r: Databases)
    requires n <= DBNUM
    ensures forall j :: 0 <= j < DBNUM ==> r[j] == if j < n then d[j] else []
  {
    d[..n] + seq(DBNUM - n, _ => [])
  }

  lemma DatabaseReplayed(d: Databases, j: nat, s: Aof.Replay<Databases>)
    requires j < DBNUM && s.data == Front(d, j)
    ensures var log := [Aof.SelectCommand(j)] + DbLog(d[j]);
            AllSendable(log) && Aof.Run(Exec, s, log).data == Front(d, j + 1)
  {
    hide DbLog, Exec, DbOk, AllSendable, Front, Aof.Run, Aof.SelectCommand;
    DbReplayed(Front(d, j), j, d[j]);
    Selected(s, j);
    SendableOne(Aof.SelectCommand(j));
    SendableAppend([Aof.SelectCommand(j)], DbLog(d[j]));
    Aof.RunAppend(Exec, s, [Aof.SelectCommand(j)], DbLog(d[j]));
    assert Front(d, j)[j := d[j]] == Front(d, j + 1);
  }

  lemma {:induction false} SnapshotReplayed(d: Databases, n: nat)
    requires n <= DBNUM
    ensures AllSendable(SnapshotOf(d, n))
    ensures Aof.Run(Exec, At(0, NoData()), SnapshotOf(d, n)).data == Front(d, n)
  {
    hide *;
    if n == 0 {
      NoSnapshot(d);
    } else {
      var j := n - 1;
      SnapshotReplayed(d, j);
      var s := Aof.Run(Exec, At(0, NoData()), SnapshotOf(d, j));
      SnapshotNext(d, j);
      if d[j] == [] {
        FrontSame(d, j);
      } else {
        DatabaseReplayed(d, j, s);
        SendableAppend(SnapshotOf(d, j), [Aof.SelectCommand(j)] + DbLog(d[j]));
        Aof.RunAppend(Exec, At(0, NoData()), SnapshotOf(d, j), [Aof.SelectCommand(j)] + DbLog(d[j]));
      }
    }
  }

  lemma NoSnapshot(d: Databases)
    ensures AllSendable(SnapshotOf(d, 0)) && Aof.Run(Exec, At(0, NoData()), SnapshotOf(d, 0)).data == Front(d, 0)
  {
    assert Front(d, 0) == NoData();
  }

  lemma FrontSame(d: Databases, j: nat)
    requires j < DBNUM && d[j] == []
    ensures Front(d, j + 1) == Front(d, j)
  {
  }

  lemma Selected(s: Aof.Replay<Databases>, j: nat)
    requires j < DBNUM
    ensures Sendable(Aof.SelectCommand(j))
    ensures Aof.Run(Exec, s, [Aof.SelectCommand(j)]) == At(j, s.data)
  {
    hide Decimal.Parse, Decimal.Print;
    Aof.SelectText(j);
    Decimal.ParsePrinted(j);
    Aof.RunOne(Exec, s, Aof.SelectCommand(j));
  }

  /** What the AOF protocol asks of the child's log holds of every data set of lists. */
  lemma ListsSnapshotLaw(d: Databases)
    ensures AllSendable(SnapshotLog(d))
    ensures Aof.Run(Exec, At(0, NoData()), SnapshotLog(d)).data == d
  {
    hide SnapshotOf, Exec;
    SnapshotReplayed(d, DBNUM);
    assert Front(d, DBNUM) == d;
  }

  /** A server of lists that goes on with a log: everything proved of the protocol applies to it. */
  method ListServer(fsyncAlways: bool, loaded: seq<Command>) returns (server: Aof.Server<Databases>)
    requires AllSendable(loaded)
    ensures fresh(server) && server.Valid() && server.alive && server.state == Aof.On && server.history == loaded
    ensures server.data == Aof.Run(Exec, At(0, NoData()), loaded).data
  {
    forall d: Databases
      ensures AllSendable(SnapshotLog(d)) && Aof.Run(Exec, At(0, NoData()), SnapshotLog(d)).data == d
    {
      ListsSnapshotLaw(d);
    }
    server := new Aof.Server<Databases>(Exec, NoData(), SnapshotLog, fsyncAlways, loaded);
  }
}
