/**
 Transactions and optimistic locking (multi.c). The server keeps, per database, the clients that watch each
 key, and every client keeps the keys it watches. A ghost log of touched keys says what EXEC must notice.
 */
module Multi {
  import opened Bytes
  import opened Wrappers

  datatype WatchedKey = WatchedKey(db: nat, key: seq<byte>)

  /** What a data command does to one key: change it, with or without signalModifiedKey, and leave it there or not. */
  datatype Change = Change(key: seq<byte>, exists_: bool, signalled: bool)

  datatype Command =
    | Watch(keys: seq<seq<byte>>)
    | Unwatch
    | Multi
    | Discard
    | Exec
    | Select(db: nat)
    | Data(changes: seq<Change>)
    | FlushDb
    | FlushAll
    | Rejected(flags: bool)  // refused by processCommand, with or without flagTransaction

  datatype Reply =
    | Ok
    | Queued
    | Error
    | ExecAbort
    | NullMultiBulk
    | Results(commands: seq<Command>)

  // ----- What commands do -----

  /** The keys that exist, the touches so far, and the database a client has selected. */
  datatype World = World(keys: set<WatchedKey>, log: seq<set<WatchedKey>>, db: nat)

  /** The keys that a flush of database `dbid`, or of all for -1, removes. */
  function FlushedKeys(keys: set<WatchedKey>, dbid: int): set<WatchedKey> {
    set k | k in keys && (dbid == -1 || k.db == dbid)
  }

  function ApplyOne(w: World, c: Change): World {
    var k := WatchedKey(w.db, c.key);
    World(if c.exists_ then w.keys + {k} else w.keys - {k}, if c.signalled then w.log + [{k}] else w.log, w.db)
  }

  function ApplyAll(w: World, changes: seq<Change>): World
    decreases |changes|
  {
    if changes == [] then w else ApplyOne(ApplyAll(w, changes[..|changes| - 1]), changes[|changes| - 1])
  }

  function FlushWorld(w: World, dbid: int): World {
    World(w.keys - FlushedKeys(w.keys, dbid), w.log + [FlushedKeys(w.keys, dbid)], w.db)
  }

  /** One command outside a transaction. */
  function Perform(w: World, cmd: Command): World {
    match cmd
    case Select(db) => w.(db := db)
    case Data(changes) => ApplyAll(w, changes)
    case FlushDb => FlushWorld(w, w.db)
    case FlushAll => FlushWorld(w, -1)
    case _ => w
  }

  /** Several commands, one after the other. */
  function PerformAll(w: World, cmds: seq<Command>): World
    decreases |cmds|
  {
    if cmds == [] then w else Perform(PerformAll(w, cmds[..|cmds| - 1]), cmds[|cmds| - 1])
  }

  /** From `w` to `w'` through the commands, the first one first: `worlds` are the stages in between. */
  ghost predicate Stages(w: World, cmds: seq<Command>, w': World, worlds: seq<World>) {
    && |worlds| == |cmds| + 1 && worlds[0] == w && worlds[|cmds|] == w'
    && forall j :: 0 <= j < |cmds| ==> worlds[j + 1] == Perform(worlds[j], cmds[j])
  }

  lemma {:induction false} PerformedInOrder(w: World, cmds: seq<Command>) returns (worlds: seq<World>)
    ensures Stages(w, cmds, PerformAll(w, cmds), worlds)
    decreases |cmds|
  {
    hide Perform;
    if cmds == [] {
      worlds := [w];
    } else {
      var last := |cmds| - 1;
      var before := PerformedInOrder(w, cmds[..last]);
      worlds := before + [PerformAll(w, cmds)];
    }
  }

  /** The last of the changes to `key`, if there is one. */
  ghost predicate LastChange(changes: seq<Change>, key: seq<byte>, j: nat) {
    j < |changes| && changes[j].key == key && forall i :: j < i < |changes| ==> changes[i].key != key
  }

  lemma {:induction false} SomeLast(changes: seq<Change>, key: seq<byte>) returns (j: nat)
    requires exists i :: 0 <= i < |changes| && changes[i].key == key
    ensures LastChange(changes, key, j)
    decreases |changes|
  {
    var last := |changes| - 1;
    if changes[last].key == key {
      j := last;
    } else {
      j := SomeLast(changes[..last], key);
    }
  }

  /**
   What a data command does: the last change to a key decides whether it exists, the other keys stay as they were,
   and exactly the keys of the signalled changes are touched.
   */
  lemma {:induction false} ChangesMeaning(w: World, changes: seq<Change>, k: WatchedKey)
    ensures var w' := Perform(w, Data(changes));
            && w'.db == w.db && w.log <= w'.log
            && (forall j: nat :: k.db == w.db && LastChange(changes, k.key, j) ==>
                 (k in w'.keys <==> changes[j].exists_))
            && (k.db != w.db || (forall j :: 0 <= j < |changes| ==> changes[j].key != k.key) ==>
                 (k in w'.keys <==> k in w.keys))
            && (TouchedSince(w'.log, |w.log|, k)
                <==> k.db == w.db && exists j :: 0 <= j < |changes| && changes[j].key == k.key && changes[j].signalled)
    decreases |changes|
  {
    hide TouchedSince, FlushWorld;
    if changes == [] {
      NothingTouched(w.log, k);
    } else {
      var last := |changes| - 1;
      var c, init := changes[last], changes[..last];
      var w1 := ApplyAll(w, init);
      ChangesMeaning(w, init, k);
      TouchedNext(w1.log, {WatchedKey(w1.db, c.key)}, |w.log|, k);
      forall j: nat | k.db == w.db && LastChange(changes, k.key, j)
        ensures k in ApplyOne(w1, c).keys <==> changes[j].exists_
      {
        assert j < last ==> LastChange(init, k.key, j);
      }
      assert forall j :: 0 <= j < last ==> init[j] == changes[j];
    }
  }

  lemma NothingTouched(log: seq<set<WatchedKey>>, k: WatchedKey)
    ensures !TouchedSince(log, |log|, k)
  {
  }

  /** What a flush does: the keys of the flushed databases that exist are touched, and do not exist any more. */
  lemma FlushMeaning(w: World, cmd: Command, k: WatchedKey)
    requires cmd.FlushDb? || cmd.FlushAll?
    ensures var w' := Perform(w, cmd);
            && w'.db == w.db && w.log <= w'.log
            && (k in w'.keys <==> k in w.keys && cmd.FlushDb? && k.db != w.db)
            && (TouchedSince(w'.log, |w.log|, k) <==> k in w.keys && (cmd.FlushAll? || k.db == w.db))
  {
    hide TouchedSince;
    NothingTouched(w.log, k);
    TouchedNext(w.log, FlushedKeys(w.keys, if cmd.FlushAll? then -1 else w.db), |w.log|, k);
  }

  /** Some event from position `from` on touched `k`. */
  ghost predicate TouchedSince(log: seq<set<WatchedKey>>, from: nat, k: WatchedKey) {
    exists i :: from <= i < |log| && k in log[i]
  }

  lemma TouchedNext(log: seq<set<WatchedKey>>, event: set<WatchedKey>, from: nat, k: WatchedKey)
    requires from <= |log|
    ensures TouchedSince(log + [event], from, k) <==> TouchedSince(log, from, k) || k in event
  {
    if TouchedSince(log, from, k) {
      var i :| from <= i < |log| && k in log[i];
      assert k in (log + [event])[i];
    }
    if k in event {
      assert k in (log + [event])[|log|];
    }
  }

  // ----- What clients are answered -----

  /** What a client's session depends on; every watched key with the length of the log when its watch began. */
  datatype Conn = Conn(db: nat, multi: bool, queueError: bool, queue: seq<Command>, watches: map<WatchedKey, nat>)

  datatype Outcome = Outcome(conn: Conn, keys: set<WatchedKey>, log: seq<set<WatchedKey>>, reply: Reply)

  function NewConn(db: nat): Conn { Conn(db, false, false, [], map[]) }

  /** Some watched key was touched since its watch began. */
  ghost predicate Stale(watches: map<WatchedKey, nat>, log: seq<set<WatchedKey>>) {
    exists k :: k in watches && TouchedSince(log, watches[k], k)
  }

  /** New watches begin now, the others go on. */
  function Watching(watches: map<WatchedKey, nat>, db: nat, names: seq<seq<byte>>, now: nat): map<WatchedKey, nat>
    decreases |names|
  {
    if names == [] then watches
    else
      var w := Watching(watches, db, names[..|names| - 1], now);
      var k := WatchedKey(db, names[|names| - 1]);
      Begun(w, k, now)
  }

  function Begun(watches: map<WatchedKey, nat>, k: WatchedKey, now: nat): map<WatchedKey, nat> {
    if k in watches then watches else watches[k := now]
  }

  /** A key that is named is watched from now on, one that is watched already from when it was. */
  lemma {:induction false} WatchMeaning(watches: map<WatchedKey, nat>, db: nat, names: seq<seq<byte>>, now: nat)
    ensures var after := Watching(watches, db, names, now);
            && (forall k :: k in after <==> k in watches || (k.db == db && k.key in names))
            && (forall k :: k in after ==> after[k] == if k in watches then watches[k] else now)
    decreases |names|
  {
    if names != [] {
      WatchMeaning(watches, db, names[..|names| - 1], now);
      assert names == names[..|names| - 1] + [names[|names| - 1]];
    }
  }

  /**
   The answer to one command, without flags on clients: EXEC looks at the whole log of touched keys. It runs the
   queue if and only if no refusal was flagged and no watched key was touched since its watch began.
   */
  ghost function Respond(c: Conn, keys: set<WatchedKey>, log: seq<set<WatchedKey>>, cmd: Command): Outcome {
    match cmd
    case Rejected(flags) => Outcome(c.(queueError := c.queueError || (flags && c.multi)), keys, log, Error)
    case Multi => if c.multi then Outcome(c, keys, log, Error) else Outcome(c.(multi := true), keys, log, Ok)
    case Discard => if c.multi then Outcome(NewConn(c.db), keys, log, Ok) else Outcome(c, keys, log, Error)
    case Watch(names) =>
      if c.multi then Outcome(c, keys, log, Error)
      else Outcome(c.(watches := Watching(c.watches, c.db, names, |log|)), keys, log, Ok)
    case Exec =>
      if !c.multi then Outcome(c, keys, log, Error)
      else if c.queueError then Outcome(NewConn(c.db), keys, log, ExecAbort)
      else if Stale(c.watches, log) then Outcome(NewConn(c.db), keys, log, NullMultiBulk)
      else
        var w := PerformAll(World(keys, log, c.db), c.queue);
        Outcome(NewConn(w.db), w.keys, w.log, Results(c.queue))
    case _ =>
      if c.multi then Outcome(c.(queue := c.queue + [cmd]), keys, log, Queued)
      else
        var w := Perform(World(keys, log, c.db), cmd);
        Outcome(c.(db := w.db, watches := if cmd == Unwatch then map[] else c.watches), w.keys, w.log, Ok)
  }

  // ----- The two-way index -----

  /** The watchers of a key, none for a key that is not in the table. */
  function Watchers<C, K>(table: map<K, seq<C>>, k: K): seq<C> {
    if k in table then table[k] else []
  }

  /** The table and the lists are inverse to each other, without duplicates and empty lists. */
  ghost predicate Inverse<C, K>(table: map<K, seq<C>>, lists: map<C, seq<K>>) {
    && (forall k :: k in table ==> table[k] != [] && NoDuplicates(table[k]))
    && (forall c :: c in lists ==> NoDuplicates(lists[c]))
    && (forall k, c :: k in table && c in table[k] ==> c in lists && k in lists[c])
    && (forall c, k :: c in lists && k in lists[c] ==> k in table && c in table[k])
  }

  lemma InverseAdd<C, K>(table: map<K, seq<C>>, lists: map<C, seq<K>>, c: C, k: K)
    requires Inverse(table, lists) && c in lists && k !in lists[c]
    ensures Inverse(table[k := Watchers(table, k) + [c]], lists[c := lists[c] + [k]])
  {
    var t, l := table[k := Watchers(table, k) + [c]], lists[c := lists[c] + [k]];
    AppendNew(Watchers(table, k), c);
    AppendNew(lists[c], k);
  }

  lemma AppendNew<T>(s: seq<T>, x: T)
    ensures forall y :: y in s + [x] <==> y in s || y == x
    ensures NoDuplicates(s) && x !in s ==> NoDuplicates(s + [x])
  {
  }

  /** A list without the element at position `i`. */
  function Without<T>(s: seq<T>, i: nat): seq<T>
    requires i < |s|
  {
    s[..i] + s[i + 1..]
  }

  lemma WithoutSubset<T>(s: seq<T>, i: nat)
    requires i < |s|
    ensures forall y :: y in Without(s, i) ==> y in s
  {
  }

  lemma WithoutElements<T>(s: seq<T>, i: nat)
    requires i < |s| && NoDuplicates(s)
    ensures NoDuplicates(Without(s, i))
    ensures forall y :: y in Without(s, i) <==> y in s && y != s[i]
  {
    var t := Without(s, i);
    forall y | y in s && y != s[i]
      ensures y in t
    {
      var j :| 0 <= j < |s| && s[j] == y;
      assert t[if j < i then j else j - 1] == y;
    }
  }

  /** The table without one watcher; a list that gets empty goes. */
  function Dropped<C, K>(table: map<K, seq<C>>, k: K, i: nat): map<K, seq<C>>
    requires k in table && i < |table[k]|
  {
    if |table[k]| == 1 then table - {k} else table[k := Without(table[k], i)]
  }

  lemma InverseDrop<C, K>(table: map<K, seq<C>>, lists: map<C, seq<K>>, c: C, i: nat)
    requires Inverse(table, lists) && c in lists && lists[c] != []
    requires lists[c][0] in table && i < |table[lists[c][0]]| && table[lists[c][0]][i] == c
    ensures Inverse(Dropped(table, lists[c][0], i), lists[c := lists[c][1..]])
  {
    var k := lists[c][0];
    WithoutElements(table[k], i);
    WithoutElements(lists[c], 0);
    assert Without(lists[c], 0) == lists[c][1..];
    var t, l := Dropped(table, k, i), lists[c := lists[c][1..]];
    assert forall d :: d in Watchers(t, k) <==> d in table[k] && d != c;
  }

  // ----- When a client is dirty -----

  /** A key in `watching` was touched since its watch began. */
  ghost predicate Disturbed(watching: seq<WatchedKey>, since: map<WatchedKey, nat>, log: seq<set<WatchedKey>>) {
    exists k :: k in watching && k in since && TouchedSince(log, since[k], k)
  }

  /** Every watch began within the log. */
  ghost predicate Recorded(watching: seq<WatchedKey>, since: map<WatchedKey, nat>, log: seq<set<WatchedKey>>) {
    forall k :: k in watching ==> k in since && since[k] <= |log|
  }

  /** The watches, each with its beginning. */
  ghost function Starts(watching: seq<WatchedKey>, since: map<WatchedKey, nat>): map<WatchedKey, nat> {
    map k | k in watching && k in since :: since[k]
  }

  lemma StartsAppend(watching: seq<WatchedKey>, since: map<WatchedKey, nat>, k: WatchedKey, now: nat)
    requires k !in watching
    ensures Starts(watching + [k], since[k := now]) == Starts(watching, since)[k := now]
  {
  }

  lemma StartsKeys(watching: seq<WatchedKey>, since: map<WatchedKey, nat>, log: seq<set<WatchedKey>>)
    requires Recorded(watching, since, log)
    ensures forall k :: k in Starts(watching, since) <==> k in watching
  {
  }

  lemma StartsNone(since: map<WatchedKey, nat>)
    ensures Starts([], since) == map[]
  {
  }

  lemma StaleIsDisturbed(watching: seq<WatchedKey>, since: map<WatchedKey, nat>, log: seq<set<WatchedKey>>)
    requires Recorded(watching, since, log)
    ensures Stale(Starts(watching, since), log) <==> Disturbed(watching, since, log)
  {
    hide TouchedSince;
    if Disturbed(watching, since, log) {
      var k :| k in watching && k in since && TouchedSince(log, since[k], k);
      assert k in Starts(watching, since);
    }
  }

  ghost predicate Hit(watching: seq<WatchedKey>, event: set<WatchedKey>) {
    exists k :: k in watching && k in event
  }

  lemma WatchIsFresh(watching: seq<WatchedKey>, since: map<WatchedKey, nat>, log: seq<set<WatchedKey>>, k: WatchedKey)
    requires Recorded(watching, since, log) && k !in watching
    ensures Recorded(watching + [k], since[k := |log|], log)
    ensures Disturbed(watching + [k], since[k := |log|], log) <==> Disturbed(watching, since, log)
  {
    if Disturbed(watching, since, log) {
      var j :| j in watching && j in since && TouchedSince(log, since[j], j);
      assert j in watching + [k] && since[k := |log|][j] == since[j];
    }
  }

  /** One more event disturbs exactly the clients that watch a key in it, and those disturbed before. */
  lemma EventDisturbs(watching: seq<WatchedKey>, since: map<WatchedKey, nat>, log: seq<set<WatchedKey>>,
                      event: set<WatchedKey>)
    requires Recorded(watching, since, log)
    ensures Recorded(watching, since, log + [event])
    ensures Disturbed(watching, since, log + [event]) <==> Disturbed(watching, since, log) || Hit(watching, event)
  {
    hide TouchedSince;
    forall k | k in watching
      ensures TouchedSince(log + [event], since[k], k) <==> TouchedSince(log, since[k], k) || k in event
    {
      TouchedNext(log, event, since[k], k);
    }
  }

  class Client {
    var db: nat
    var multi: bool
    var dirtyCas: bool
    var dirtyExec: bool
    var commands: seq<Command>
    var watchedKeys: seq<WatchedKey>
    /** For every watched key, how long the log of touched keys was when the watch began. */
    ghost var since: map<WatchedKey, nat>

    constructor ()
      ensures db == 0 && !multi && !dirtyCas && !dirtyExec && commands == [] && watchedKeys == [] && since == map[]
    {
      db, multi, dirtyCas, dirtyExec, commands, watchedKeys := 0, false, false, false, [], [];
      since := map[];
    }

    /** Outside a transaction, watching nothing. */
    ghost predicate Idle()
      reads this
    {
      !multi && !dirtyCas && !dirtyExec && commands == [] && watchedKeys == []
    }

    /** The flag says exactly whether a key it watches was touched since. */
    ghost predicate Exact(log: seq<set<WatchedKey>>)
      reads `watchedKeys, `since, `dirtyCas
    {
      Recorded(watchedKeys, since, log) && (dirtyCas <==> Disturbed(watchedKeys, since, log))
    }

    /** The session, as its answers depend on it. */
    ghost function Session(): Conn
      reads `db, `multi, `dirtyExec, `commands, `watchedKeys, `since
    {
      Conn(db, multi, dirtyExec, commands, Starts(watchedKeys, since))
    }

    /** Only a transaction holds a queue or a queueing error. */
    ghost predicate Orderly()
      reads `multi, `commands, `dirtyExec
    {
      && (!multi ==> commands == [] && !dirtyExec)
      && (forall cmd :: cmd in commands ==> Queueable(cmd))
    }
  }

  class Server {
    var clients: seq<Client>
    var watched: map<WatchedKey, seq<Client>>
    var keys: set<WatchedKey>
    ghost var log: seq<set<WatchedKey>>

    ghost function Objects(): set<Client>
      reads `clients
    {
      set c | c in clients
    }

    ghost function Lists(): map<Client, seq<WatchedKey>>
      reads `clients, Objects()`watchedKeys
    {
      map c | c in clients :: c.watchedKeys
    }

    ghost predicate Indexed()
      reads `clients, `watched, Objects()`watchedKeys
    {
      NoDuplicates(clients) && Inverse(watched, Lists())
    }

    ghost predicate Valid()
      reads `clients, `watched, `log, Objects()
    {
      Indexed() && forall c :: c in clients ==> c.Exact(log) && c.Orderly()
    }

    constructor ()
      ensures Valid() && clients == [] && keys == {} && log == []
    {
      clients, watched, keys, log := [], map[], {}, [];
    }

    /** watchForKey. */
    method WatchForKey(c: Client, key: seq<byte>)
      requires Valid() && c in clients
      modifies `watched, c`watchedKeys, c`since
      ensures Valid()
      ensures WatchedKey(c.db, key) in c.watchedKeys && forall k :: k in old(c.watchedKeys) ==> k in c.watchedKeys
      ensures forall k :: k in c.watchedKeys && k !in old(c.watchedKeys) ==>
        k == WatchedKey(c.db, key) && c.since[k] == |log|
      ensures forall k :: k in old(c.watchedKeys) ==> k in old(c.since) && k in c.since && c.since[k] == old(c.since[k])
      ensures c.Session() == old(c.Session()).(watches := Begun(old(c.Session()).watches, WatchedKey(c.db, key), |log|))
    {
      hide Inverse, Disturbed, NoDuplicates, Starts;
      var wk := WatchedKey(c.db, key);
      StartsKeys(c.watchedKeys, c.since, log);
      var i := 0;
      while i < |c.watchedKeys|
        invariant 0 <= i <= |c.watchedKeys| && wk !in c.watchedKeys[..i]
      {
        if c.watchedKeys[i] == wk {
          return;
        }
        i := i + 1;
      }
      ghost var lists := Lists();
      InverseAdd(watched, lists, c, wk);
      WatchIsFresh(c.watchedKeys, c.since, log, wk);
      AppendNew(c.watchedKeys, wk);
      StartsAppend(c.watchedKeys, c.since, wk, |log|);
      watched := watched[wk := Watchers(watched, wk) + [c]];
      c.watchedKeys, c.since := c.watchedKeys + [wk], c.since[wk := |log|];
      assert Lists() == lists[c := c.watchedKeys];
    }

    /** unwatchAllKeys: from the front of the list, each key is taken off both sides. The flags are the caller's. */
    method UnwatchAllKeys(c: Client)
      requires Indexed() && c in clients
      modifies `watched, c`watchedKeys
      ensures Indexed() && c.watchedKeys == []
    {
      hide Inverse, NoDuplicates;
      while |c.watchedKeys| > 0
        invariant Indexed()
      {
        ghost var lists := Lists();
        var wk := c.watchedKeys[0];
        InTable(watched, lists, c, wk);
        var i := SearchKey(watched[wk], c);
        InverseDrop(watched, lists, c, i);
        watched := Dropped(watched, wk, i);
        c.watchedKeys := c.watchedKeys[1..];
        assert Lists() == lists[c := c.watchedKeys];
      }
    }

    /** touchWatchedKey. */
    method TouchWatchedKey(k: WatchedKey)
      requires Valid()
      modifies `log, Objects()`dirtyCas
      ensures Valid() && log == old(log) + [{k}]
    {
      hide Disturbed, Recorded, NoDuplicates, Inverse;
      ghost var before := log;
      var list := Watchers(watched, k);
      WatchersOf(watched, Lists(), k);
      assert forall c :: c in clients ==> c in Lists() && Lists()[c] == c.watchedKeys;
      var i := 0;
      while i < |list|
        invariant 0 <= i <= |list|
        invariant forall c :: c in clients ==> (c.dirtyCas <==> old(c.dirtyCas) || c in list[..i])
      {
        assert list[i] in list;
        list[i].dirtyCas := true;
        i := i + 1;
      }
      assert list[..i] == list;
      log := before + [{k}];
      assert log == before + [{k}];
      forall c | c in clients
        ensures c.Exact(log)
      {
        EventDisturbs(c.watchedKeys, c.since, before, {k});
        HitOne(c.watchedKeys, k);
      }
    }

    function Flushed(dbid: int): set<WatchedKey>
      reads `keys
    {
      FlushedKeys(keys, dbid)
    }

    /** What client `c` sees and can change. */
    ghost function Seen(c: Client): World
      reads `keys, `log, c`db
    {
      World(keys, log, c.db)
    }

    /** The inner loop of touchWatchedKeysOnFlush. */
    method TouchClientOnFlush(c: Client, dbid: int)
      modifies c`dirtyCas
      ensures c.dirtyCas <==> old(c.dirtyCas) || Hit(c.watchedKeys, Flushed(dbid))
    {
      hide Hit;
      var j := 0;
      HitNone(Flushed(dbid));
      assert c.watchedKeys[..0] == [];
      while j < |c.watchedKeys|
        invariant 0 <= j <= |c.watchedKeys|
        invariant c.dirtyCas <==> old(c.dirtyCas) || Hit(c.watchedKeys[..j], Flushed(dbid))
      {
        var wk := c.watchedKeys[j];
        assert c.watchedKeys[..j + 1] == c.watchedKeys[..j] + [wk];
        HitNext(c.watchedKeys[..j], wk, Flushed(dbid));
        if dbid == -1 || wk.db == dbid {
          if wk in keys {
            c.dirtyCas := true;
          }
        }
        j := j + 1;
      }
      assert c.watchedKeys[..j] == c.watchedKeys;
    }

    /** touchWatchedKeysOnFlush, before the keys are removed. */
    method TouchWatchedKeysOnFlush(dbid: int)
      requires Valid()
      modifies `log, Objects()`dirtyCas
      ensures Valid() && log == old(log) + [Flushed(dbid)]
    {
      hide Disturbed, Recorded, Inverse, Flushed, Hit;
      ghost var before := log;
      var i := 0;
      while i < |clients|
        invariant 0 <= i <= |clients|
        invariant forall j :: i <= j < |clients| ==> clients[j].dirtyCas == old(clients[j].dirtyCas)
        invariant forall j :: 0 <= j < i ==>
          (clients[j].dirtyCas <==> old(clients[j].dirtyCas) || Hit(clients[j].watchedKeys, Flushed(dbid)))
      {
        TouchClientOnFlush(clients[i], dbid);
        i := i + 1;
      }
      ghost var event := Flushed(dbid);
      log := before + [event];
      assert log == before + [event] && event == Flushed(dbid);
      forall c | c in clients
        ensures c.Exact(log)
      {
        EventDisturbs(c.watchedKeys, c.since, before, event);
      }
    }

    // ----- Commands -----

    /** The commands that only touch keys, one change after the other. */
    method Apply(c: Client, changes: seq<Change>)
      requires Valid() && c in clients
      modifies `keys, `log, Objects()`dirtyCas
      ensures Valid() && Seen(c) == ApplyAll(old(Seen(c)), changes)
    {
      hide Client.Exact, Client.Orderly, Inverse, Indexed;
      var i := 0;
      assert changes[..0] == [];
      while i < |changes|
        invariant 0 <= i <= |changes| && Valid() && Seen(c) == ApplyAll(old(Seen(c)), changes[..i])
      {
        assert changes[..i + 1][..i] == changes[..i];
        var k := WatchedKey(c.db, changes[i].key);
        keys := if changes[i].exists_ then keys + {k} else keys - {k};
        if changes[i].signalled {
          TouchWatchedKey(k);
        }
        i := i + 1;
      }
      assert changes[..i] == changes;
    }

    /** unwatchCommand. */
    method UnwatchCommand(c: Client)
      requires Valid() && c in clients
      modifies `watched, c`watchedKeys, c`dirtyCas
      ensures Valid() && c.watchedKeys == [] && !c.dirtyCas
    {
      hide Inverse, Disturbed, Recorded;
      UnwatchAllKeys(c);
      c.dirtyCas := false;
      NothingWatched(c.since, log);
    }

    /** call() of a command that a transaction can hold. */
    method Call(c: Client, cmd: Command) returns (reply: Reply)
      requires Valid() && c in clients && Queueable(cmd)
      modifies `watched, `keys, `log, c`watchedKeys, c`db, Objects()`dirtyCas
      ensures Valid() && Seen(c) == Perform(old(Seen(c)), cmd)
      ensures cmd == Unwatch ==> c.watchedKeys == []
      ensures cmd != Unwatch ==> c.watchedKeys == old(c.watchedKeys)
      ensures c.Session().watches == if cmd == Unwatch then map[] else old(c.Session()).watches
      ensures reply == Ok
    {
      hide Inverse, Client.Exact, Client.Orderly, NoDuplicates, FlushedKeys, ApplyAll, Starts;
      reply := Ok;
      StartsNone(c.since);
      match cmd
      case Unwatch =>
        UnwatchCommand(c);
      case Select(db) =>
        c.db := db;
      case Data(changes) =>
        Apply(c, changes);
      case FlushDb =>
        TouchWatchedKeysOnFlush(c.db);
        keys := keys - Flushed(c.db);
      case FlushAll =>
        TouchWatchedKeysOnFlush(-1);
        AllFlushed(keys);
        keys := {};
    }

    /** discardTransaction. */
    method DiscardTransaction(c: Client)
      requires Indexed() && c in clients && forall d :: d in clients && d != c ==> d.Exact(log) && d.Orderly()
      modifies `watched, c
      ensures Valid() && c.Idle() && c.db == old(c.db) && c.since == old(c.since)
      ensures c.Session() == NewConn(c.db)
    {
      hide Inverse, Disturbed, Recorded, Starts;
      StartsNone(c.since);
      c.commands := [];
      c.multi, c.dirtyCas, c.dirtyExec := false, false, false;
      UnwatchAllKeys(c);
      NothingWatched(c.since, log);
    }

    /**
     execCommand. The queue runs exactly when no queueing error was flagged and no key that is still watched was
     touched, or removed by a flush, since its watch began. Otherwise nothing is executed. Either way the
     client is out of the transaction and watches nothing.
     */
    method ExecCommand(c: Client) returns (reply: Reply)
      requires Valid() && c in clients
      modifies `watched, `keys, `log, c, Objects()`dirtyCas
      ensures Valid()
      ensures !c.multi && (!old(c.multi) ==> reply == Error)
      ensures old(c.multi) ==>
        && c.Idle()
        && (old(c.dirtyExec) <==> reply == ExecAbort)
        && (!old(c.dirtyExec) && old(Disturbed(c.watchedKeys, c.since, log)) <==> reply == NullMultiBulk)
        && (!old(c.dirtyExec) && !old(Disturbed(c.watchedKeys, c.since, log)) <==> reply == Results(old(c.commands)))
      ensures Seen(c) == if reply.Results? then PerformAll(old(Seen(c)), reply.commands) else old(Seen(c))
      ensures reply.Results? ==> exists worlds :: Stages(old(Seen(c)), reply.commands, Seen(c), worlds)
      ensures c.Session() == if old(c.multi) then NewConn(c.db) else old(c.Session())
    {
      hide Inverse, Disturbed, Recorded, NoDuplicates, Perform, Starts, Stages;
      if !c.multi {
        return Error;
      }
      if c.dirtyCas || c.dirtyExec {
        reply := if c.dirtyExec then ExecAbort else NullMultiBulk;
        DiscardTransaction(c);
        return;
      }
      UnwatchAllKeys(c);
      NothingWatched(c.since, log);
      var queue := c.commands;
      var j := 0;
      assert queue[..0] == [];
      while j < |queue|
        invariant 0 <= j <= |queue| && Valid() && Seen(c) == PerformAll(old(Seen(c)), queue[..j])
        invariant forall cmd :: cmd in queue ==> Queueable(cmd)
      {
        hide Valid;
        assert queue[..j + 1][..j] == queue[..j];
        var r := Call(c, queue[j]);
        j := j + 1;
      }
      assert queue[..j] == queue;
      DiscardTransaction(c);
      ghost var worlds := PerformedInOrder(old(Seen(c)), queue);
      reply := Results(queue);
    }

    /** watchCommand. */
    method WatchCommand(c: Client, names: seq<seq<byte>>) returns (reply: Reply)
      requires Valid() && c in clients
      modifies `watched, c`watchedKeys, c`since
      ensures Valid()
      ensures reply == if c.multi then Error else Ok
      ensures c.multi ==> c.watchedKeys == old(c.watchedKeys) && c.since == old(c.since)
      ensures !c.multi ==> forall n :: n in names ==> WatchedKey(c.db, n) in c.watchedKeys
      ensures forall k :: k in old(c.watchedKeys) ==>
        k in c.watchedKeys && k in old(c.since) && k in c.since && c.since[k] == old(c.since[k])
      ensures c.Session() == if c.multi then old(c.Session())
        else old(c.Session()).(watches := Watching(old(c.Session()).watches, c.db, names, |log|))
    {
      hide Inverse, Disturbed, NoDuplicates, Client.Orderly, Starts;
      if c.multi {
        return Error;
      }
      var j := 0;
      assert names[..0] == [];
      while j < |names|
        invariant 0 <= j <= |names| && Valid()
        invariant c.Session()
               == old(c.Session()).(watches := Watching(old(c.Session()).watches, c.db, names[..j], |log|))
        invariant forall n :: n in names[..j] ==> WatchedKey(c.db, n) in c.watchedKeys
        invariant forall k :: k in old(c.watchedKeys) ==>
          k in c.watchedKeys && k in old(c.since) && k in c.since && c.since[k] == old(c.since[k])
      {
        assert names[..j + 1][..j] == names[..j];
        WatchForKey(c, names[j]);
        j := j + 1;
      }
      assert names[..j] == names;
      reply := Ok;
    }

    /** createClient: appended to the list of clients. */
    method Connect() returns (c: Client)
      requires Valid()
      modifies `clients
      ensures Valid() && fresh(c) && c.Idle() && c.Session() == NewConn(0) && clients == old(clients) + [c]
    {
      hide Disturbed, Recorded, Starts, NoDuplicates;
      ghost var lists := Lists();
      c := new Client();
      AppendNew(clients, c);
      StartsNone(c.since);
      NothingWatched(c.since, log);
      InverseClient(watched, lists, c);
      clients := clients + [c];
      assert Lists() == lists[c := []];
    }

    /** freeClient: its watches go with it. */
    method Disconnect(i: nat)
      requires Valid() && i < |clients|
      modifies this, clients[i]
      ensures Valid() && clients == Without(old(clients), i) && keys == old(keys) && log == old(log)
    {
      hide Disturbed, Recorded, Inverse, NoDuplicates;
      var c := clients[i];
      UnwatchAllKeys(c);
      ghost var lists := Lists();
      WithoutElements(clients, i);
      InverseGone(watched, lists, c);
      clients := Without(clients, i);
      assert Lists() == lists - {c};
    }

    /**
     processCommand: a refused command changes nothing, but most refusals flag the transaction; inside a transaction
     every other command but EXEC, DISCARD, MULTI and WATCH is queued and does nothing yet. The flags that the
     server keeps give the answers that the log of touched keys demands.
     */
    method Process(c: Client, cmd: Command) returns (reply: Reply)
      requires Valid() && c in clients
      modifies `watched, `keys, `log, c, Objects()`dirtyCas
      ensures Valid()
      ensures Outcome(c.Session(), keys, log, reply) == Respond(old(c.Session()), old(keys), old(log), cmd)
      ensures old(c.multi) && (cmd == Exec || cmd == Discard) ==> c.Idle()
    {
      hide Valid, Disturbed, Perform, PerformAll, Starts, Stale, Watching;
      StaleWhenDisturbed(c);
      match cmd {
        case Rejected(flags) =>
          if flags {
            FlagTransaction(c);
          }
          return Error;
        case Multi =>
          reply := MultiCommand(c);
        case Discard =>
          reply := DiscardCommand(c);
        case Exec =>
          reply := ExecCommand(c);
        case Watch(names) =>
          reply := WatchCommand(c, names);
        case _ =>
          if c.multi {
            QueueMultiCommand(c, cmd);
            return Queued;
          }
          reply := Call(c, cmd);
      }
    }

    lemma StaleWhenDisturbed(c: Client)
      requires Valid() && c in clients
      ensures Stale(c.Session().watches, log) <==> Disturbed(c.watchedKeys, c.since, log)
    {
      StaleIsDisturbed(c.watchedKeys, c.since, log);
    }

    /** flagTransaction. */
    method FlagTransaction(c: Client)
      requires Valid() && c in clients
      modifies c`dirtyExec
      ensures Valid() && c.dirtyExec == (old(c.dirtyExec) || c.multi)
    {
      hide Inverse, Disturbed, Recorded, NoDuplicates;
      if c.multi {
        c.dirtyExec := true;
      }
    }

    /** queueMultiCommand. */
    method QueueMultiCommand(c: Client, cmd: Command)
      requires Valid() && c in clients && c.multi && Queueable(cmd)
      modifies c`commands
      ensures Valid() && c.commands == old(c.commands) + [cmd]
    {
      hide Inverse, Disturbed, Recorded, NoDuplicates;
      c.commands := c.commands + [cmd];
    }

    method MultiCommand(c: Client) returns (reply: Reply)
      requires Valid() && c in clients
      modifies c`multi
      ensures Valid() && c.multi && reply == if old(c.multi) then Error else Ok
      ensures !old(c.multi) ==> c.commands == [] && !c.dirtyExec
    {
      hide Inverse, Disturbed, Recorded, NoDuplicates;
      if c.multi {
        return Error;
      }
      c.multi := true;
      reply := Ok;
    }

    method DiscardCommand(c: Client) returns (reply: Reply)
      requires Valid() && c in clients
      modifies `watched, c
      ensures Valid() && !c.multi && reply == (if old(c.multi) then Ok else Error) && c.db == old(c.db)
      ensures old(c.multi) ==> c.Idle()
      ensures c.Session() == if old(c.multi) then NewConn(c.db) else old(c.Session())
    {
      hide Inverse, Disturbed, Recorded, NoDuplicates;
      if !c.multi {
        return Error;
      }
      DiscardTransaction(c);
      reply := Ok;
    }
  }

  /** The commands that processCommand puts into the queue inside a transaction. */
  predicate Queueable(cmd: Command) {
    cmd.Unwatch? || cmd.Select? || cmd.Data? || cmd.FlushDb? || cmd.FlushAll?
  }

  lemma WatchersOf<C, K>(table: map<K, seq<C>>, lists: map<C, seq<K>>, k: K)
    requires Inverse(table, lists)
    ensures forall c :: c in Watchers(table, k) ==> c in lists
    ensures forall c :: c in lists ==> (k in lists[c] <==> c in Watchers(table, k))
  {
  }

  lemma InverseClient<C, K>(table: map<K, seq<C>>, lists: map<C, seq<K>>, c: C)
    requires Inverse(table, lists) && c !in lists
    ensures Inverse(table, lists[c := []])
  {
  }

  lemma InverseGone<C, K>(table: map<K, seq<C>>, lists: map<C, seq<K>>, c: C)
    requires Inverse(table, lists) && c in lists && lists[c] == []
    ensures Inverse(table, lists - {c})
  {
  }

  lemma AllFlushed(keys: set<WatchedKey>)
    ensures keys - FlushedKeys(keys, -1) == {}
  {
  }

  lemma HitOne(watching: seq<WatchedKey>, k: WatchedKey)
    ensures Hit(watching, {k}) <==> k in watching
  {
  }

  lemma HitNone(event: set<WatchedKey>)
    ensures !Hit([], event)
  {
  }

  lemma HitNext(watching: seq<WatchedKey>, k: WatchedKey, event: set<WatchedKey>)
    ensures Hit(watching + [k], event) <==> Hit(watching, event) || k in event
  {
    if Hit(watching, event) {
      var j :| j in watching && j in event;
      assert j in watching + [k];
    }
    if k in event {
      assert k in watching + [k];
    }
  }

  lemma NothingWatched(since: map<WatchedKey, nat>, log: seq<set<WatchedKey>>)
    ensures Recorded([], since, log) && !Disturbed([], since, log)
  {
  }

  // ----- Whole runs -----

  /** Clients come, go and send commands; positions beyond the list of clients are ignored. */
  datatype Event = Arrives | Leaves(i: nat) | Sends(i: nat, cmd: Command)

  datatype State = State(conns: seq<Conn>, keys: set<WatchedKey>, log: seq<set<WatchedKey>>)

  datatype Trace = Trace(state: State, replies: seq<Reply>)

  ghost function Step(t: Trace, e: Event): Trace {
    var s := t.state;
    match e
    case Arrives => t.(state := s.(conns := s.conns + [NewConn(0)]))
    case Leaves(i) => if i < |s.conns| then t.(state := s.(conns := Without(s.conns, i))) else t
    case Sends(i, cmd) =>
      if i < |s.conns| then
        var o := Respond(s.conns[i], s.keys, s.log, cmd);
        Trace(State(s.conns[i := o.conn], o.keys, o.log), t.replies + [o.reply])
      else t
  }

  /** The state and all answers after some events. */
  ghost function Replay(t: Trace, events: seq<Event>): Trace
    decreases |events|
  {
    if events == [] then t else Step(Replay(t, events[..|events| - 1]), events[|events| - 1])
  }

  const EMPTY := Trace(State([], {}, []), [])

  lemma SessionsAppend(clients: seq<Client>, c: Client)
    ensures Sessions(clients + [c]) == Sessions(clients) + [c.Session()]
  {
  }

  ghost function Sessions(clients: seq<Client>): (s: seq<Conn>)
    reads set c | c in clients
    ensures |s| == |clients| && forall i :: 0 <= i < |s| ==> s[i] == clients[i].Session()
  {
    seq(|clients|, i requires 0 <= i < |clients| reads set c | c in clients => clients[i].Session())
  }

  ghost function StateOf(server: Server): State
    reads server, server.Objects()
  {
    State(Sessions(server.clients), server.keys, server.log)
  }

  /**
   All replies of every run, those of EXEC among them, are the ones that the log of touched keys demands, and the
   two indexes stay inverse throughout.
   */
  method Run(events: seq<Event>) returns (server: Server, replies: seq<Reply>)
    ensures server.Valid() && Trace(StateOf(server), replies) == Replay(EMPTY, events)
  {
    hide Server.Valid, Respond, Without;
    server := new Server();
    replies := [];
    var i := 0;
    assert events[..0] == [];
    while i < |events|
      invariant 0 <= i <= |events| && server.Valid() && fresh(server)
      invariant forall c :: c in server.clients ==> fresh(c)
      invariant Trace(StateOf(server), replies) == Replay(EMPTY, events[..i])
    {
      assert events[..i + 1][..i] == events[..i];
      var answers := Handle(server, events[i]);
      replies := replies + answers;
      i := i + 1;
    }
    assert events[..i] == events;
  }

  lemma OnlyOne(server: Server, j: nat)
    requires server.Valid() && j < |server.clients|
    ensures server.clients[j] in server.clients
    ensures forall i :: 0 <= i < |server.clients| && i != j ==> server.clients[i] != server.clients[j]
  {
  }

  /** One event. */
  method Handle(server: Server, e: Event) returns (answers: seq<Reply>)
    requires server.Valid()
    modifies server, server.Objects()
    ensures server.Valid() && fresh(server.Objects() - old(server.Objects()))
    ensures forall replies :: Trace(StateOf(server), replies + answers) == Step(Trace(old(StateOf(server)), replies), e)
  {
    hide Server.Valid, Respond;
    answers := [];
    ghost var before := server.clients;
    match e {
      case Arrives =>
        var c := server.Connect();
        SessionsAppend(before, c);
        assert Sessions(server.clients) == old(Sessions(server.clients)) + [NewConn(0)];
      case Leaves(j) =>
        if j < |server.clients| {
          WithoutSubset(before, j);
          OnlyOne(server, j);
          ghost var sessions := Sessions(before);
          server.Disconnect(j);
          assert Sessions(server.clients) == Without(sessions, j);
        }
      case Sends(j, cmd) =>
        if j < |server.clients| {
          var c := server.clients[j];
          OnlyOne(server, j);
          var reply := server.Process(c, cmd);
          answers := [reply];
          assert Sessions(server.clients) == old(Sessions(server.clients))[j := c.Session()];
        }
    }
    forall replies: seq<Reply>
      ensures Trace(StateOf(server), replies + answers) == Step(Trace(old(StateOf(server)), replies), e)
    {
      assert answers == [] ==> replies + answers == replies;
    }
  }

  // ----- What EXEC answers, in terms of the events of a run -----

  /** An event that leaves client `i` in its place and in its transaction. */
  predicate Steady(e: Event, i: nat) {
    match e
    case Arrives => true
    case Leaves(j) => j > i
    case Sends(j, cmd) => j == i ==> cmd != Exec && cmd != Discard
  }

  /** What client `i` gets queued inside a transaction. */
  function QueuedBy(events: seq<Event>, i: nat): seq<Command>
    decreases |events|
  {
    if events == [] then []
    else
      var e := events[|events| - 1];
      QueuedBy(events[..|events| - 1], i) + if e.Sends? && e.i == i && Queueable(e.cmd) then [e.cmd] else []
  }

  predicate FlaggedBy(events: seq<Event>, i: nat) {
    Sends(i, Rejected(true)) in events
  }

  lemma {:induction false} ReplayAppend(t: Trace, a: seq<Event>, b: seq<Event>)
    ensures Replay(t, a + b) == Replay(Replay(t, a), b)
    decreases |b|
  {
    hide Step;
    if b == [] {
      assert a + b == a;
    } else {
      assert (a + b)[..|a + b| - 1] == a + b[..|b| - 1];
      ReplayAppend(t, a, b[..|b| - 1]);
    }
  }

  /** Outside a transaction nothing is queued and no error is flagged. */
  lemma {:induction false} SessionsOrderly(events: seq<Event>)
    ensures forall c :: c in Replay(EMPTY, events).state.conns && !c.multi ==> c.queue == [] && !c.queueError
    decreases |events|
  {
    hide Stale, PerformAll, Perform, Watching, Without;
    if events != [] {
      var init, e := events[..|events| - 1], events[|events| - 1];
      SessionsOrderly(init);
      var conns := Replay(EMPTY, init).state.conns;
      if e.Leaves? && e.i < |conns| {
        WithoutSubset(conns, e.i);
      }
    }
  }

  /** One event inside a transaction. */
  lemma SteadyStep(t: Trace, e: Event, i: nat)
    requires i < |t.state.conns| && t.state.conns[i].multi && Steady(e, i)
    ensures var c, conns := t.state.conns[i], Step(t, e).state.conns;
            && i < |conns|
            && conns[i] == c.(queue := c.queue + (if e.Sends? && e.i == i && Queueable(e.cmd) then [e.cmd] else []),
                              queueError := c.queueError || e == Sends(i, Rejected(true)))
  {
    hide Stale, PerformAll, Perform, Watching;
    var queue := t.state.conns[i].queue;
    assert queue + [] == queue;
  }

  /** Inside a transaction the watches stay, commands are queued in order, and flagged refusals are noted. */
  lemma {:induction false} InTransaction(t: Trace, events: seq<Event>, i: nat)
    requires i < |t.state.conns| && t.state.conns[i].multi && forall e :: e in events ==> Steady(e, i)
    ensures var c, conns := t.state.conns[i], Replay(t, events).state.conns;
            && i < |conns|
            && conns[i] == c.(queue := c.queue + QueuedBy(events, i),
                              queueError := c.queueError || FlaggedBy(events, i))
    decreases |events|
  {
    hide Step, Queueable, Steady;
    var queue := t.state.conns[i].queue;
    if events == [] {
      assert queue + QueuedBy(events, i) == queue;
    } else {
      var init, e := events[..|events| - 1], events[|events| - 1];
      assert events == init + [e] && e in events;
      InTransaction(t, init, i);
      SteadyStep(Replay(t, init), e, i);
      assert FlaggedBy(events, i) <==> FlaggedBy(init, i) || e == Sends(i, Rejected(true));
      var more := if e.Sends? && e.i == i && Queueable(e.cmd) then [e.cmd] else [];
      assert queue + (QueuedBy(init, i) + more) == (queue + QueuedBy(init, i)) + more;
    }
  }

  /** The commands of client `i`, each sent on its own. */
  function Singly(i: nat, cmds: seq<Command>): (events: seq<Event>)
    ensures |events| == |cmds| && forall j :: 0 <= j < |cmds| ==> events[j] == Sends(i, cmds[j])
  {
    seq(|cmds|, j requires 0 <= j < |cmds| => Sends(i, cmds[j]))
  }

  /** The same state with client `i` outside a transaction, with nothing queued and nothing watched. */
  function Freed(s: State, i: nat): State
    requires i < |s.conns|
  {
    s.(conns := s.conns[i := Conn(s.conns[i].db, false, false, [], map[])])
  }

  lemma {:induction false} SentSingly(t: Trace, i: nat, cmds: seq<Command>)
    requires i < |t.state.conns| && t.state.conns[i] == NewConn(t.state.conns[i].db)
    requires forall cmd :: cmd in cmds ==> Queueable(cmd)
    ensures var s := t.state;
            var w := PerformAll(World(s.keys, s.log, s.conns[i].db), cmds);
            Replay(t, Singly(i, cmds)).state == State(s.conns[i := NewConn(w.db)], w.keys, w.log)
    decreases |cmds|
  {
    hide Stale, Perform, Watching, Without;
    var s := t.state;
    if cmds == [] {
      assert s.conns[i := s.conns[i]] == s.conns;
    } else {
      var last := |cmds| - 1;
      SentSingly(t, i, cmds[..last]);
      assert Singly(i, cmds)[..last] == Singly(i, cmds[..last]);
      assert cmds[last] in cmds;
      var w := PerformAll(World(s.keys, s.log, s.conns[i].db), cmds[..last]);
      assert World(w.keys, w.log, w.db) == w;
    }
  }

  /**
   An EXEC that runs leaves the state that the client would have left by giving up the transaction and sending
   the queued commands one by one, the first one first; one that does not run only gives it up.
   */
  lemma ExecAsSent(t: Trace, i: nat)
    requires i < |t.state.conns| && t.state.conns[i].multi
    requires forall cmd :: cmd in t.state.conns[i].queue ==> Queueable(cmd)
    ensures var c, after := t.state.conns[i], Step(t, Sends(i, Exec));
            && |after.replies| == |t.replies| + 1
            && var reply := after.replies[|t.replies|];
               (reply == Results(c.queue) &&
                 after.state == Replay(Trace(Freed(t.state, i), []), Singly(i, c.queue)).state)
               || ((reply == ExecAbort || reply == NullMultiBulk) && after.state == Freed(t.state, i))
  {
    hide Stale, Perform, PerformAll, Watching, Without, Replay;
    var free := Trace(Freed(t.state, i), []);
    SentSingly(free, i, t.state.conns[i].queue);
    var c := t.state.conns[i];
    var w := PerformAll(World(t.state.keys, t.state.log, c.db), c.queue);
    Overwritten(t.state.conns, i, NewConn(c.db), NewConn(w.db));
  }

  lemma Overwritten<T>(s: seq<T>, i: nat, x: T, y: T)
    requires i < |s|
    ensures s[i := x][i := y] == s[i := y]
  {
  }

  /** Client `i` sends a command that is neither refused nor one of those that a transaction does not queue. */
  predicate SendsToQueue(e: Event, i: nat) {
    && e.Sends? && e.i == i
    && e.cmd != Multi && e.cmd != Exec && e.cmd != Discard && !e.cmd.Watch? && !e.cmd.Rejected?
  }

  /** The queue holds the commands that client `i` sent to it, all of them, in the order of their positions `at`. */
  ghost predicate QueuedAt(events: seq<Event>, i: nat, queue: seq<Command>, at: seq<nat>) {
    && |at| == |queue|
    && (forall a, b :: 0 <= a < b < |at| ==> at[a] < at[b])
    && (forall a :: 0 <= a < |at| ==>
         at[a] < |events| && SendsToQueue(events[at[a]], i) && events[at[a]].cmd == queue[a])
    && (forall p: nat :: p < |events| && SendsToQueue(events[p], i) ==> p in at)
  }

  lemma {:induction false} QueuedInOrder(events: seq<Event>, i: nat) returns (at: seq<nat>)
    ensures QueuedAt(events, i, QueuedBy(events, i), at)
    decreases |events|
  {
    hide SendsToQueue, Queueable, QueuedAt;
    if events == [] {
      at := [];
      NoneQueued(i);
    } else {
      var init, e := events[..|events| - 1], events[|events| - 1];
      at := QueuedInOrder(init, i);
      QueueableMeaning(e, i);
      assert events == init + [e];
      if SendsToQueue(e, i) {
        OneQueued(init, e, i, QueuedBy(init, i), at);
        at := at + [|init|];
      } else {
        NotQueued(init, e, i, QueuedBy(init, i), at);
        assert QueuedBy(init, i) + [] == QueuedBy(init, i);
      }
    }
  }

  lemma NoneQueued(i: nat)
    ensures QueuedAt([], i, [], [])
  {
  }

  lemma OneQueued(events: seq<Event>, e: Event, i: nat, queue: seq<Command>, at: seq<nat>)
    requires QueuedAt(events, i, queue, at) && SendsToQueue(e, i)
    ensures QueuedAt(events + [e], i, queue + [e.cmd], at + [|events|])
  {
    hide SendsToQueue;
    forall p: nat | p < |events + [e]| && SendsToQueue((events + [e])[p], i)
      ensures p in at + [|events|]
    {
      if p < |events| {
        assert p in at;
      } else {
        assert (at + [|events|])[|at|] == p;
      }
    }
  }

  lemma NotQueued(events: seq<Event>, e: Event, i: nat, queue: seq<Command>, at: seq<nat>)
    requires QueuedAt(events, i, queue, at) && !SendsToQueue(e, i)
    ensures QueuedAt(events + [e], i, queue, at)
  {
    hide SendsToQueue;
  }

  lemma QueueableMeaning(e: Event, i: nat)
    ensures SendsToQueue(e, i) <==> e.Sends? && e.i == i && Queueable(e.cmd)
  {
  }

  lemma {:induction false} QueuedQueueable(events: seq<Event>, i: nat)
    ensures forall cmd :: cmd in QueuedBy(events, i) ==> Queueable(cmd)
    decreases |events|
  {
    if events != [] {
      QueuedQueueable(events[..|events| - 1], i);
    }
  }

  /**
   Optimistic locking over whole runs: from any reachable state, a transaction of client `i` runs exactly the
   commands it got queued, if and only if no refusal was flagged meanwhile and no key that the client watched was
   touched since its watch began, whatever all the other clients did. Running them is sending them one by one.
   */
  lemma TransactionLaw(before: seq<Event>, during: seq<Event>, i: nat)
    requires i < |Replay(EMPTY, before).state.conns| && !Replay(EMPTY, before).state.conns[i].multi
    requires forall e :: e in during ==> Steady(e, i)
    ensures var start := Replay(EMPTY, before);
            var commit := Replay(start, [Sends(i, Multi)] + during);
            var after := Step(commit, Sends(i, Exec));
            var queue := QueuedBy(during, i);
            var watches, log := start.state.conns[i].watches, commit.state.log;
            && |after.replies| == |commit.replies| + 1 && i < |commit.state.conns|
            && var reply := after.replies[|commit.replies|];
               && (reply == ExecAbort <==> FlaggedBy(during, i))
               && (reply == Results(queue)
                   <==> !FlaggedBy(during, i)
                        && forall k, p :: k in watches && watches[k] <= p < |log| ==> k !in log[p])
               && after.state == if reply == Results(queue)
                                 then Replay(Trace(Freed(commit.state, i), []), Singly(i, queue)).state
                                 else Freed(commit.state, i)
  {
    hide Stale, PerformAll, Perform, Freed, Singly;
    var start := Replay(EMPTY, before);
    assert start.state.conns[i] in start.state.conns;
    SessionsOrderly(before);
    var begun := Step(start, Sends(i, Multi));
    assert [Sends(i, Multi)][..0] == [];
    assert Replay(start, [Sends(i, Multi)]) == begun;
    ReplayAppend(start, [Sends(i, Multi)], during);
    InTransaction(begun, during, i);
    QueuedQueueable(during, i);
    var commit := Replay(start, [Sends(i, Multi)] + during);
    assert [] + QueuedBy(during, i) == QueuedBy(during, i);
    ExecAsSent(commit, i);
    StaleMeaning(start.state.conns[i].watches, commit.state.log);
  }

  lemma StaleMeaning(watches: map<WatchedKey, nat>, log: seq<set<WatchedKey>>)
    ensures !Stale(watches, log) <==> forall k, p :: k in watches && watches[k] <= p < |log| ==> k !in log[p]
  {
    if !Stale(watches, log) {
      forall k, p | k in watches && watches[k] <= p < |log|
        ensures k !in log[p]
      {
        assert !TouchedSince(log, watches[k], k);
      }
    }
  }

  /** A refusal without flagTransaction changes nothing, so what was queued around it still runs. */
  lemma UnflaggedRefusal(t: Trace, a: seq<Event>, b: seq<Event>, i: nat)
    ensures Replay(t, a + [Sends(i, Rejected(false))] + b).state == Replay(t, a + b).state
  {
    var e := Sends(i, Rejected(false));
    var t0 := Replay(t, a);
    assert [e][..0] == [];
    assert Step(t0, e).state == t0.state by {
      assert i < |t0.state.conns| ==> t0.state.conns[i := t0.state.conns[i]] == t0.state.conns;
    }
    ReplayAppend(t, a, [e]);
    ReplayAppend(t, a + [e], b);
    ReplayAppend(t, a, b);
    StateDecides(Step(t0, e), t0, b);
  }

  /** Answers given before do not influence what happens. */
  lemma {:induction false} StateDecides(t: Trace, t': Trace, events: seq<Event>)
    requires t.state == t'.state
    ensures Replay(t, events).state == Replay(t', events).state
    decreases |events|
  {
    hide Respond, Without;
    if events != [] {
      StateDecides(t, t', events[..|events| - 1]);
    }
  }

  /** On a read-only slave, a write that is refused inside MULTI does not keep EXEC from running the rest. */
  lemma RefusedWriteStillRuns(get: Command)
    requires get.Data?
    ensures Replay(EMPTY, [Arrives, Sends(0, Multi), Sends(0, Rejected(false)), Sends(0, get), Sends(0, Exec)]).replies
         == [Ok, Error, Queued, Results([get])]
  {
    hide Replay, Step;
    var joined := [Arrives, Sends(0, Multi)];
    var refused := joined + [Sends(0, Rejected(false))];
    StepsOfRefusal(get);
    assert [] + [Arrives] == [Arrives] && [Arrives] + [Sends(0, Multi)] == joined;
    ReplayNext(EMPTY, [], Arrives);
    ReplayNext(EMPTY, [Arrives], Sends(0, Multi));
    ReplayNext(EMPTY, joined, Sends(0, Rejected(false)));
    ReplayNext(EMPTY, refused, Sends(0, get));
    ReplayNext(EMPTY, refused + [Sends(0, get)], Sends(0, Exec));
    assert refused + [Sends(0, get)] + [Sends(0, Exec)]
        == [Arrives, Sends(0, Multi), Sends(0, Rejected(false)), Sends(0, get), Sends(0, Exec)];
  }

  lemma StepsOfRefusal(get: Command)
    requires get.Data?
    ensures Step(Step(Step(Step(Step(EMPTY, Arrives), Sends(0, Multi)), Sends(0, Rejected(false))), Sends(0, get)),
                 Sends(0, Exec)).replies == [Ok, Error, Queued, Results([get])]
  {
    hide Stale, PerformAll, Perform;
    var t1 := Step(EMPTY, Arrives);
    var t2 := Step(t1, Sends(0, Multi));
    var t3 := Step(t2, Sends(0, Rejected(false)));
    var t4 := Step(t3, Sends(0, get));
    NeverStale([]);
    assert t1.state.conns == [NewConn(0)];
    assert t2.state.conns == [Conn(0, true, false, [], map[])] && t3.state.conns == t2.state.conns;
    assert [] + [get] == [get];
    assert t4.state.conns == [Conn(0, true, false, [get], map[])];
  }

  lemma ReplayNext(t: Trace, events: seq<Event>, e: Event)
    ensures Replay(t, events + [e]) == Step(Replay(t, events), e) && Replay(t, []) == t
  {
    assert (events + [e])[..|events|] == events;
  }

  lemma NeverStale(log: seq<set<WatchedKey>>)
    ensures !Stale(map[], log)
  {
  }

  lemma InTable<C, K>(table: map<K, seq<C>>, lists: map<C, seq<K>>, c: C, k: K)
    requires Inverse(table, lists) && c in lists && k in lists[c]
    ensures k in table && c in table[k] && NoDuplicates(table[k])
  {
  }

  /** listSearchKey. */
  method SearchKey<T(==)>(s: seq<T>, x: T) returns (i: nat)
    requires x in s
    ensures i < |s| && s[i] == x
  {
    i := 0;
    while s[i] != x
      invariant i < |s| && x in s[i..]
      decreases |s| - i
    {
      i := i + 1;
    }
  }
}
