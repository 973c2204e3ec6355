/**
 Reading an append only file: the loader of aof.c, which with aof-load-truncated accepts a file that was
 cut anywhere, and the checker of redis-check-aof.c, which finds where to cut a damaged one.
 */
module AofFile {
  import opened Bytes
  import opened Resp
  import Decimal

  const LINE_BUFFER := 128

  /** The length of what fgets returns from the start of `s`: up to `max` bytes, ending at a LF. */
  function LineLength(s: seq<byte>, max: nat): (n: nat)
    ensures n <= |s| && n <= max
    ensures n == 0 <==> s == [] || max == 0
    ensures forall k :: 0 <= k < n - 1 ==> s[k] != LF
  {
    if s == [] || max == 0 then 0
    else if s[0] == LF then 1
    else
      var n := 1 + LineLength(s[1..], max - 1);
      assert forall k :: 0 < k < n - 1 ==> s[k] == s[1..][k - 1];
      n
  }

  lemma {:induction false} LineLengthIs(s: seq<byte>, max: nat, n: nat)
    requires n <= |s| && n <= max
    requires forall k :: 0 <= k < n - 1 ==> s[k] != LF
    requires n == 0 ==> s == []
    requires n > 0 ==> s[n - 1] == LF || n == |s|
    ensures LineLength(s, max) == n
  {
    if n > 1 {
      assert s[0] != LF;
      assert forall k :: 0 <= k < n - 2 ==> s[1..][k] == s[k + 1];
      assert s[1..][n - 2] == s[n - 1];
      LineLengthIs(s[1..], max - 1, n - 1);
    } else if n == 1 && s[0] != LF {
      assert s[1..] == [];
    }
  }

  /** The line at `pos`, as fgets delivers it; empty at the end of the file. */
  function Line(file: seq<byte>, pos: nat): (line: seq<byte>)
    requires pos <= |file|
    ensures |line| <= |file| - pos && (line == [] <==> pos == |file|)
    ensures line == file[pos..pos + |line|] && forall k :: 0 <= k < |line| - 1 ==> line[k] != LF
  {
    file[pos..][..LineLength(file[pos..], LINE_BUFFER - 1)]
  }

  /** In a file that is a cut of `log`, a header line is read whole, or as far as the file goes. */
  lemma HeaderLine(file: seq<byte>, log: seq<byte>, pos: nat, prefix: byte, n: nat, rest: seq<byte>)
    requires pos <= |file| && file <= log && log[pos..] == Header(prefix, n) + rest
    requires prefix != CR && prefix != LF && prefix != 0 && n < 1_0000_000_000
    ensures var h := Header(prefix, n);
            Line(file, pos) == (if |file| - pos >= |h| then h else file[pos..])
            && |h| <= 13 && file[pos..] <= h + rest
  {
    hide Header;
    HeaderShape(prefix, n);
    var h, s := Header(prefix, n), file[pos..];
    var whole := h + rest;
    assert forall k :: 0 <= k < |s| ==> s[k] == log[pos + k] == log[pos..][k];
    assert forall k :: 0 <= k < |s| ==> s[k] == whole[k];
    var m := if |s| >= |h| then |h| else |s|;
    forall k | 0 <= k < m - 1
      ensures s[k] != LF
    {
      assert s[k] == h[k];
    }
    if |s| >= |h| {
      assert s[m - 1] == h[m - 1];
    }
    LineLengthIs(s, LINE_BUFFER - 1, m);
    assert s[..m] == whole[..m];
    assert |s| >= |h| ==> whole[..|h|] == h;
    assert s == whole[..|s|];
  }

  /** What a header line says: the number after the prefix. */
  lemma HeaderNumber(prefix: byte, n: nat)
    ensures Decimal.Leading(Header(prefix, n)[1..]) == n
    ensures Decimal.LeadingSize(Header(prefix, n)[1..]) == |Header(prefix, n)| - 3
    ensures Header(prefix, n)[|Header(prefix, n)| - 2..] == CRLF
  {
    Decimal.LeadingPrinted(n, CRLF);
    Decimal.DigitsCanonical(n);
    Decimal.LeadingDigitsExact(Decimal.Digits(n), CRLF);
    assert Decimal.IsDigit(Decimal.Digits(n)[0]);
    assert Header(prefix, n)[1..] == Decimal.Digits(n) + CRLF;
  }

  /** A positive count that is cut after its first digit still reads as a positive one. */
  lemma CutCount(prefix: byte, n: nat, line: seq<byte>)
    requires n >= 1 && line <= Header(prefix, n) && |line| >= 2
    ensures Decimal.Leading(line[1..]) >= 1
  {
    var d := Decimal.Digits(n);
    var k := |line| - 1;
    assert line[1..] == (d + CRLF)[..k];
    if k <= |d| {
      assert line[1..] == d[..k];
      Decimal.LeadingCut(n, k);
    } else {
      assert line[1..] == d + CRLF[..k - |d|];
      Decimal.LeadingPrinted(n, CRLF[..k - |d|]);
    }
  }

  /** What stands at `pos` in the log stands there in a cut that is long enough. */
  lemma CutSlice(file: seq<byte>, log: seq<byte>, pos: nat, a: seq<byte>, rest: seq<byte>)
    requires file <= log && pos <= |log| && log[pos..] == a + rest
    ensures pos + |a| <= |log| && log[pos + |a|..] == rest
    ensures pos + |a| <= |file| ==> file[pos..pos + |a|] == a
  {
    assert log[pos + |a|..] == log[pos..][|a|..];
    if pos + |a| <= |file| {
      assert file[pos..pos + |a|] == log[pos..pos + |a|] == log[pos..][..|a|];
    }
  }

  lemma CutNumber(prefix: byte, n: nat, s: seq<byte>, rest: seq<byte>)
    requires s <= Header(prefix, n) + rest && |s| < |Header(prefix, n)|
    ensures s <= Header(prefix, n)
    ensures s != [] ==> Decimal.Leading(s[1..]) >= 0
  {
    var h := Header(prefix, n);
    assert s == (h + rest)[..|s|] == h[..|s|];
    if |s| >= 2 {
      Decimal.DigitsCanonical(n);
      assert s[1] == h[1] == Decimal.Digits(n)[0];
      assert Decimal.IsDigit(s[1]);
    }
  }

  // ----- The loader -----

  datatype Status = Got | AtEnd | ShortRead | BadFormat | NoMemory

  /** One argument of the file. `tracked`: the file is a cut of `log`, where `arg` stands at `pos`. */
  method ReadArgument(file: seq<byte>, pos: nat, ghost tracked: bool, ghost log: seq<byte>, ghost arg: Arg,
                      ghost rest: seq<byte>)
    returns (pos': nat, value: Arg, status: Status)
    requires pos <= |file|
    requires tracked ==> file <= log && log[pos..] == EncodeArg(arg) + rest && |arg| <= MAX_BULK
    ensures status != AtEnd && (status == Got ==> pos < pos' <= |file|)
    ensures pos == |file| ==> status == ShortRead
    ensures pos < |file| && file[pos] != DOLLAR ==> status == BadFormat
    ensures tracked ==> if |file| - pos >= |EncodeArg(arg)|
                        then status == Got && value == arg && pos' == pos + |EncodeArg(arg)|
                        else status == ShortRead
  {
    hide Header, Line, Decimal.Leading;
    pos', value := pos, [];
    if tracked {
      HeaderLine(file, log, pos, DOLLAR, |arg|, arg + CRLF + rest);
      HeaderNumber(DOLLAR, |arg|);
      CutSlice(file, log, pos, Header(DOLLAR, |arg|), arg + (CRLF + rest));
      CutSlice(file, log, pos + |Header(DOLLAR, |arg|)|, arg, CRLF + rest);
      if |file| - pos < |Header(DOLLAR, |arg|)| {
        CutNumber(DOLLAR, |arg|, file[pos..], arg + CRLF + rest);
      }
    }
    var line := Line(file, pos');
    pos' := pos' + |line|;
    if line == [] {
      return pos', value, ShortRead;
    }
    if line[0] != DOLLAR {
      return pos', value, BadFormat;
    }
    var len := Decimal.Leading(line[1..]);
    if len < 0 {
      return pos', value, NoMemory;  // the length is unsigned: no allocation is that big
    }
    if len > 0 && |file| - pos' < len {
      return pos', value, ShortRead;
    }
    value := file[pos'..pos' + len];
    pos' := pos' + len;
    if |file| - pos' < 2 {
      return pos', value, ShortRead;
    }
    pos' := pos' + 2;
    status := Got;
  }

  lemma NextArg(log: seq<byte>, pos: nat, cmd: Command, j: nat, rest: seq<byte>)
    requires j < |cmd| && pos <= |log| && log[pos..] == EncodeArgs(cmd[j..]) + rest
    ensures log[pos..] == EncodeArg(cmd[j]) + (EncodeArgs(cmd[j + 1..]) + rest)
    ensures pos + |EncodeArg(cmd[j])| <= |log|
    ensures log[pos + |EncodeArg(cmd[j])|..] == EncodeArgs(cmd[j + 1..]) + rest
    ensures |EncodeArgs(cmd[j..])| == |EncodeArg(cmd[j])| + |EncodeArgs(cmd[j + 1..])|
  {
    hide EncodeArg;
    assert cmd[j..][1..] == cmd[j + 1..];
    var a := EncodeArg(cmd[j]);
    assert log[pos..] == a + (EncodeArgs(cmd[j + 1..]) + rest);
    assert log[pos + |a|..] == log[pos..][|a|..];
  }

  /** The `argc` arguments of a command. `tracked`: the file is a cut of `log`, where those of `cmd` stand. */
  method ReadArgs(file: seq<byte>, pos: nat, argc: nat, ghost tracked: bool, ghost log: seq<byte>, ghost cmd: Command,
                  ghost rest: seq<byte>)
    returns (pos': nat, argv: Command, status: Status)
    requires pos <= |file| && argc >= 1
    requires tracked ==> file <= log && Sendable(cmd) && argc == |cmd| && log[pos..] == EncodeArgs(cmd) + rest
    ensures status != AtEnd && (status == Got ==> pos < pos' <= |file| && argv != [])
    ensures pos == |file| ==> status == ShortRead
    ensures tracked ==>
              if |file| - pos >= |EncodeArgs(cmd)|
              then status == Got && argv == cmd && pos' == pos + |EncodeArgs(cmd)|
              else status == ShortRead
  {
    hide EncodeArg, EncodeArgs;
    pos', argv := pos, [];
    var j := 0;
    assert cmd[0..] == cmd;
    while j < argc
      invariant 0 <= j <= argc && pos <= pos' <= |file| && |argv| == j
      invariant j > 0 ==> pos' > pos
      invariant tracked ==> argv == cmd[..j] && log[pos'..] == EncodeArgs(cmd[j..]) + rest
      invariant tracked ==> pos' + |EncodeArgs(cmd[j..])| == pos + |EncodeArgs(cmd)|
      decreases argc - j
    {
      ghost var expected := if tracked then cmd[j] else [];
      ghost var after := if tracked then EncodeArgs(cmd[j + 1..]) + rest else [];
      if tracked {
        NextArg(log, pos', cmd, j, rest);
      }
      var arg;
      pos', arg, status := ReadArgument(file, pos', tracked, log, expected, after);
      if status != Got {
        return;
      }
      argv := argv + [arg];
      j := j + 1;
    }
    status := Got;
    NoArgsLeft(cmd);
  }

  lemma NoArgsLeft(cmd: Command)
    ensures EncodeArgs(cmd[|cmd|..]) == [] && cmd[..|cmd|] == cmd
  {
  }

  /** One command of the file. `tracked`: the file is a cut of `log`, where `cmd` stands at `pos`, or nothing. */
  method ReadCommand(file: seq<byte>, pos: nat, ghost tracked: bool, ghost log: seq<byte>, ghost cmd: Command,
                     ghost rest: seq<byte>)
    returns (pos': nat, argv: Command, status: Status)
    requires pos <= |file|
    requires tracked ==> file <= log && Sendable(cmd) && log[pos..] == Encode(cmd) + rest
    ensures status == Got ==> pos < pos' <= |file| && argv != []
    ensures status == AtEnd <==> pos == |file|
    ensures pos < |file| && file[pos] != STAR ==> status == BadFormat
    ensures tracked && pos < |file| ==>
              if |file| - pos >= |Encode(cmd)|
              then status == Got && argv == cmd && pos' == pos + |Encode(cmd)|
              else status == ShortRead
  {
    hide Header, Line, EncodeArg, EncodeArgs, Decimal.Leading;
    pos', argv := pos, [];
    if tracked {
      HeaderLine(file, log, pos, STAR, |cmd|, EncodeArgs(cmd) + rest);
      HeaderNumber(STAR, |cmd|);
    }
    ghost var h := Header(STAR, |cmd|);
    ghost var whole := tracked && |file| - pos >= |h|;
    if whole {
      assert log[pos + |h|..] == log[pos..][|h|..];
    } else if tracked {
      CutNumber(STAR, |cmd|, file[pos..], EncodeArgs(cmd) + rest);
      if |file| - pos >= 2 {
        CutCount(STAR, |cmd|, file[pos..]);
      }
    }
    var line := Line(file, pos);
    pos' := pos + |line|;
    if line == [] {
      return pos', argv, AtEnd;
    }
    if line[0] != STAR {
      return pos', argv, BadFormat;
    }
    if |line| == 1 || line[1] == 0 {
      return pos', argv, ShortRead;
    }
    var argc := Decimal.Leading(line[1..]);
    if argc < 1 {
      return pos', argv, BadFormat;
    }
    pos', argv, status := ReadArgs(file, pos', argc, whole, log, cmd, rest);
  }

  // ----- Whole files -----

  /** What a C string function sees of `arg`: the bytes before the first NUL. */
  function CString(arg: Arg): (s: Arg)
    ensures s <= arg && 0 !in s && (|s| < |arg| ==> arg[|s|] == 0)
  {
    if arg == [] || arg[0] == 0 then [] else [arg[0]] + CString(arg[1..])
  }

  /** strcasecmp with a lower-case name: equal up to the case of letters, as far as the first NUL. */
  predicate Named(arg: Arg, name: seq<byte>) {
    var s := CString(arg);
    |s| == |name| && forall i :: 0 <= i < |s| ==>
      s[i] == name[i] || (65 <= s[i] <= 90 && s[i] as int + 32 == name[i])
  }

  const MULTI: seq<byte> := [109, 117, 108, 116, 105]
  const EXEC: seq<byte> := [101, 120, 101, 99]

  predicate IsMulti(cmd: Command) { cmd != [] && Named(cmd[0], MULTI) }
  predicate IsExec(cmd: Command) { cmd != [] && Named(cmd[0], EXEC) }

  /** Whether a transaction is open after `cmds`. */
  predicate Open(cmds: seq<Command>) {
    cmds != [] &&
    var last := cmds[|cmds| - 1];
    IsMulti(last) || (!IsExec(last) && Open(cmds[..|cmds| - 1]))
  }

  /** What a log feeds: every MULTI is closed by an EXEC before the next one, and no EXEC is alone. */
  predicate Balanced(cmds: seq<Command>) {
    forall i :: 0 <= i < |cmds| ==>
      (IsMulti(cmds[i]) ==> !Open(cmds[..i])) && (IsExec(cmds[i]) ==> Open(cmds[..i]))
  }

  /** `k` is how many of the commands of the log are complete in its first `size` bytes. */
  ghost predicate CompleteIn(cmds: seq<Command>, size: nat, k: nat) {
    k <= |cmds| && |EncodeAll(cmds[..k])| <= size
    && (k < |cmds| ==> size < |EncodeAll(cmds[..k + 1])|)
  }

  lemma NextCommand(cmds: seq<Command>, k: nat)
    requires k < |cmds|
    ensures EncodeAll(cmds[..k + 1]) == EncodeAll(cmds[..k]) + Encode(cmds[k])
    ensures |EncodeAll(cmds[..k])| <= |EncodeAll(cmds)|
    ensures EncodeAll(cmds)[|EncodeAll(cmds[..k])|..] == Encode(cmds[k]) + EncodeAll(cmds[k + 1..])
  {
    hide Encode;
    EncodeAllAppend(cmds[..k], [cmds[k]]);
    EncodeAllOne(cmds[k]);
    assert cmds[..k] + [cmds[k]] == cmds[..k + 1];
    EncodeAllAppend(cmds[..k], cmds[k..]);
    assert cmds[..k] + cmds[k..] == cmds;
    assert cmds[k..][1..] == cmds[k + 1..];
  }

  lemma AllCommands(cmds: seq<Command>)
    ensures EncodeAll(cmds[..|cmds|]) == EncodeAll(cmds) && EncodeAll(cmds[..0]) == []
  {
    assert cmds[..|cmds|] == cmds;
  }

  lemma AllComplete(cmds: seq<Command>, k: nat)
    requires CompleteIn(cmds, |EncodeAll(cmds)|, k)
    ensures k == |cmds| && cmds[..k] == cmds
  {
    hide Encode, EncodeAll;
    if k < |cmds| {
      NextCommand(cmds, k);
    }
  }

  datatype Outcome = Loaded | Empty | Truncated | UnexpectedEof | Damaged | Unknown

  /**
   loadAppendOnlyFile. Dispatches the commands of the file in order. With `allowCut`
   (aof-load-truncated) an unexpected end is accepted and the file is cut at `validUpTo`.
   `known` is the command table. `tracked`: the file is a cut of the log of `cmds`.
   */
  method Load(file: seq<byte>, allowCut: bool, known: Arg -> bool, ghost tracked: bool, ghost cmds: seq<Command>)
    returns (dispatched: seq<Command>, validUpTo: nat, outcome: Outcome)
    requires tracked ==> AllSendable(cmds) && file <= EncodeAll(cmds)
    requires tracked ==> forall i :: 0 <= i < |cmds| && cmds[i] != [] ==> known(cmds[i][0])
    ensures outcome == Empty <==> file == []
    ensures allowCut ==> validUpTo <= |file|
    ensures allowCut && validUpTo < |file| && file[validUpTo] != STAR ==> outcome == Damaged
    ensures file != [] && file[0] != STAR ==> outcome == Damaged && dispatched == []
    ensures forall i :: 0 <= i < |dispatched| ==> dispatched[i] != [] && known(dispatched[i][0])
    ensures tracked ==> CompleteIn(cmds, |file|, |dispatched|) && dispatched == cmds[..|dispatched|]
    ensures tracked && file != [] ==>
              var whole := |file| == |EncodeAll(dispatched)| && !Open(dispatched);
              outcome == if whole then Loaded else if allowCut then Truncated else UnexpectedEof
    ensures tracked && allowCut ==> validUpTo == |EncodeAll(dispatched)|
  {
    hide Encode, EncodeAll, Open, IsMulti, IsExec, Sendable;
    NoneOpen();
    dispatched, validUpTo := [], 0;
    AllCommands(cmds);
    if file == [] {
      if tracked && cmds != [] {
        NextCommand(cmds, 0);
        EncodeNotEmpty(cmds[0]);
      }
      return dispatched, 0, Empty;
    }
    var pos: nat := 0;
    var open := false;
    while true
      invariant pos <= |file| && open == Open(dispatched)
      invariant tracked ==> |dispatched| <= |cmds| && dispatched == cmds[..|dispatched|]
      invariant tracked ==> pos == |EncodeAll(dispatched)|
      invariant allowCut ==> validUpTo == pos
      invariant pos == 0 ==> dispatched == []
      invariant pos > 0 ==> file[0] == STAR
      invariant forall i :: 0 <= i < |dispatched| ==> dispatched[i] != [] && known(dispatched[i][0])
      decreases |file| - pos
    {
      ghost var k := |dispatched|;
      ghost var next := tracked && k < |cmds|;
      if next {
        NextCommand(cmds, k);
        EncodeNotEmpty(cmds[k]);
      }
      var pos', argv, status := ReadCommand(file, pos, next, if next then EncodeAll(cmds) else [],
                                            if next then cmds[k] else [], if next then EncodeAll(cmds[k + 1..]) else []);
      match status {
        case AtEnd =>
          return dispatched, validUpTo, if !open then Loaded else if allowCut then Truncated else UnexpectedEof;
        case ShortRead =>
          return dispatched, validUpTo, if allowCut then Truncated else UnexpectedEof;
        case BadFormat =>
          return dispatched, validUpTo, Damaged;
        case NoMemory =>
          return dispatched, validUpTo, Damaged;
        case Got =>
      }
      if !known(argv[0]) {
        return dispatched, validUpTo, Unknown;
      }
      OpenAppend(dispatched, argv);
      open := IsMulti(argv) || (open && !IsExec(argv));
      dispatched := dispatched + [argv];
      pos := pos';
      if allowCut {
        validUpTo := pos;
      }
    }
  }

  lemma NoneOpen()
    ensures !Open([])
  {
  }

  lemma OpenAppend(cmds: seq<Command>, cmd: Command)
    ensures Open(cmds + [cmd]) <==> IsMulti(cmd) || (!IsExec(cmd) && Open(cmds))
  {
    assert (cmds + [cmd])[..|cmds|] == cmds;
  }

  lemma EncodeNotEmpty(cmd: Command)
    ensures Encode(cmd) != []
  {
  }

  // ----- The checker -----

  /** readLong: a prefix, a number, and at once CR LF. */
  method ReadLong(file: seq<byte>, pos: nat, prefix: byte, ghost tracked: bool, ghost log: seq<byte>, ghost n: nat,
                  ghost rest: seq<byte>)
    returns (pos': nat, target: int, ok: bool)
    requires pos <= |file| && prefix != CR && prefix != LF && prefix != 0
    requires tracked ==> file <= log && log[pos..] == Header(prefix, n) + rest && n < 1_0000_000_000
    ensures ok ==> pos < pos' <= |file| && file[pos] == prefix && pos' - pos >= 3 && file[pos' - 2..pos'] == CRLF
    ensures ok ==> target == Decimal.Leading(file[pos + 1..pos'])
    ensures tracked ==>
              if |file| - pos >= |Header(prefix, n)|
              then ok && target == n && pos' == pos + |Header(prefix, n)|
              else !ok
  {
    hide Header, Line, Decimal.Leading, Decimal.LeadingSize;
    if tracked {
      HeaderLine(file, log, pos, prefix, n, rest);
      HeaderNumber(prefix, n);
      if |file| - pos < |Header(prefix, n)| {
        CutNumber(prefix, n, file[pos..], rest);
        if pos < |file| {
          CutLine(prefix, n, file[pos..]);
        }
      }
    }
    var line := Line(file, pos);
    pos', target := pos + |line|, 0;
    if line == [] || line[0] != prefix {
      return pos', target, false;
    }
    target := Decimal.Leading(line[1..]);
    var end := 1 + Decimal.LeadingSize(line[1..]);
    ok := |line| >= end + 2 && line[end..end + 2] == CRLF;
    if ok {
      assert line[end + 1] == line[end..end + 2][1] == LF;
      assert file[pos' - 2..pos'] == line[end..];
      assert file[pos + 1..pos'] == line[1..];
    }
  }

  /** A cut header line has no CR LF after its digits. */
  lemma CutLine(prefix: byte, n: nat, line: seq<byte>)
    requires line <= Header(prefix, n) && line != [] && |line| < |Header(prefix, n)|
    ensures |line| < 1 + Decimal.LeadingSize(line[1..]) + 2
  {
    var d, k := Decimal.Digits(n), |line| - 1;
    Decimal.DigitsCanonical(n);
    assert line[1..] == (d + CRLF)[..k];
    if k <= |d| {
      assert line[1..] == d[..k] && d[..k] + [] == d[..k];
      Decimal.LeadingDigitsExact(d[..k], []);
    } else {
      assert line[1..] == d + CRLF[..k - |d|];
      Decimal.LeadingDigitsExact(d, CRLF[..k - |d|]);
    }
    if k >= 1 {
      assert line[1] == d[0] && Decimal.IsDigit(d[0]);
    }
  }

  /** readString: a length line, then that many bytes and CR LF. */
  method ReadString(file: seq<byte>, pos: nat, ghost tracked: bool, ghost log: seq<byte>, ghost arg: Arg,
                    ghost rest: seq<byte>)
    returns (pos': nat, str: Arg, ok: bool)
    requires pos <= |file|
    requires tracked ==> file <= log && log[pos..] == EncodeArg(arg) + rest && |arg| <= MAX_BULK
    ensures ok ==> pos + |str| + 2 <= pos' <= |file|
    ensures ok ==> file[pos' - 2..pos'] == CRLF && str == file[pos' - 2 - |str|..pos' - 2]
    ensures tracked ==>
              if |file| - pos >= |EncodeArg(arg)|
              then ok && str == arg && pos' == pos + |EncodeArg(arg)|
              else !ok
  {
    hide Header, Decimal.Leading;
    ghost var h := Header(DOLLAR, |arg|);
    ghost var body := arg + CRLF;
    if tracked {
      assert log[pos..] == h + (body + rest);
    }
    var len;
    str := [];
    pos', len, ok := ReadLong(file, pos, DOLLAR, tracked, log, |arg|, body + rest);
    if !ok {
      return;
    }
    len := len + 2;
    if len < 2 || |file| - pos' < len {
      return pos', str, false;
    }
    if tracked {
      CutSlice(file, log, pos, h, body + rest);
      CutSlice(file, log, pos', body, rest);
    }
    var bytes := file[pos'..pos' + len];
    pos' := pos' + len;
    ok := bytes[len - 2..] == CRLF;
    str := bytes[..len - 2];
  }

  /** The number of commands in the longest part of the first `k` that leaves no transaction open. */
  function LastClosed(cmds: seq<Command>, k: nat): (m: nat)
    requires k <= |cmds|
    ensures m <= k && !Open(cmds[..m])
    ensures forall i :: m < i <= k ==> Open(cmds[..i])
  {
    if Open(cmds[..k]) then LastClosed(cmds, k - 1) else k
  }

  /** How one command moves the transaction counter of the checker; None is a misplaced MULTI or EXEC. */
  method CountMulti(cmd: Command, multi: int) returns (multi': int, ok: bool)
    requires cmd != []
    ensures multi' == if IsMulti(cmd) then multi + 1 else if IsExec(cmd) then multi - 1 else multi
    ensures ok <==> (IsMulti(cmd) ==> multi == 0) && (IsExec(cmd) ==> multi == 1)
  {
    multi', ok := multi, true;
    if Named(cmd[0], MULTI) {
      multi' := multi + 1;
      ok := multi == 0;
    } else if Named(cmd[0], EXEC) {
      multi' := multi - 1;
      ok := multi' == 0;
    }
  }

  /** The arguments of one command, counting transactions at its name. */
  method CheckArgs(file: seq<byte>, pos: nat, argc: int, multi: int, ghost tracked: bool, ghost log: seq<byte>,
                   ghost cmd: Command, ghost rest: seq<byte>)
    returns (pos': nat, multi': int, complete: bool)
    requires pos <= |file|
    requires tracked ==> file <= log && Sendable(cmd) && argc == |cmd| && log[pos..] == EncodeArgs(cmd) + rest
    requires tracked ==> (IsMulti(cmd) ==> multi == 0) && (IsExec(cmd) ==> multi == 1)
    ensures complete ==> pos <= pos' <= |file|
    ensures tracked ==> (complete <==> |file| - pos >= |EncodeArgs(cmd)|)
    ensures tracked && complete ==> pos' == pos + |EncodeArgs(cmd)|
    ensures tracked && complete ==>
              multi' == if IsMulti(cmd) then multi + 1 else if IsExec(cmd) then multi - 1 else multi
  {
    hide EncodeArg, EncodeArgs;
    pos', multi', complete := pos, multi, false;
    var i := 0;
    assert cmd[0..] == cmd;
    while i < argc
      invariant 0 <= i && (i <= argc || i == 0) && pos <= pos' <= |file|
      invariant tracked ==> log[pos'..] == EncodeArgs(cmd[i..]) + rest
      invariant tracked ==> pos' + |EncodeArgs(cmd[i..])| == pos + |EncodeArgs(cmd)|
      invariant tracked ==>
        multi' == if i > 0 && IsMulti(cmd) then multi + 1 else if i > 0 && IsExec(cmd) then multi - 1 else multi
      decreases argc - i
    {
      ghost var expected := if tracked then cmd[i] else [];
      ghost var after := if tracked then EncodeArgs(cmd[i + 1..]) + rest else [];
      if tracked {
        NextArg(log, pos', cmd, i, rest);
      }
      var str, ok;
      pos', str, ok := ReadString(file, pos', tracked, log, expected, after);
      if !ok {
        return;
      }
      if i == 0 {
        multi', ok := CountMulti([str], multi');
        if !ok {
          return;
        }
      }
      i := i + 1;
    }
    complete := true;
    NoArgsLeft(cmd);
  }

  /**
   process of redis-check-aof: the offset up to which the file is sound. `tracked`: the file is a cut of
   the log of `cmds`, where transactions are balanced, and `k` of its commands are complete.
   */
  method Process(file: seq<byte>, ghost tracked: bool, ghost cmds: seq<Command>) returns (pos: nat, ghost k: nat)
    requires tracked ==> AllSendable(cmds) && Balanced(cmds) && file <= EncodeAll(cmds)
    ensures pos <= |file|
    ensures tracked ==> CompleteIn(cmds, |file|, k) && pos == |EncodeAll(cmds[..LastClosed(cmds, k)])|
  {
    hide Encode, EncodeAll, EncodeArgs, Header, Sendable, LastClosed, IsMulti, IsExec;
    AllCommands(cmds);
    NoneClosed(cmds);
    var at: nat, multi := 0, 0;
    pos, k := 0, 0;
    while true
      invariant pos <= at <= |file|
      invariant tracked ==> k <= |cmds| && at == |EncodeAll(cmds[..k])|
      invariant tracked ==> multi == if Open(cmds[..k]) then 1 else 0
      invariant tracked && Open(cmds[..k]) ==> pos == |EncodeAll(cmds[..LastClosed(cmds, k)])|
      decreases |file| - at
    {
      if multi == 0 {
        pos := at;
        if tracked {
          ClosedHere(cmds, k);
        }
      }
      ghost var next := tracked && k < |cmds|;
      ghost var log := if next then EncodeAll(cmds) else [];
      ghost var cmd := if next then cmds[k] else [];
      ghost var rest := if next then EncodeAll(cmds[k + 1..]) else [];
      if next {
        NextCommand(cmds, k);
        StartOfCommand(file, log, at, cmd, rest);
        assert cmds[..k + 1][..k] == cmds[..k];
        OpenNext(cmds, k);
        SendableCount(cmd);
      }
      var argc, ok;
      var start := at;
      at, argc, ok := ReadLong(file, at, STAR, next, log, |cmd|, EncodeArgs(cmd) + rest);
      if !ok {
        return;
      }
      at, multi, ok := CheckArgs(file, at, argc, multi, next, log, cmd, rest);
      if !ok {
        return;
      }
      k := k + 1;
    }
  }

  lemma SendableCount(cmd: Command)
    requires Sendable(cmd)
    ensures |cmd| < 1_0000_000_000
  {
  }

  lemma NoneClosed(cmds: seq<Command>)
    ensures LastClosed(cmds, 0) == 0 && !Open(cmds[..0])
  {
  }

  lemma ClosedHere(cmds: seq<Command>, k: nat)
    requires k <= |cmds| && !Open(cmds[..k])
    ensures LastClosed(cmds, k) == k
  {
  }

  /** While a transaction is open the last closed position stays. */
  lemma OpenNext(cmds: seq<Command>, k: nat)
    requires k < |cmds|
    ensures Open(cmds[..k + 1]) <==> IsMulti(cmds[k]) || (!IsExec(cmds[k]) && Open(cmds[..k]))
    ensures Open(cmds[..k + 1]) ==> LastClosed(cmds, k + 1) == LastClosed(cmds, k)
  {
    assert cmds[..k + 1][..k] == cmds[..k];
  }

  lemma StartOfCommand(file: seq<byte>, log: seq<byte>, pos: nat, cmd: Command, rest: seq<byte>)
    requires file <= log && pos <= |log| && log[pos..] == Encode(cmd) + rest
    ensures log[pos..] == Header(STAR, |cmd|) + (EncodeArgs(cmd) + rest)
    ensures |Encode(cmd)| == |Header(STAR, |cmd|)| + |EncodeArgs(cmd)|
    ensures pos + |Header(STAR, |cmd|)| <= |log|
    ensures log[pos + |Header(STAR, |cmd|)|..] == EncodeArgs(cmd) + rest
  {
    hide Header, EncodeArgs;
    CutSlice(file, log, pos, Header(STAR, |cmd|), EncodeArgs(cmd) + rest);
  }
}
