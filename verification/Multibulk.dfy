/**
 The resumable parser of multi bulk requests (networking.c): a client's buffer grows by whatever
 a read returns, and parsing stops and resumes anywhere in the stream.
 */
module Multibulk {
  import opened Bytes
  import opened Resp
  import Decimal
  import opened Wrappers

  const REDIS_INLINE_MAX_SIZE := 64 * 1024
  const REDIS_MBULK_BIG_ARG := 32 * 1024
  const REDIS_IOBUF_LEN := 16 * 1024

  /** strchr from position `from`: the search ends at a NUL byte, and -1 stands for not found. */
  function StrChr(s: seq<byte>, from: nat, c: byte): (at: int)
    requires from <= |s|
    ensures at == -1 || (from <= at < |s| && s[at] == c)
    decreases |s| - from
  {
    if from == |s| then -1
    else if s[from] == c then from
    else if s[from] == 0 then -1
    else StrChr(s, from + 1, c)
  }

  lemma {:induction false} StrChrFinds(s: seq<byte>, from: nat, c: byte, at: nat)
    requires from <= at <= |s|
    requires forall k :: from <= k < at ==> s[k] != c && s[k] != 0
    requires at == |s| || s[at] == c
    ensures StrChr(s, from, c) == if at == |s| then -1 else at
    decreases at - from
  {
    if from < at {
      StrChrFinds(s, from + 1, c, at);
    }
  }

  /** What has arrived of a stream that starts with `h`. */
  lemma Arrived(q: seq<byte>, pos: nat, future: seq<byte>, h: seq<byte>, rest: seq<byte>)
    requires pos <= |q| && q[pos..] + future == h + rest
    ensures forall k :: pos <= k < |q| && k < pos + |h| ==> q[k] == h[k - pos]
    ensures |q| - pos >= |h| ==> q[pos + |h|..] + future == rest
    ensures |q| - pos < |h| ==> future != []
  {
    var tail, whole := q[pos..], h + rest;
    assert forall k :: 0 <= k < |tail| ==> tail[k] == whole[k];
    if |tail| >= |h| {
      assert q[pos + |h|..] + future == (tail + future)[|h|..] == whole[|h|..];
    } else {
      assert |tail| + |future| == |whole|;
    }
  }

  lemma SameSlice(q: seq<byte>, pos: nat, h: seq<byte>, n: nat)
    requires 1 <= n <= |h| && pos + n <= |q| && forall k :: pos <= k < pos + n ==> q[k] == h[k - pos]
    ensures q[pos + 1..pos + n] == h[1..n]
  {
  }

  /**
   Looking for the end of a header line in the part of it that has arrived: it is found exactly when
   the CR is there, and what is in front of it is the printed number.
   */
  lemma HeaderScan(q: seq<byte>, pos: nat, future: seq<byte>, prefix: byte, n: nat, rest: seq<byte>)
    requires pos <= |q| && q[pos..] + future == Header(prefix, n) + rest
    requires prefix != CR && prefix != LF && prefix != 0 && n < 1_0000_000_000
    ensures var len := |Header(prefix, n)|;
            var at := StrChr(q, pos, CR);
            && len <= 13
            && at == (if |q| - pos >= len - 1 then pos + len - 2 else -1)
            && (at != -1 ==> q[pos] == prefix && q[pos + 1..at] == Decimal.Print(n))
            && (|q| - pos >= len ==> q[pos + len..] + future == rest)
            && (|q| - pos < len ==> future != [])
  {
    hide Header;
    HeaderShape(prefix, n);
    var h := Header(prefix, n);
    Arrived(q, pos, future, h, rest);
    var at := if |q| - pos >= |h| - 1 then pos + |h| - 2 else |q|;
    StrChrFinds(q, pos, CR, at);
    if at < |q| {
      SameSlice(q, pos, h, |h| - 2);
    }
  }

  lemma ArgsFrom(cmd: Command, i: nat, tail: seq<byte>)
    requires i < |cmd|
    ensures EncodeArgs(cmd[i..]) + tail
         == Header(DOLLAR, |cmd[i]|) + (cmd[i] + CRLF + (EncodeArgs(cmd[i + 1..]) + tail))
  {
    hide Header;
    assert cmd[i..][1..] == cmd[i + 1..];
    assert EncodeArgs(cmd[i..]) == EncodeArg(cmd[i]) + EncodeArgs(cmd[i + 1..]);
  }

  lemma CountFrom(cmds: seq<Command>)
    requires cmds != []
    ensures EncodeAll(cmds) == Header(STAR, |cmds[0]|) + (EncodeArgs(cmds[0]) + EncodeAll(cmds[1..]))
  {
    hide Header;
  }

  /** An argument and its CR LF at position `pos`: either both have arrived, or more is to come. */
  lemma ArgumentHere(q: seq<byte>, pos: nat, future: seq<byte>, arg: Arg, rest: seq<byte>)
    requires pos <= |q| && q[pos..] + future == arg + CRLF + rest
    ensures |q| - pos < |arg| + 2 ==> future != []
    ensures |q| - pos >= |arg| + 2 ==>
              q[pos..pos + |arg|] == arg && q[pos + |arg| + 2..] + future == rest
  {
    var tail, stream := q[pos..], q[pos..] + future;
    if |tail| >= |arg| + 2 {
      assert q[pos..pos + |arg|] == tail[..|arg|] == stream[..|arg|];
      assert q[pos + |arg| + 2..] + future == stream[|arg| + 2..];
      assert (arg + CRLF + rest)[|arg| + 2..] == rest;
    } else {
      assert |stream| == |arg| + 2 + |rest|;
    }
  }

  /** A whole line has arrived: a CR was found at `at`, and another byte is behind it. */
  predicate LineThere(q: seq<byte>, at: int) { 0 <= at && at + 2 <= |q| }

  /** The text of the line, behind its first byte, is a number from `least` to `most` in its printed form. */
  ghost predicate NumberThere(text: seq<byte>, v: int, least: int, most: int) {
    least <= v <= most && text == Decimal.Print(v)
  }

  ghost predicate IsNumber(text: seq<byte>, least: int, most: int) {
    exists v :: NumberThere(text, v, least, most)
  }

  lemma NumberParsed(text: seq<byte>, least: int, most: int)
    requires Decimal.LLONG_MIN <= least && most <= Decimal.LLONG_MAX
    ensures var number := Decimal.Parse(text);
            && (number.Some? && least <= number.value <= most ==> NumberThere(text, number.value, least, most))
            && (IsNumber(text, least, most) <==> number.Some? && least <= number.value <= most)
  {
    hide Decimal.Parse, Decimal.Print;
    if IsNumber(text, least, most) {
      var v :| NumberThere(text, v, least, most);
      Decimal.ParseIffPrinted(text, v);
    }
    if Decimal.Parse(text).Some? {
      Decimal.ParseIffPrinted(text, Decimal.Parse(text).value);
    }
  }

  lemma ParsedInRange(text: seq<byte>)
    ensures Decimal.Parse(text).Some? ==> Decimal.LLONG_MIN <= Decimal.Parse(text).value
  {
  }

  /** A length that may still be unknown, which is -1. */
  type Length = i: int | i >= -1 witness -1

  datatype ReqType = Unknown | Inline | MultiBulk

  datatype Status = Continue | Stop | Fail

  class Client {
    var querybuf: seq<byte>
    var reqtype: ReqType
    var multibulklen: nat
    var bulklen: Length
    var argv: seq<Arg>
    var closing: bool           // REDIS_CLOSE_AFTER_REPLY
    var executed: seq<Command>  // what processCommand was called with
    ghost var todo: seq<Command>
    ghost var future: seq<byte>

    constructor (ghost cmds: seq<Command>)
      requires AllSendable(cmds)
      ensures Tracks() && Small() && executed == [] && todo == cmds && future == EncodeAll(cmds)
    {
      querybuf, reqtype, multibulklen, bulklen, argv := [], Unknown, 0, -1, [];
      closing, executed := false, [];
      todo, future := cmds, EncodeAll(cmds);
    }

    /** Between two commands: the bytes here and those to come are the commands still to do. */
    ghost predicate Idle()
      reads this
    {
      AllSendable(todo) && multibulklen == 0 && argv == [] && bulklen == -1
      && querybuf + future == EncodeAll(todo)
    }

    /** What must follow the part of the current command that has been consumed. */
    ghost function Owed(): seq<byte>
      requires todo != [] && |argv| <= |todo[0]| && (bulklen != -1 ==> |argv| < |todo[0]|)
      reads this
    {
      if bulklen == -1 then
        EncodeArgs(todo[0][|argv|..]) + EncodeAll(todo[1..])
      else
        todo[0][|argv|] + CRLF + (EncodeArgs(todo[0][|argv| + 1..]) + EncodeAll(todo[1..]))
    }

    /** Inside the command `todo[0]`, with the buffer consumed up to `pos`. */
    ghost predicate InCommand(pos: nat)
      reads this
    {
      && todo != [] && AllSendable(todo)
      && |argv| + multibulklen == |todo[0]| && argv == todo[0][..|argv|]
      && (bulklen == -1 || (multibulklen > 0 && bulklen == |todo[0][|argv|]|))
      && pos <= |querybuf| && querybuf[pos..] + future == Owed()
    }

    ghost predicate Tracks()
      reads this
    {
      && !closing && reqtype != Inline
      && if multibulklen == 0 then Idle() else reqtype == MultiBulk && InCommand(0)
    }

    /** What a call may find in the buffer: little, or no more than one big argument that it waits for. */
    ghost predicate Room(pos: nat)
      reads this
    {
      |querybuf| <= REDIS_INLINE_MAX_SIZE
      || (pos == 0 && multibulklen > 0 && bulklen >= REDIS_MBULK_BIG_ARG && |querybuf| <= bulklen + 2)
    }

    /** What a call leaves in the buffer. */
    ghost predicate Small()
      reads this
    {
      |querybuf| <= REDIS_MBULK_BIG_ARG + 1
      || (multibulklen > 0 && bulklen >= REDIS_MBULK_BIG_ARG && |querybuf| < bulklen + 2)
    }

    /** setProtocolError: the connection is closed after the error reply. */
    method SetProtocolError(pos: nat)
      requires pos <= |querybuf|
      modifies this`closing, this`querybuf
      ensures closing && querybuf == old(querybuf)[pos..]
    {
      closing := true;
      querybuf := querybuf[pos..];
    }

    /** The stream from the next count line on: that line, the arguments, and the other commands. */
    lemma NextCount()
      requires Idle() && querybuf != []
      ensures todo != []
      ensures var rest := EncodeArgs(todo[0]) + EncodeAll(todo[1..]);
              var len := |Header(STAR, |todo[0]|)|;
              var at := StrChr(querybuf, 0, CR);
              && len <= 13 && 1 <= |todo[0]| <= MAX_ARGS
              && at == (if |querybuf| >= len - 1 then len - 2 else -1)
              && (at != -1 ==> Decimal.Parse(querybuf[1..at]) == Some(|todo[0]|))
              && (|querybuf| >= len ==> querybuf[len..] + future == rest)
              && (|querybuf| < len ==> future != [])
    {
      hide Header, StrChr, Decimal.Parse, EncodeArgs;
      assert EncodeAll([]) == [];
      assert Sendable(todo[0]);
      CountFrom(todo);
      assert querybuf[0..] == querybuf;
      HeaderScan(querybuf, 0, future, STAR, |todo[0]|, EncodeArgs(todo[0]) + EncodeAll(todo[1..]));
      Decimal.ParsePrinted(|todo[0]|);
    }

    /** Reads the argument count line: its value, and where the arguments start. */
    method ScanCount(ghost tracked: bool) returns (start: nat, ll: int, status: Status)
      requires multibulklen == 0 && argv == [] && bulklen == -1
      requires querybuf != [] && querybuf[0] == STAR
      requires tracked ==> Idle() && Room(0)
      modifies this`querybuf, this`closing
      ensures status != Stop
      ensures tracked || status != Fail ==> querybuf == old(querybuf) && closing == old(closing)
      ensures status == Continue ==> start <= |querybuf| && ll <= MAX_ARGS
      ensures var q, at := old(querybuf), StrChr(old(querybuf), 0, CR);
              && (status == Continue ==>
                   LineThere(q, at) && start == at + 2 && NumberThere(q[1..at], ll, Decimal.LLONG_MIN, MAX_ARGS))
              && (LineThere(q, at) && IsNumber(q[1..at], Decimal.LLONG_MIN, MAX_ARGS) ==> status == Continue)
              && (status == Fail ==>
                   closing == (old(closing) || LineThere(q, at) || (at == -1 && |q| > REDIS_INLINE_MAX_SIZE)))
      ensures tracked && status != Continue ==> |querybuf| <= 13 && future != []
      ensures tracked && status == Continue ==>
                todo != [] && ll == |todo[0]| && ll >= 1
                && querybuf[start..] + future == EncodeArgs(todo[0]) + EncodeAll(todo[1..])
    {
      hide Header, StrChr, Decimal.Parse, EncodeArgs, EncodeAll, AllSendable, NumberThere, IsNumber;
      start, ll, status := 0, 0, Fail;
      if tracked {
        NextCount();
      }
      var newline := StrChr(querybuf, 0, CR);
      if newline == -1 {
        if |querybuf| > REDIS_INLINE_MAX_SIZE {
          SetProtocolError(0);
        }
        return;
      }
      if newline > |querybuf| - 2 {
        return;
      }
      NumberParsed(querybuf[1..newline], Decimal.LLONG_MIN, MAX_ARGS);
      ParsedInRange(querybuf[1..newline]);
      var number := Decimal.Parse(querybuf[1..newline]);
      if number.None? || number.value > MAX_ARGS {
        SetProtocolError(0);
        return;
      }
      return newline + 2, number.value, Continue;
    }

    /** The argument count line. `tracked` says that the stream is a sequence of sendable commands. */
    method ReadCount(ghost tracked: bool) returns (pos: nat, status: Status)
      requires multibulklen == 0 && argv == [] && bulklen == -1
      requires querybuf != [] && querybuf[0] == STAR
      requires tracked ==> Idle() && Room(0)
      modifies this`querybuf, this`multibulklen, this`closing
      ensures status != Continue ==> multibulklen == 0
      ensures status != Fail ==> closing == old(closing)
      ensures status == Continue ==> multibulklen > 0 && querybuf == old(querybuf) && pos <= |querybuf|
      ensures tracked ==> closing == old(closing)
      ensures tracked && status == Continue ==> InCommand(pos)
      ensures tracked && status != Continue ==> status == Fail && Idle() && |querybuf| <= 13 && future != []
    {
      hide EncodeArgs, EncodeAll, AllSendable, StrChr, LineThere, NumberThere, IsNumber;
      var ll;
      pos, ll, status := ScanCount(tracked);
      if status == Continue {
        if ll <= 0 {
          querybuf := querybuf[pos..];
          return pos, Stop;
        }
        multibulklen := ll;
        assert tracked ==> todo[0][0..] == todo[0] && todo[0][..0] == [];
      }
    }

    /** The stream from the next length line on: that line, the argument, and the rest. */
    lemma NextLength(pos: nat)
      requires multibulklen > 0 && bulklen == -1 && InCommand(pos)
      ensures var arg := todo[0][|argv|];
              var rest := EncodeArgs(todo[0][|argv| + 1..]) + EncodeAll(todo[1..]);
              var len := |Header(DOLLAR, |arg|)|;
              var at := StrChr(querybuf, pos, CR);
              && len <= 13 && |arg| <= MAX_BULK
              && at == (if |querybuf| - pos >= len - 1 then pos + len - 2 else -1)
              && (at != -1 ==> querybuf[pos] == DOLLAR
                               && Decimal.Parse(querybuf[pos + 1..at]) == Some(|arg|))
              && (|querybuf| - pos >= len ==> querybuf[pos + len..] + future == arg + CRLF + rest)
              && (|querybuf| - pos < len ==> future != [])
    {
      hide Header, StrChr, Decimal.Parse, EncodeArgs, EncodeAll;
      var arg := todo[0][|argv|];
      var rest := EncodeArgs(todo[0][|argv| + 1..]) + EncodeAll(todo[1..]);
      ArgsFrom(todo[0], |argv|, EncodeAll(todo[1..]));
      assert Sendable(todo[0]);
      HeaderScan(querybuf, pos, future, DOLLAR, |arg|, arg + CRLF + rest);
      Decimal.ParsePrinted(|arg|);
    }

    /** Reads the length line at `pos`: its value, and where the argument starts. */
    method ScanLength(pos: nat, ghost tracked: bool) returns (start: nat, ll: nat, status: Status)
      requires multibulklen > 0 && bulklen == -1 && pos <= |querybuf|
      requires tracked ==> InCommand(pos) && Room(pos)
      modifies this`querybuf, this`closing
      ensures status != Fail ==> querybuf == old(querybuf) && closing == old(closing)
      ensures status == Continue ==> pos < start <= |querybuf| && ll <= MAX_BULK
      ensures var q, at := old(querybuf), StrChr(old(querybuf), pos, CR);
              && (status == Continue ==>
                   LineThere(q, at) && start == at + 2 && q[pos] == DOLLAR
                   && NumberThere(q[pos + 1..at], ll, 0, MAX_BULK))
              && (LineThere(q, at) && q[pos] == DOLLAR && IsNumber(q[pos + 1..at], 0, MAX_BULK) ==> status == Continue)
              && (status == Stop <==> !LineThere(q, at) && (at == -1 ==> |q| <= REDIS_INLINE_MAX_SIZE))
              && (status == Fail ==> closing)
      ensures tracked ==> status != Fail
      ensures tracked && status == Stop ==> |querybuf| - pos <= 13 && future != []
      ensures tracked && status == Continue ==>
                ll == |todo[0][|argv|]|
                && querybuf[start..] + future
                   == todo[0][|argv|] + CRLF + (EncodeArgs(todo[0][|argv| + 1..]) + EncodeAll(todo[1..]))
    {
      hide Header, StrChr, Decimal.Parse, EncodeArgs, EncodeAll, AllSendable, NumberThere, IsNumber;
      start, ll, status := pos, 0, Fail;
      if tracked {
        NextLength(pos);
      }
      var newline := StrChr(querybuf, pos, CR);
      if newline == -1 {
        if |querybuf| > REDIS_INLINE_MAX_SIZE {
          SetProtocolError(0);
          return;
        }
        return pos, 0, Stop;
      }
      if newline > |querybuf| - 2 {
        return pos, 0, Stop;
      }
      if querybuf[pos] != DOLLAR {
        SetProtocolError(pos);
        return;
      }
      NumberParsed(querybuf[pos + 1..newline], 0, MAX_BULK);
      var number := Decimal.Parse(querybuf[pos + 1..newline]);
      if number.None? || number.value < 0 || number.value > MAX_BULK {
        SetProtocolError(pos);
        return;
      }
      return newline + 2, number.value, Continue;
    }

    /** The length line of the next argument; a big argument is moved to the front of the buffer. */
    method ReadBulkLength(pos: nat, ghost tracked: bool) returns (pos': nat, status: Status)
      requires multibulklen > 0 && bulklen == -1 && pos <= |querybuf|
      requires tracked ==> InCommand(pos) && Room(pos)
      modifies this`querybuf, this`bulklen, this`closing
      ensures status != Fail ==> pos' <= |querybuf|
      ensures (status == Continue ==> bulklen >= 0)
      ensures status == Stop ==> bulklen == -1 && querybuf == old(querybuf) && pos' == pos
      ensures tracked ==> closing == old(closing) && status != Fail && InCommand(pos') && Room(pos')
      ensures tracked && status == Stop ==> |querybuf| - pos' <= 13 && future != []
    {
      hide EncodeArgs, EncodeAll, AllSendable, StrChr, LineThere, NumberThere, IsNumber;
      var start, ll;
      start, ll, status := ScanLength(pos, tracked);
      if status != Continue {
        return pos, status;
      }
      pos' := start;
      if ll >= REDIS_MBULK_BIG_ARG {
        querybuf := querybuf[pos'..];
        pos' := 0;
        assert querybuf[0..] == querybuf;
      }
      bulklen := ll;
    }

    /** The bytes of the next argument, once they are all here; `enough` is false when they are not. */
    method ReadBulk(pos: nat, ghost tracked: bool) returns (pos': nat, enough: bool)
      requires multibulklen > 0 && bulklen >= 0 && pos <= |querybuf|
      requires tracked ==> InCommand(pos) && Room(pos)
      modifies this`querybuf, this`bulklen, this`multibulklen, this`argv
      ensures pos' <= |querybuf|
      ensures if enough then bulklen == -1 && multibulklen == old(multibulklen) - 1
              else querybuf == old(querybuf) && bulklen == old(bulklen) && multibulklen == old(multibulklen)
                   && argv == old(argv) && pos' == pos
      ensures tracked ==> InCommand(pos') && Room(pos')
      ensures tracked && enough ==> |querybuf| <= REDIS_INLINE_MAX_SIZE
      ensures tracked && !enough ==> |querybuf| - pos < bulklen + 2 && future != []
    {
      hide EncodeArgs, EncodeAll, AllSendable;
      if tracked {
        ArgumentHere(querybuf, pos, future, todo[0][|argv|], EncodeArgs(todo[0][|argv| + 1..]) + EncodeAll(todo[1..]));
        assert todo[0][..|argv|] + [todo[0][|argv|]] == todo[0][..|argv| + 1];
      }
      if |querybuf| - pos < bulklen + 2 {
        return pos, false;
      }
      if pos == 0 && bulklen >= REDIS_MBULK_BIG_ARG && |querybuf| == bulklen + 2 {
        argv := argv + [querybuf[..|querybuf| - 2]];
        querybuf := [];
        pos' := 0;
      } else {
        argv := argv + [querybuf[pos..pos + bulklen]];
        pos' := pos + bulklen + 2;
      }
      bulklen := -1;
      multibulklen := multibulklen - 1;
      enough := true;
    }

    /** Reads arguments until the command is complete or the buffer runs out. */
    method ReadArgs(pos: nat, ghost tracked: bool) returns (pos': nat, failed: bool)
      requires multibulklen > 0 && pos <= |querybuf| && !closing
      requires tracked ==> InCommand(pos) && Room(pos)
      modifies this`querybuf, this`bulklen, this`multibulklen, this`argv, this`closing
      ensures (!failed ==> pos' <= |querybuf|)
      ensures tracked ==> !failed && !closing && InCommand(pos')
      ensures tracked && multibulklen == 0 ==> |querybuf| <= REDIS_INLINE_MAX_SIZE
      ensures tracked && multibulklen > 0 ==> |querybuf| - pos' <= 13 + (if bulklen == -1 then 0 else bulklen + 1)
      ensures tracked && multibulklen > 0 && bulklen >= 0 ==> |querybuf| - pos' < bulklen + 2
      ensures tracked && multibulklen > 0 ==> future != []
    {
      hide InCommand, Room;
      pos', failed := pos, false;
      while multibulklen > 0
        invariant pos' <= |querybuf|
        invariant tracked ==> InCommand(pos') && Room(pos') && !closing
        invariant tracked && multibulklen == 0 ==> |querybuf| <= REDIS_INLINE_MAX_SIZE
        decreases multibulklen
      {
        if bulklen == -1 {
          var status;
          pos', status := ReadBulkLength(pos', tracked);
          if status == Fail {
            return pos', true;
          }
          if status == Stop {
            break;
          }
        }
        var enough;
        pos', enough := ReadBulk(pos', tracked);
        if !enough {
          break;
        }
      }
    }

    method Trim(pos: nat, ghost tracked: bool)
      requires pos <= |querybuf| && (tracked ==> InCommand(pos))
      modifies this`querybuf
      ensures querybuf == old(querybuf)[pos..]
      ensures tracked ==> InCommand(0)
    {
      hide EncodeArgs, EncodeAll, AllSendable;
      querybuf := querybuf[pos..];
      assert querybuf[0..] == querybuf;
    }

    /**
     processMultibulkBuffer: true when `argv` holds a complete command. On a tracked stream no
     protocol error can occur, and what stays in the buffer is bounded.
     */
    method ProcessMultibulk(ghost tracked: bool) returns (ok: bool)
      requires reqtype == MultiBulk && !closing
      requires multibulklen == 0 ==> argv == [] && bulklen == -1 && querybuf != [] && querybuf[0] == STAR
      requires tracked ==> Tracks() && Room(0)
      modifies this`querybuf, this`bulklen, this`multibulklen, this`argv, this`closing
      ensures tracked && ok ==> multibulklen == 0 && InCommand(0) && !closing && |querybuf| <= REDIS_INLINE_MAX_SIZE
      ensures tracked && !ok ==> Tracks() && Small() && future != []
    {
      hide InCommand, Idle;
      var pos: nat := 0;
      if multibulklen == 0 {
        var status;
        pos, status := ReadCount(tracked);
        match status {
          case Fail => return false;
          case Stop => return true;
          case Continue =>
        }
      }
      var failed;
      pos, failed := ReadArgs(pos, tracked);
      if failed {
        return false;
      }
      Trim(pos, tracked);
      return multibulklen == 0;
    }

    /** resetClient. */
    method ResetClient()
      modifies this`argv, this`reqtype, this`multibulklen, this`bulklen
      ensures argv == [] && reqtype == Unknown && multibulklen == 0 && bulklen == -1
    {
      argv, reqtype, multibulklen, bulklen := [], Unknown, 0, -1;
    }

    lemma StartsWithStar()
      requires Idle() && querybuf != []
      ensures querybuf[0] == STAR
    {
      hide EncodeArgs;
      assert querybuf[0] == (querybuf + future)[0];
    }

    /** When the last argument has been read, `argv` is the command, and the others are still owed. */
    lemma CommandComplete()
      requires multibulklen == 0 && InCommand(0)
      ensures argv == todo[0] && argv != [] && todo == [todo[0]] + todo[1..]
      ensures AllSendable(todo[1..]) && querybuf + future == EncodeAll(todo[1..])
      ensures querybuf == [] && future == [] ==> todo[1..] == []
    {
      assert Sendable(todo[0]);
      assert querybuf[0..] == querybuf;
      assert todo[0][|argv|..] == [] && EncodeArgs([]) == [];
      assert EncodeArgs([]) + EncodeAll(todo[1..]) == EncodeAll(todo[1..]);
    }

    /**
     The loop of processInputBuffer, for a client that speaks the multi bulk protocol: every complete
     command in the buffer is executed, in order.
     */
    method ProcessInput()
      requires Tracks() && Room(0)
      requires querybuf == [] && future == [] ==> todo == []
      modifies this
      ensures Tracks() && Small()
      ensures executed + todo == old(executed) + old(todo) && future == old(future)
      ensures future == [] ==> todo == [] && querybuf == []
    {
      hide EncodeArgs, EncodeAll, AllSendable, InCommand;
      while querybuf != []
        invariant Tracks() && Room(0)
        invariant executed + todo == old(executed) + old(todo) && future == old(future)
        invariant querybuf == [] ==> Small()
        invariant querybuf == [] && future == [] ==> todo == []
        decreases |todo|
      {
        if multibulklen == 0 {
          StartsWithStar();
        }
        if reqtype == Unknown {
          reqtype := if querybuf[0] == STAR then MultiBulk else Inline;
        }
        assert reqtype == MultiBulk;
        var ok := ProcessMultibulk(true);
        if !ok {
          return;
        }
        CommandComplete();
        if argv != [] {
          executed := executed + [argv];
        }
        todo := todo[1..];
        ResetClient();
      }
    }

    /** How much readQueryFromClient asks for: no more than what a big argument still lacks. */
    function ReadLength(): int
      reads this
    {
      if reqtype == MultiBulk && multibulklen > 0 && bulklen >= REDIS_MBULK_BIG_ARG then
        var remaining := bulklen + 2 - |querybuf|;
        if remaining < REDIS_IOBUF_LEN then remaining else REDIS_IOBUF_LEN
      else
        REDIS_IOBUF_LEN
    }

    lemma ReadLengthPositive()
      requires Small()
      ensures ReadLength() >= 1
    {
    }

    /** readQueryFromClient, when the read returns the bytes `chunk`. */
    method ReadQuery(chunk: seq<byte>)
      requires Tracks() && Small()
      requires 1 <= |chunk| <= ReadLength() && chunk <= future
      modifies this
      ensures Tracks() && Small()
      ensures executed + todo == old(executed) + old(todo) && future == old(future)[|chunk|..]
      ensures future == [] ==> todo == [] && querybuf == []
    {
      hide EncodeArgs, EncodeAll, AllSendable;
      assert chunk + future[|chunk|..] == future;
      assert (querybuf + chunk) + future[|chunk|..] == querybuf + future;
      querybuf := querybuf + chunk;
      future := future[|chunk|..];
      assert querybuf[0..] == querybuf && old(querybuf)[0..] == old(querybuf);
      ProcessInput();
    }
  }

  /**
   A connection: the commands arrive as one stream of bytes that the kernel hands out in pieces of
   any size up to what is asked for. Every command is executed, in order, and nothing is left over.
   */
  method Session(cmds: seq<Command>) returns (executed: seq<Command>)
    requires AllSendable(cmds)
    ensures executed == cmds
  {
    var c := new Client(cmds);
    var stream := EncodeAll(cmds);
    while stream != []
      invariant c.Tracks() && c.Small() && c.future == stream
      invariant c.executed + c.todo == cmds
      invariant stream == [] ==> c.todo == []
      decreases |stream|
    {
      c.ReadLengthPositive();
      var n: nat :| 1 <= n <= c.ReadLength() && n <= |stream|;
      c.ReadQuery(stream[..n]);
      stream := stream[n..];
    }
    executed := c.executed;
  }
}
