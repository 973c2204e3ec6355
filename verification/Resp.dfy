/**
 Commands in the multi bulk form that clients send and that the append only file holds:
 `*<argc>` and then, for each argument, `$<length>` and its bytes, all lines ending in CR LF.
 */
module Resp {
  import opened Bytes
  import Decimal

  type Arg = seq<byte>
  type Command = seq<Arg>

  const MAX_ARGS := 1024 * 1024
  const MAX_BULK := 512 * 1024 * 1024

  /** The commands that the protocol can carry: the limits of networking.c lines 965 and 1012. */
  predicate Sendable(cmd: Command) {
    1 <= |cmd| <= MAX_ARGS && forall i :: 0 <= i < |cmd| ==> |cmd[i]| <= MAX_BULK
  }

  predicate AllSendable(cmds: seq<Command>) {
    forall i :: 0 <= i < |cmds| ==> Sendable(cmds[i])
  }

  function Header(prefix: byte, n: nat): (s: seq<byte>)
    ensures |s| >= 4 && s[0] == prefix
  {
    [prefix] + Decimal.Print(n) + CRLF
  }

  function EncodeArg(arg: Arg): seq<byte> {
    Header(DOLLAR, |arg|) + (arg + CRLF)
  }

  function EncodeArgs(args: seq<Arg>): seq<byte> {
    if args == [] then [] else EncodeArg(args[0]) + EncodeArgs(args[1..])
  }

  function Encode(cmd: Command): seq<byte> {
    Header(STAR, |cmd|) + EncodeArgs(cmd)
  }

  function EncodeAll(cmds: seq<Command>): seq<byte> {
    if cmds == [] then [] else Encode(cmds[0]) + EncodeAll(cmds[1..])
  }

  lemma {:induction false} EncodeArgsAppend(a: seq<Arg>, b: seq<Arg>)
    ensures EncodeArgs(a + b) == EncodeArgs(a) + EncodeArgs(b)
  {
    if a == [] {
      assert a + b == b;
    } else {
      assert (a + b)[1..] == a[1..] + b;
      EncodeArgsAppend(a[1..], b);
    }
  }

  lemma {:induction false} EncodeAllAppend(a: seq<Command>, b: seq<Command>)
    ensures EncodeAll(a + b) == EncodeAll(a) + EncodeAll(b)
  {
    if a == [] {
      assert a + b == b;
    } else {
      assert (a + b)[1..] == a[1..] + b;
      EncodeAllAppend(a[1..], b);
    }
  }

  lemma EncodeAllOne(cmd: Command)
    ensures EncodeAll([cmd]) == Encode(cmd)
  {
    assert [cmd][1..] == [];
    assert Encode(cmd) + [] == Encode(cmd);
  }

  /** A header is one short line: its only CR and its only LF are the last two bytes. */
  lemma HeaderShape(prefix: byte, n: nat)
    requires prefix != CR && prefix != LF && prefix != 0 && n < 1_0000_000_000
    ensures var h := Header(prefix, n);
            4 <= |h| <= 13 && h[|h| - 2] == CR && h[|h| - 1] == LF && h[1..|h| - 2] == Decimal.Print(n)
            && forall k :: 0 <= k < |h| - 2 ==> h[k] != CR && h[k] != LF && h[k] != 0
  {
    var d, h := Decimal.Digits(n), Header(prefix, n);
    Decimal.DigitsCanonical(n);
    assert Decimal.Pow10(10) == 1_0000_000_000 by { PowerOfTen(); }
    Decimal.DigitsLength(n, 10, 1_0000_000_000);
    forall k | 0 <= k < |h| - 2
      ensures h[k] != CR && h[k] != LF && h[k] != 0
    {
      if k > 0 {
        assert Decimal.IsDigit(d[k - 1]);
      }
    }
  }

  lemma PowerOfTen()
    ensures Decimal.Pow10(10) == 1_0000_000_000
  {
    assert Decimal.Pow10(2) == 100;
    assert Decimal.Pow10(4) == 10_000;
    assert Decimal.Pow10(6) == 1_000_000;
    assert Decimal.Pow10(8) == 100_000_000;
  }

  method CatArg(dst: seq<byte>, arg: Arg) returns (r: seq<byte>)
    ensures r == dst + EncodeArg(arg)
  {
    hide Decimal.Print;
    r := dst + ([DOLLAR] + Decimal.Print(|arg|) + CRLF);
    r := r + arg;
    r := r + CRLF;
  }

  /** catAppendOnlyGenericCommand: appends the encoding of one command, argument by argument. */
  method CatCommand(dst: seq<byte>, argv: Command) returns (r: seq<byte>)
    ensures r == dst + Encode(argv)
  {
    hide EncodeArgs, Decimal.Print;
    r := dst + ([STAR] + Decimal.Print(|argv|) + CRLF);
    ghost var front := r;
    var j := 0;
    NoArgs(argv);
    while j < |argv|
      invariant 0 <= j <= |argv|
      invariant r == front + EncodeArgs(argv[..j])
    {
      r := CatArg(r, argv[j]);
      EncodeArgsStep(argv, j);
      j := j + 1;
    }
    assert argv[..|argv|] == argv;
  }

  lemma NoArgs(argv: seq<Arg>)
    ensures EncodeArgs(argv[..0]) == []
  {
  }

  lemma EncodeArgsStep(argv: seq<Arg>, j: nat)
    requires j < |argv|
    ensures EncodeArgs(argv[..j + 1]) == EncodeArgs(argv[..j]) + EncodeArg(argv[j])
  {
    EncodeArgsAppend(argv[..j], [argv[j]]);
    assert argv[..j] + [argv[j]] == argv[..j + 1];
    var one: seq<Arg> := [argv[j]];
    assert one[1..] == [];
    assert EncodeArgs(one) == EncodeArg(argv[j]) + [];
  }
}
