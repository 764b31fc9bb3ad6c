/** Command lines for CreateProcess and the rule their readers split them by:
    libs/extc/process_stubs.c, lines 277 to 330, and std/haxe/SysTools.hx, lines 46 to 105. */
module WinArgs {

  import opened Wrappers
  import opened Sequences
  import opened StringBuffer

  // ---------------------------------------------------------------- the writers

  function Backslashes(n: nat): (r: string)
    ensures |r| == n
  {
    seq(n, _ => '\\')
  }

  /** What follows the opening quote of an argument, with `bs` backslashes of it still held back.
      Backslashes are doubled before a quote, and at the end when the argument is `wrapped`. */
  function Body(arg: string, bs: nat, wrapped: bool): string
    decreases |arg|
  {
    if arg == [] then Backslashes(if wrapped then 2 * bs else bs)
    else if arg[0] == '"' then Backslashes(2 * bs) + "\\\"" + Body(arg[1..], 0, wrapped)
    else if arg[0] == '\\' then Body(arg[1..], bs + 1, wrapped)
    else Backslashes(bs) + [arg[0]] + Body(arg[1..], 0, wrapped)
  }

  function Quoted(arg: string): string
  {
    " \"" + Body(arg, 0, true) + "\""
  }

  function QuotedAll(args: seq<string>): string
  {
    if args == [] then "" else Quoted(args[0]) + QuotedAll(args[1..])
  }

  function Line(cmd: string, args: seq<string>): string
  {
    "\"" + cmd + "\"" + QuotedAll(args)
  }

  // ---------------------------------------------------------------- the reader

  /** One argument from here to the white space that ends it, and what is left. 2n backslashes before a
      quote give n and leave the quote its meaning, 2n + 1 give n and a plain quote, all others stand for
      themselves. Inside quotes, readers differ on `""`: with `doubled` it is one plain quote. */
  function Scan(s: string, quoted: bool, n: nat, doubled: bool): (string, string)
    decreases |s|
  {
    if s == [] then (Backslashes(n), [])
    else if s[0] == '\\' then Scan(s[1..], quoted, n + 1, doubled)
    else if s[0] == '"' then
      if n % 2 == 1 then Prepend(Backslashes(n / 2) + "\"", Scan(s[1..], quoted, 0, doubled))
      else if quoted && doubled && |s| > 1 && s[1] == '"' then
        Prepend(Backslashes(n / 2) + "\"", Scan(s[2..], quoted, 0, doubled))
      else Prepend(Backslashes(n / 2), Scan(s[1..], !quoted, 0, doubled))
    else if !quoted && IsBlank(s[0]) then (Backslashes(n), s)
    else Prepend(Backslashes(n) + [s[0]], Scan(s[1..], quoted, 0, doubled))
  }

  predicate IsBlank(c: char)
  {
    c == ' ' || c == '\t'
  }

  function Prepend(a: string, r: (string, string)): (string, string)
  {
    (a + r.0, r.1)
  }

  lemma {:induction false} ScanShrinks(s: string, quoted: bool, n: nat, doubled: bool)
    ensures var r := Scan(s, quoted, n, doubled).1;
            |r| <= |s| && (r != [] ==> IsBlank(r[0]))
            && (s != [] && (quoted || !IsBlank(s[0])) ==> |r| < |s|)
    decreases |s|
  {
    if s != [] {
      ScanShrinks(s[1..], quoted, n + 1, doubled);
      ScanShrinks(s[1..], quoted, 0, doubled);
      ScanShrinks(s[1..], !quoted, 0, doubled);
      if |s| > 1 { ScanShrinks(s[2..], quoted, 0, doubled); }
    }
  }

  function Args(s: string, doubled: bool): seq<string>
    decreases |s|
  {
    if s == [] then []
    else if IsBlank(s[0]) then Args(s[1..], doubled)
    else
      ScanShrinks(s, false, 0, doubled);
      var r := Scan(s, false, 0, doubled);
      [r.0] + Args(r.1, doubled)
  }

  /** The program name: quotes only switch the meaning of blanks, and backslashes are plain. */
  function Name(s: string, quoted: bool): (string, string)
  {
    if s == [] then ([], [])
    else if s[0] == '"' then Name(s[1..], !quoted)
    else if !quoted && IsBlank(s[0]) then ([], s)
    else Prepend([s[0]], Name(s[1..], quoted))
  }

  function Split(line: string, doubled: bool): seq<string>
  {
    var r := Name(line, false);
    [r.0] + Args(r.1, doubled)
  }

  // ---------------------------------------------------------------- round trip

  lemma {:induction false} ScanBackslashes(m: nat, t: string, quoted: bool, n: nat, doubled: bool)
    ensures Scan(Backslashes(m) + t, quoted, n, doubled) == Scan(t, quoted, n + m, doubled)
    decreases m
  {
    var s := Backslashes(m) + t;
    if m == 0 {
      assert s == t;
    } else {
      assert s[1..] == Backslashes(m - 1) + t;
      ScanBackslashes(m - 1, t, quoted, n + 1, doubled);
    }
  }

  /** Where an argument ends: at the end of the line or before a blank. */
  predicate AtEnd(rest: string)
  {
    rest == [] || IsBlank(rest[0])
  }

  /** What a wrapped argument's reader sees after its body. */
  function Closing(wrapped: bool): string
  {
    if wrapped then "\"" else ""
  }

  /** `Body` and what closes it, seen through to `rest`. */
  function Closed(arg: string, bs: nat, wrapped: bool, rest: string): string
  {
    Body(arg, bs, wrapped) + Closing(wrapped) + rest
  }

  lemma ClosedCases(arg: string, bs: nat, wrapped: bool, rest: string)
    ensures arg == [] ==> Closed(arg, bs, wrapped, rest) == Backslashes(if wrapped then 2 * bs else bs) + (Closing(wrapped) + rest)
    ensures arg != [] && arg[0] == '"' ==>
              Closed(arg, bs, wrapped, rest) == Backslashes(2 * bs) + ("\\\"" + Closed(arg[1..], 0, wrapped, rest))
    ensures arg != [] && arg[0] == '\\' ==> Closed(arg, bs, wrapped, rest) == Closed(arg[1..], bs + 1, wrapped, rest)
    ensures arg != [] && arg[0] != '"' && arg[0] != '\\' ==>
              Closed(arg, bs, wrapped, rest) == Backslashes(bs) + ([arg[0]] + Closed(arg[1..], 0, wrapped, rest))
  {
    hide Backslashes, Closing;
  }

  lemma HeldBack(arg: string, bs: nat)
    requires arg != []
    ensures arg[0] == '\\' ==> Backslashes(bs + 1) + arg[1..] == Backslashes(bs) + arg
    ensures Backslashes(bs) + [arg[0]] + (Backslashes(0) + arg[1..]) == Backslashes(bs) + arg
  {
  }

  /** Inside quotes anything can be held back; outside them the argument must be free of blanks. */
  lemma {:induction false} ScanBody(arg: string, bs: nat, wrapped: bool, rest: string, doubled: bool)
    requires AtEnd(rest)
    requires wrapped || forall c <- arg :: !IsBlank(c)
    ensures Scan(Closed(arg, bs, wrapped, rest), wrapped, 0, doubled) == (Backslashes(bs) + arg, rest)
    decreases |arg|
  {
    hide Scan, Closed, Backslashes, Closing, AtEnd, IsBlank;
    ClosedCases(arg, bs, wrapped, rest);
    if arg == [] {
      ScanBackslashes(if wrapped then 2 * bs else bs, Closing(wrapped) + rest, wrapped, 0, doubled);
      ScanEnd(bs, wrapped, rest, doubled);
      assert Backslashes(bs) + arg == Backslashes(bs);
    } else {
      assert arg[0] in arg;
      HeldBack(arg, bs);
      if arg[0] == '\\' {
        ScanBody(arg[1..], bs + 1, wrapped, rest, doubled);
      } else {
        ScanBody(arg[1..], 0, wrapped, rest, doubled);
        var tail := Closed(arg[1..], 0, wrapped, rest);
        if arg[0] == '"' {
          ScanBackslashes(2 * bs, "\\\"" + tail, wrapped, 0, doubled);
          ScanQuote(bs, tail, wrapped, doubled);
        } else {
          ScanBackslashes(bs, [arg[0]] + tail, wrapped, 0, doubled);
          ScanPlain(bs, arg[0], tail, wrapped, doubled);
        }
      }
    }
  }

  lemma ScanEnd(bs: nat, wrapped: bool, rest: string, doubled: bool)
    requires AtEnd(rest)
    ensures Scan(Closing(wrapped) + rest, wrapped, if wrapped then 2 * bs else bs, doubled) == (Backslashes(bs), rest)
  {
    assert (Closing(wrapped) + rest)[|Closing(wrapped)|..] == rest;
    assert Backslashes(bs) + Backslashes(0) == Backslashes(bs);
  }

  lemma ScanQuote(bs: nat, tail: string, quoted: bool, doubled: bool)
    ensures Scan("\\\"" + tail, quoted, 2 * bs, doubled)
         == Prepend(Backslashes(bs) + "\"", Scan(tail, quoted, 0, doubled))
  {
    var s := "\\\"" + tail;
    assert s[1..] == "\"" + tail && s[1..][1..] == tail;
    assert Scan(s, quoted, 2 * bs, doubled) == Scan(s[1..], quoted, 2 * bs + 1, doubled);
  }

  lemma ScanPlain(bs: nat, c: char, tail: string, quoted: bool, doubled: bool)
    requires c != '"' && c != '\\' && (quoted || !IsBlank(c))
    ensures Scan([c] + tail, quoted, bs, doubled) == Prepend(Backslashes(bs) + [c], Scan(tail, quoted, 0, doubled))
  {
    assert ([c] + tail)[1..] == tail;
  }

  lemma QuotedSplits(arg: string, rest: string, doubled: bool)
    requires AtEnd(rest)
    ensures Args(Quoted(arg) + rest, doubled) == [arg] + Args(rest, doubled)
  {
    var s := Quoted(arg) + rest;
    var body := Body(arg, 0, true) + "\"" + rest;
    assert s[1..] == "\"" + body && s[1..][1..] == body;
    ScanBody(arg, 0, true, rest, doubled);
    hide Body;
    assert Backslashes(0) + arg == arg;
    assert Scan(s[1..], false, 0, doubled) == Prepend(Backslashes(0), Scan(body, true, 0, doubled));
  }

  lemma {:induction false} ArgsBack(args: seq<string>, doubled: bool)
    ensures AtEnd(QuotedAll(args)) && Args(QuotedAll(args), doubled) == args
  {
    hide Args;
    if args != [] {
      ArgsBack(args[1..], doubled);
      QuotedSplits(args[0], QuotedAll(args[1..]), doubled);
      assert QuotedAll(args)[0] == ' ';
    } else {
      NoArgs(doubled);
    }
  }

  lemma NoArgs(doubled: bool)
    ensures Args([], doubled) == []
  {
  }

  lemma {:induction false} NameBack(cmd: string, rest: string)
    requires AtEnd(rest) && '"' !in cmd
    ensures Name(cmd + "\"" + rest, true) == (cmd, rest)
  {
    var s := cmd + "\"" + rest;
    if cmd == [] {
      assert s[1..] == rest;
    } else {
      assert s[1..] == cmd[1..] + "\"" + rest && s[0] in cmd;
      NameBack(cmd[1..], rest);
      assert [cmd[0]] + cmd[1..] == cmd;
    }
  }

  lemma {:induction false} NameHasNoQuote(s: string, quoted: bool)
    ensures '"' !in Name(s, quoted).0
  {
    if s != [] {
      NameHasNoQuote(s[1..], quoted);
      NameHasNoQuote(s[1..], !quoted);
    }
  }

  /** Splitting the line gives back the program and every argument, exactly when the program's own
      name holds no quote; the arguments are free to hold anything. */
  lemma LineSplitsBack(cmd: string, args: seq<string>, doubled: bool)
    ensures Split(Line(cmd, args), doubled) == [cmd] + args <==> '"' !in cmd
  {
    hide Args, Scan;
    var line := Line(cmd, args);
    NameHasNoQuote(line, false);
    ArgsBack(args, doubled);
    if '"' !in cmd {
      assert line[1..] == cmd + "\"" + QuotedAll(args);
      NameBack(cmd, QuotedAll(args));
    } else {
      assert ([cmd] + args)[0] == cmd;
    }
  }

  lemma {:induction false} CStringWhole(s: string)
    requires '\0' !in s
    ensures CString(s) == s && CString(s + "\0") == s
  {
    if s != [] {
      assert s[0] in s && (s + "\0")[1..] == s[1..] + "\0";
      CStringWhole(s[1..]);
    }
  }

  lemma {:induction false} BodyNoNul(arg: string, bs: nat, wrapped: bool)
    requires '\0' !in arg
    ensures '\0' !in Body(arg, bs, wrapped)
    decreases |arg|
  {
    if arg != [] {
      assert arg[0] in arg;
      BodyNoNul(arg[1..], 0, wrapped);
      BodyNoNul(arg[1..], bs + 1, wrapped);
    }
  }

  lemma {:induction false} QuotedAllNoNul(args: seq<string>)
    requires forall arg <- args :: '\0' !in arg
    ensures '\0' !in QuotedAll(args)
  {
    if args != [] {
      assert args[0] in args;
      BodyNoNul(args[0], 0, true);
      hide Body;
      QuotedAllNoNul(args[1..]);
    }
  }

  lemma {:induction false} CStringNoNul(s: string)
    ensures '\0' !in CString(s)
  {
    if s != [] { CStringNoNul(s[1..]); }
  }

  lemma {:induction false} NameNoNul(s: string, quoted: bool)
    requires '\0' !in s
    ensures '\0' !in Name(s, quoted).0 && '\0' !in Name(s, quoted).1
  {
    if s != [] {
      assert s[0] in s;
      NameNoNul(s[1..], quoted);
      NameNoNul(s[1..], !quoted);
    }
  }

  lemma {:induction false} ScanNoNul(s: string, quoted: bool, n: nat, doubled: bool)
    requires '\0' !in s
    ensures var r := Scan(s, quoted, n, doubled); '\0' !in r.0 && '\0' !in r.1
    decreases |s|
  {
    if s != [] {
      assert s[0] in s;
      ScanNoNul(s[1..], quoted, n + 1, doubled);
      ScanNoNul(s[1..], quoted, 0, doubled);
      ScanNoNul(s[1..], !quoted, 0, doubled);
      if |s| > 1 { ScanNoNul(s[2..], quoted, 0, doubled); }
    }
  }

  lemma {:induction false} ArgsNoNul(s: string, doubled: bool)
    requires '\0' !in s
    ensures forall arg <- Args(s, doubled) :: '\0' !in arg
    decreases |s|
  {
    hide Scan;
    if s != [] {
      if IsBlank(s[0]) {
        ArgsNoNul(s[1..], doubled);
      } else {
        ScanShrinks(s, false, 0, doubled);
        ScanNoNul(s, false, 0, doubled);
        ArgsNoNul(Scan(s, false, 0, doubled).1, doubled);
      }
    }
  }

  lemma SplitNoNul(line: string, doubled: bool)
    requires '\0' !in line
    ensures forall arg <- Split(line, doubled) :: '\0' !in arg
  {
    hide Name, Args;
    NameNoNul(line, false);
    ArgsNoNul(Name(line, false).1, doubled);
  }

  ghost predicate NoNuls(args: seq<string>)
  {
    forall arg <- args :: '\0' !in arg
  }

  /** The same for the terminated string that the buffer hands over: it also cuts at a NUL, so no string
      may hold one. */
  lemma CommandLineSplitsBack(cmd: string, args: seq<string>, doubled: bool)
    ensures Split(CString(Line(CString(cmd), args) + "\0"), doubled) == [cmd] + args
       <==> '"' !in cmd && NoNuls([cmd] + args)
  {
    hide Split, CString, QuotedAll;
    var line := Line(CString(cmd), args) + "\0";
    CStringNoNul(line);
    SplitNoNul(CString(line), doubled);
    if NoNuls([cmd] + args) {
      assert ([cmd] + args)[0] == cmd && ([cmd] + args)[1..] == args;
      CStringWhole(cmd);
      QuotedAllNoNul(args);
      CStringWhole(Line(cmd, args));
      LineSplitsBack(cmd, args, doubled);
    }
  }

  // ---------------------------------------------------------------- raw command lines

  /** A raw command goes to the shell as it is, between quotes that the shell strips. */
  function RawLine(cmd: string, comspec: string): string
  {
    "\"" + comspec + "\"" + "/C \"" + cmd + "\""
  }

  function UntilQuote(s: string): (r: string)
    ensures r <= s && '"' !in r && (|r| < |s| ==> s[|r|] == '"')
  {
    if s == "" || s[0] == '"' then "" else [s[0]] + UntilQuote(s[1..])
  }

  /** The reader's side: the shell stands between the first two quotes, and behind `/C ` the command stands
      between the next quote and the last. */
  function RawSplit(line: string): Option<(string, string)>
  {
    if line == "" || line[0] != '"' then None
    else
      var shell := UntilQuote(line[1..]);
      var rest := line[1 + |shell|..];
      if |rest| >= 6 && rest[..5] == "\"/C \"" && rest[|rest| - 1] == '"' then Some((shell, rest[5..|rest| - 1])) else None
  }

  lemma {:induction false} UntilQuoteFinds(s: string, rest: string)
    requires '"' !in s
    ensures UntilQuote(s + "\"" + rest) == s
  {
    var t := s + "\"" + rest;
    if s != "" {
      assert s[0] in s && t[1..] == s[1..] + "\"" + rest;
      UntilQuoteFinds(s[1..], rest);
    }
  }

  /** The shell and the command are read back, whatever the command holds, exactly when the shell's name
      holds no quote. */
  lemma RawLineSplitsBack(cmd: string, comspec: string)
    ensures RawSplit(RawLine(cmd, comspec)) == Some((comspec, cmd)) <==> '"' !in comspec
  {
    var line := RawLine(cmd, comspec);
    var end := "/C \"" + cmd + "\"";
    assert line[1..] == comspec + "\"" + end;
    if '"' !in comspec {
      UntilQuoteFinds(comspec, end);
      var rest := line[1 + |comspec|..];
      assert rest == "\"/C \"" + cmd + "\"";
      assert rest[..5] == "\"/C \"" && rest[5..|rest| - 1] == cmd;
    }
  }

  /** The same for the terminated string: no string may hold a NUL either. */
  lemma RawCommandSplitsBack(cmd: string, comspec: string)
    ensures RawSplit(CString(RawLine(CString(cmd), CString(comspec)) + "\0")) == Some((comspec, cmd))
       <==> '"' !in comspec && '\0' !in comspec && '\0' !in cmd
  {
    hide CString, RawSplit;
    var line := RawLine(CString(cmd), CString(comspec));
    CStringNoNul(cmd);
    CStringNoNul(comspec);
    CStringWhole(line);
    RawLineSplitsBack(CString(cmd), CString(comspec));
    RawSplitNoNul(line);
    if '\0' !in comspec && '\0' !in cmd {
      CStringWhole(cmd);
      CStringWhole(comspec);
    }
  }

  lemma RawSplitNoNul(line: string)
    requires '\0' !in line
    ensures var r := RawSplit(line); r.Some? ==> '\0' !in r.value.0 && '\0' !in r.value.1
  {
  }

  // ---------------------------------------------------------------- process_run

  method AppendBackslashes(b: Buffer, n: nat)
    requires b.Valid() && b.totlen + n < MAX_TOTAL
    modifies b.Repr()
    ensures b.Valid() && b.Contents() == old(b.Contents()) + Backslashes(n)
    ensures fresh(b.Repr() - old(b.Repr()))
  {
    assert b.Contents() + Backslashes(0) == b.Contents();
    for k := 0 to n
      invariant b.Valid() && fresh(b.Repr() - old(b.Repr()))
      invariant b.Contents() == old(b.Contents()) + Backslashes(k)
    {
      b.AppendChar('\\');
      assert Backslashes(k) + "\\" == Backslashes(k + 1);
    }
  }

  lemma {:induction false} BodyLength(arg: string, bs: nat, wrapped: bool)
    ensures |Body(arg, bs, wrapped)| >= bs + |arg|
    decreases |arg|
  {
    if arg != [] {
      BodyLength(arg[1..], 0, wrapped);
      BodyLength(arg[1..], bs + 1, wrapped);
    }
  }

  /** What one character adds to the line, and how many backslashes are then held back. */
  function Emitted(c: char, bs: nat): (string, nat)
  {
    if c == '"' then (Backslashes(2 * bs) + "\\\"", 0)
    else if c == '\\' then ("", bs + 1)
    else (Backslashes(bs) + [c], 0)
  }

  lemma BodyStep(done: string, arg: string, j: nat, bs: nat)
    requires j < |arg|
    ensures var e := Emitted(arg[j], bs);
            done + Body(arg[j..], bs, true) == done + e.0 + Body(arg[j + 1..], e.1, true)
  {
    assert arg[j..][1..] == arg[j + 1..];
  }

  /** One step of the quoting loop: the switch over the next character. */
  method AppendNext(b: Buffer, c: char, bs: nat) returns (held: nat)
    requires b.Valid() && b.totlen + |Emitted(c, bs).0| < MAX_TOTAL
    modifies b.Repr()
    ensures b.Valid() && b.Contents() == old(b.Contents()) + Emitted(c, bs).0 && held == Emitted(c, bs).1
    ensures fresh(b.Repr() - old(b.Repr()))
  {
    hide Backslashes, Buffer.Valid, Buffer.Contents, CString;
    b.Length();
    if c == '"' {
      AppendBackslashes(b, bs * 2);
      b.Length();
      held := 0;
      CStringWhole("\\\"");
      b.AppendStr("\\\"");
    } else if c == '\\' {
      held := bs + 1;
      assert b.Contents() == b.Contents() + "";
    } else {
      AppendBackslashes(b, bs);
      b.Length();
      held := 0;
      b.AppendChar(c);
    }
  }

  method AppendQuoted(b: Buffer, arg: string)
    requires b.Valid() && b.totlen + |Quoted(arg)| < MAX_TOTAL
    modifies b.Repr()
    ensures b.Valid() && b.Contents() == old(b.Contents()) + Quoted(arg)
    ensures fresh(b.Repr() - old(b.Repr()))
  {
    hide Buffer.Valid, Buffer.Contents, Body, Emitted, CString, Backslashes;
    CStringWhole(" \"");
    b.Length();
    b.AppendStr(" \"");
    ghost var start := b.Contents();
    var bsCount := 0;
    assert arg[0..] == arg;
    for j := 0 to |arg|
      invariant b.Valid() && fresh(b.Repr() - old(b.Repr()))
      invariant b.Contents() + Body(arg[j..], bsCount, true) == start + Body(arg, 0, true)
    {
      b.Length();
      BodyStep(b.Contents(), arg, j, bsCount);
      bsCount := AppendNext(b, arg[j], bsCount);
    }
    assert arg[|arg|..] == [];
    NothingLeft(bsCount);
    b.Length();
    AppendBackslashes(b, bsCount * 2);
    b.Length();
    b.AppendChar('"');
    AssociativeOfFour(old(b.Contents()), " \"", Body(arg, 0, true), "\"");
  }

  lemma NothingLeft(bs: nat)
    ensures Body([], bs, true) == Backslashes(2 * bs)
  {
  }

  lemma QuotedStep(args: seq<string>, i: nat)
    requires i < |args|
    ensures QuotedAll(args[i..]) == Quoted(args[i]) + QuotedAll(args[i + 1..])
  {
    assert args[i..][1..] == args[i + 1..];
  }

  lemma NoneQuoted(s: string)
    ensures s + QuotedAll([]) == s
  {
  }

  /** A word between quotes, as both kinds of command line begin. */
  method AppendWrapped(b: Buffer, s: string)
    requires b.Valid() && b.totlen + |CString(s)| + 2 < MAX_TOTAL
    modifies b.Repr()
    ensures b.Valid() && b.Contents() == old(b.Contents()) + ("\"" + CString(s) + "\"")
    ensures fresh(b.Repr() - old(b.Repr()))
  {
    hide Buffer.Valid, Buffer.Contents, CString;
    b.Length();
    b.AppendChar('"');
    b.Length();
    b.AppendStr(s);
    b.Length();
    b.AppendChar('"');
    AssociativeOfFour(old(b.Contents()), "\"", CString(s), "\"");
  }

  /** The command line of a process with explicit arguments. */
  method CommandLine(cmd: string, args: seq<string>) returns (sargs: array<char>)
    requires |Line(CString(cmd), args)| < MAX_TOTAL
    ensures fresh(sargs) && sargs[..] == Line(CString(cmd), args) + "\0"
  {
    hide Buffer.Valid, Buffer.Contents, Quoted, QuotedAll, CString;
    var b := new Buffer();
    b.Length();
    AppendWrapped(b, cmd);
    assert args[0..] == args;
    for i := 0 to |args|
      invariant b.Valid() && fresh(b.Repr())
      invariant b.Contents() + QuotedAll(args[i..]) == Line(CString(cmd), args)
    {
      Associative(b.Contents(), Quoted(args[i]), QuotedAll(args[i + 1..]));
      QuotedStep(args, i);
      b.Length();
      AppendQuoted(b, args[i]);
    }
    assert args[|args|..] == [];
    NoneQuoted(b.Contents());
    sargs := b.ToString();
  }

  /** The command line of a process with null for its arguments. */
  method RawCommandLine(cmd: string, comspec: string) returns (sargs: array<char>)
    requires |RawLine(CString(cmd), CString(comspec))| < MAX_TOTAL
    ensures fresh(sargs) && sargs[..] == RawLine(CString(cmd), CString(comspec)) + "\0"
  {
    hide Buffer.Valid, Buffer.Contents, CString;
    var b := new Buffer();
    b.Length();
    AppendWrapped(b, comspec);
    ghost var shell := "\"" + CString(comspec) + "\"";
    assert b.Contents() == shell;
    CStringWhole("/C \"");
    b.Length();
    b.AppendStr("/C \"");
    b.Length();
    b.AppendStr(cmd);
    b.Length();
    b.AppendChar('"');
    sargs := b.ToString();
  }

  // ---------------------------------------------------------------- quoteWinArg

  predicate NeedsQuote(arg: string)
  {
    ' ' in arg || '\t' in arg || arg == "" || ('/' in arg && arg[0] != '/')
  }

  /** What the regular expression accepts: an optional slash, then at least one character and no
      blank, slash, backslash or quote. */
  predicate IsPlain(arg: string)
  {
    var rest := if arg != [] && arg[0] == '/' then arg[1..] else arg;
    rest != [] && forall c <- rest :: !IsBlank(c) && c != '/' && c != '\\' && c != '"'
  }

  function WinArg(arg: string): string
  {
    if IsPlain(arg) then arg
    else if NeedsQuote(arg) then "\"" + Body(arg, 0, true) + "\""
    else Body(arg, 0, false)
  }

  lemma {:induction false} PlainBody(arg: string)
    requires '\\' !in arg && '"' !in arg
    ensures Body(arg, 0, false) == arg
  {
    if arg != [] {
      assert arg[0] in arg;
      PlainBody(arg[1..]);
      assert Backslashes(0) + [arg[0]] + arg[1..] == arg;
    }
  }

  lemma PlainChars(arg: string)
    requires IsPlain(arg)
    ensures forall c <- arg :: !IsBlank(c) && c != '\\' && c != '"'
  {
    forall k | 0 <= k < |arg| ensures !IsBlank(arg[k]) && arg[k] != '\\' && arg[k] != '"' {
      if k > 0 { assert arg[k] == arg[1..][k - 1]; }
    }
  }

  lemma BodyStart(arg: string, bs: nat, wrapped: bool)
    requires arg != [] && !IsBlank(arg[0])
    ensures var b := Body(arg, bs, wrapped); b != [] && !IsBlank(b[0])
    decreases |arg|
  {
    BodyLength(arg, bs, wrapped);
    if arg[0] == '\\' { HeldStart(arg[1..], bs + 1, wrapped); }
  }

  lemma {:induction false} HeldStart(arg: string, bs: nat, wrapped: bool)
    requires bs > 0
    ensures var b := Body(arg, bs, wrapped); b != [] && b[0] == '\\'
    decreases |arg|
  {
    if arg != [] && arg[0] == '\\' { HeldStart(arg[1..], bs + 1, wrapped); }
  }

  lemma UnwrappedReads(arg: string, rest: string, doubled: bool)
    requires AtEnd(rest) && arg != [] && forall c <- arg :: !IsBlank(c)
    ensures Args(Body(arg, 0, false) + rest, doubled) == [arg] + Args(rest, doubled)
  {
    hide Body, Scan;
    var s := Body(arg, 0, false) + rest;
    assert arg[0] in arg;
    BodyStart(arg, 0, false);
    assert Closed(arg, 0, false, rest) == s;
    ScanBody(arg, 0, false, rest, doubled);
    assert Backslashes(0) + arg == arg;
  }

  lemma WrappedReads(arg: string, rest: string, doubled: bool)
    requires AtEnd(rest)
    ensures Args("\"" + Body(arg, 0, true) + "\"" + rest, doubled) == [arg] + Args(rest, doubled)
  {
    hide Body;
    QuotedSplits(arg, rest, doubled);
    var s := "\"" + Body(arg, 0, true) + "\"" + rest;
    assert Quoted(arg) + rest == " " + s;
    assert (" " + s)[1..] == s;
  }

  /** Whatever the argument, the result is read as exactly that one argument. */
  lemma WinArgReadsBack(arg: string, rest: string, doubled: bool)
    requires AtEnd(rest)
    ensures Args(WinArg(arg) + rest, doubled) == [arg] + Args(rest, doubled)
  {
    hide Body, Args;
    if IsPlain(arg) {
      PlainChars(arg);
      PlainBody(arg);
      UnwrappedReads(arg, rest, doubled);
    } else if NeedsQuote(arg) {
      WrappedReads(arg, rest, doubled);
    } else {
      UnwrappedReads(arg, rest, doubled);
    }
  }

  /** Whether an argument must be quoted, position by position: it is empty, holds a blank, or its first
      slash is not its first character. */
  ghost predicate MustQuote(arg: string)
  {
    || arg == ""
    || (exists i :: 0 <= i < |arg| && (arg[i] == ' ' || arg[i] == '\t'))
    || (exists i :: 0 < i < |arg| && arg[i] == '/' && arg[0] != '/')
  }

  lemma {:induction false} BodyWithoutQuotes(arg: string, bs: nat)
    ensures '"' !in arg ==> Body(arg, bs, false) == Backslashes(bs) + arg
    ensures '"' in arg ==> |Body(arg, bs, false)| > bs + |arg|
    decreases |arg|
  {
    if arg != [] {
      var c, rest := arg[0], arg[1..];
      assert arg == [c] + rest;
      BodyWithoutQuotes(rest, 0);
      BodyWithoutQuotes(rest, bs + 1);
      BodyLength(rest, 0, false);
      HeldBack(arg, bs);
    }
  }

  /** Exactly those arguments are quoted, and of the others exactly those with a quote in them are changed. */
  lemma WinArgForm(arg: string)
    ensures (exists body: string :: WinArg(arg) == "\"" + body + "\"") <==> MustQuote(arg)
    ensures WinArg(arg) == arg <==> !MustQuote(arg) && '"' !in arg
  {
    PlainOrNot(arg);
    BodyWithoutQuotes(arg, 0);
    BodyLength(arg, 0, true);
    hide Body;
    if NeedsQuote(arg) {
      assert WinArg(arg) == "\"" + Body(arg, 0, true) + "\"";
    } else {
      NotQuoted(arg);
    }
    assert Backslashes(0) + arg == arg;
  }

  lemma PlainOrNot(arg: string)
    ensures NeedsQuote(arg) <==> MustQuote(arg)
    ensures IsPlain(arg) ==> !NeedsQuote(arg) && '"' !in arg
  {
    if IsPlain(arg) {
      PlainChars(arg);
      if arg[0] != '/' { assert forall c <- arg :: c != '/'; }
    }
  }

  /** What is not put between quotes does not begin with one. */
  lemma NotQuoted(arg: string)
    requires arg != "" && !NeedsQuote(arg)
    ensures WinArg(arg) != "" && WinArg(arg)[0] != '"'
  {
    if IsPlain(arg) {
      PlainChars(arg);
      assert arg[0] in arg;
    } else if arg[0] == '\\' {
      HeldStart(arg[1..], 1, false);
    }
  }

  predicate IsMeta(c: char)
  {
    c in " ()%!^\"<>&|\n\r,;"
  }

  function Escaped(s: string): string
  {
    if s == [] then [] else (if IsMeta(s[0]) then "^" else "") + [s[0]] + Escaped(s[1..])
  }

  /** The metacharacters of the shell get a caret each, and nothing else does. */
  lemma EscapedCharacter(c: char)
    ensures Escaped([c]) == if c in {' ', '(', ')', '%', '!', '^', '"', '<', '>', '&', '|', '\n', '\r', ',', ';'}
                            then ['^', c] else [c]
  {
    assert [c][1..] == [];
  }

  lemma {:induction false} EscapedAppend(s: string, t: string)
    ensures Escaped(s + t) == Escaped(s) + Escaped(t)
  {
    if s == [] {
      assert s + t == t;
    } else {
      assert (s + t)[1..] == s[1..] + t;
      EscapedAppend(s[1..], t);
    }
  }

  /** So every metacharacter in the escaped text, apart from the carets put in, stands behind a caret. */
  lemma {:induction false} MetaBehindCaret(s: string)
    ensures var e := Escaped(s);
            forall i :: 0 <= i < |e| && e[i] in {' ', '(', ')', '%', '!', '"', '<', '>', '&', '|', '\n', '\r', ',', ';'} ==>
              i > 0 && e[i - 1] == '^'
  {
    if s != [] {
      MetaBehindCaret(s[1..]);
      EscapedCharacter(s[0]);
      EscapedAppend([s[0]], s[1..]);
      assert s == [s[0]] + s[1..];
      hide Escaped;
      var head, rest := Escaped([s[0]]), Escaped(s[1..]);
      forall i | 0 <= i < |Escaped(s)| && Escaped(s)[i] in {' ', '(', ')', '%', '!', '"', '<', '>', '&', '|', '\n', '\r', ',', ';'}
        ensures i > 0 && Escaped(s)[i - 1] == '^'
      {
        if i >= |head| { assert Escaped(s)[i] == rest[i - |head|]; }
      }
    }
  }

  /** The shell drops each caret and takes the next character as it is. */
  function Unescaped(s: string): string
    decreases |s|
  {
    if s == [] then []
    else if s[0] == '^' && |s| > 1 then [s[1]] + Unescaped(s[2..])
    else [s[0]] + Unescaped(s[1..])
  }

  lemma {:induction false} EscapesUndone(s: string)
    ensures Unescaped(Escaped(s)) == s
  {
    if s != [] {
      EscapesUndone(s[1..]);
      var e := Escaped(s);
      if IsMeta(s[0]) {
        assert e == ['^', s[0]] + Escaped(s[1..]);
        assert e[2..] == Escaped(s[1..]);
      } else {
        assert e == [s[0]] + Escaped(s[1..]);
        assert e[1..] == Escaped(s[1..]) && s[0] != '^';
      }
    }
  }

  method QuoteWinArg(arg: string, escapeMetaCharacters: bool) returns (r: string)
    ensures r == if escapeMetaCharacters then Escaped(WinArg(arg)) else WinArg(arg)
  {
    r := arg;
    if !IsPlain(arg) {
      r := QuoteLoop(arg, NeedsQuote(arg));
    }
    if escapeMetaCharacters {
      r := EscapeLoop(r);
    }
  }

  method QuoteLoop(arg: string, needquote: bool) returns (result: string)
    ensures result == if needquote then "\"" + Body(arg, 0, true) + "\"" else Body(arg, 0, false)
  {
    hide Body, Backslashes;
    var open := if needquote then "\"" else "";
    result := open;
    var bs := "";
    ghost var held := 0;
    assert arg[0..] == arg;
    BodyCases("", arg, 0, needquote);
    for i := 0 to |arg|
      invariant bs == Backslashes(held)
      invariant result + Body(arg[i..], held, needquote) == open + Body(arg, 0, needquote)
    {
      BodyCases(result, arg[i..], held, needquote);
      assert arg[i..][1..] == arg[i + 1..];
      match arg[i]
      case '\\' =>
        bs := bs + "\\";
        held := held + 1;
      case '"' =>
        result := result + bs + bs + "\\\"";
        bs, held := "", 0;
      case c =>
        result := result + bs + [c];
        bs, held := "", 0;
    }
    assert arg[|arg|..] == [];
    BodyCases(result, [], held, needquote);
    result := result + bs;
    if needquote {
      result := result + bs + "\"";
    }
  }

  lemma BodyCases(done: string, arg: string, bs: nat, wrapped: bool)
    ensures Backslashes(0) == "" && Backslashes(bs) + "\\" == Backslashes(bs + 1)
    ensures arg == [] && wrapped ==> done + Body(arg, bs, wrapped) == done + Backslashes(bs) + Backslashes(bs)
    ensures arg == [] && !wrapped ==> done + Body(arg, bs, wrapped) == done + Backslashes(bs)
    ensures arg != [] && arg[0] == '"' ==>
              done + Body(arg, bs, wrapped) == done + Backslashes(bs) + Backslashes(bs) + "\\\"" + Body(arg[1..], 0, wrapped)
    ensures arg != [] && arg[0] == '\\' ==> Body(arg, bs, wrapped) == Body(arg[1..], bs + 1, wrapped)
    ensures arg != [] && arg[0] != '"' && arg[0] != '\\' ==>
              done + Body(arg, bs, wrapped) == done + Backslashes(bs) + [arg[0]] + Body(arg[1..], 0, wrapped)
  {
    assert Backslashes(2 * bs) == Backslashes(bs) + Backslashes(bs);
  }

  lemma EscapedStep(done: string, s: string, i: nat)
    requires i < |s|
    ensures done + Escaped(s[i..]) == (if IsMeta(s[i]) then done + "^" else done) + [s[i]] + Escaped(s[i + 1..])
  {
    assert s[i..][1..] == s[i + 1..];
  }

  lemma NothingEscaped(s: string)
    ensures s + Escaped([]) == s
  {
  }

  method EscapeLoop(s: string) returns (result: string)
    ensures result == Escaped(s)
  {
    hide IsMeta, Escaped;
    result := "";
    assert s[0..] == s;
    for i := 0 to |s|
      invariant result + Escaped(s[i..]) == Escaped(s)
    {
      EscapedStep(result, s, i);
      if IsMeta(s[i]) {
        result := result + "^";
      }
      result := result + [s[i]];
    }
    assert s[|s|..] == [];
    NothingEscaped(result);
  }
}
