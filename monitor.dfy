/** The command registry, the two simple handlers, runcmd's lookup and
    dispatch, and the read/execute loop of monitor (kern/monitor.c). */
module Monitor {
  import opened Jos
  import opened Tokenizer
  import PageTables
  import Backtrace

  /** The handler a registry entry points at. */
  datatype Handler = HelpCmd | KernInfoCmd | BacktraceCmd | ShowMappingsCmd | PermCmd

  /** struct Command: a name, a one-line description and a handler. */
  datatype Command = Command(name: CString, desc: string, handler: Handler)

  /** The registry `commands[]`, in registration order. */
  const Commands: seq<Command> := [
    Command("help", "Display this list of commands", HelpCmd),
    Command("kerninfo", "Display information about the kernel", KernInfoCmd),
    Command("backtrace", "Display a backtrace", BacktraceCmd),
    Command("showmappings", "Show physical page mappings", ShowMappingsCmd),
    Command("perm", "Adjust permissions on a page.", PermCmd)
  ]

  /** No two registry entries share a name. */
  lemma NamesDistinct()
    ensures forall i, j :: 0 <= i < j < |Commands| ==> Commands[i].name != Commands[j].name
  {
    assert Commands[0].name[0] == 'h';
    assert Commands[1].name[0] == 'k';
    assert Commands[2].name[0] == 'b';
    assert Commands[3].name[0] == 's';
    assert Commands[4].name[0] == 'p';
  }

  /** The first registry entry at or after i whose name is `name`. */
  function FindFrom(name: string, i: nat): (r: Option<nat>)
    requires i <= |Commands|
    ensures r.Some? ==> i <= r.value < |Commands| && Commands[r.value].name == name
    ensures r.Some? ==> forall j :: i <= j < r.value ==> Commands[j].name != name
    ensures r.None? ==> forall j :: i <= j < |Commands| ==> Commands[j].name != name
    decreases |Commands| - i
  {
    if i == |Commands| then None
    else if Commands[i].name == name then Some(i)
    else FindFrom(name, i + 1)
  }

  /** runcmd's registry scan: the first exact, case-sensitive name match. */
  function FindCommand(name: string): (r: Option<nat>)
    ensures r.Some? ==> r.value < |Commands| && Commands[r.value].name == name
    ensures r.None? ==> forall j :: 0 <= j < |Commands| ==> Commands[j].name != name
  {
    FindFrom(name, 0)
  }

  /** Since the names are distinct, the scan finds entry i exactly when entry
      i carries that name. */
  lemma FindCommandIff(name: string, i: nat)
    ensures FindCommand(name) == Some(i) <==> i < |Commands| && Commands[i].name == name
  {
    NamesDistinct();
  }

  // ---------------------------------------------------------------- help

  /** What `help` prints: every entry's name and description, in order. */
  function HelpSpec(): (r: seq<Event>)
    ensures |r| == |Commands|
  {
    seq(|Commands|, i requires 0 <= i < |Commands| => HelpLine(Commands[i].name, Commands[i].desc))
  }

  /** mon_help's loop over the registry. */
  method Help() returns (status: int, events: seq<Event>)
    ensures status == 0
    ensures events == HelpSpec()
  {
    events := [];
    var i := 0;
    while i < |Commands|
      invariant 0 <= i <= |Commands|
      invariant events == HelpSpec()[..i]
    {
      events := events + [HelpLine(Commands[i].name, Commands[i].desc)];
      i := i + 1;
    }
    return 0, events;
  }

  /** Help lists exactly the names the dispatcher accepts, each once. */
  lemma HelpMatchesDispatch(name: string)
    ensures FindCommand(name).Some? <==>
              exists i :: 0 <= i < |HelpSpec()| && HelpSpec()[i].name == name
    ensures forall i, j :: 0 <= i < j < |HelpSpec()| ==> HelpSpec()[i].name != HelpSpec()[j].name
  {
    NamesDistinct();
    if FindCommand(name).Some? {
      var k := FindCommand(name).value;
      assert HelpSpec()[k].name == name;
    }
  }

  // ---------------------------------------------------------------- kerninfo

  /** The link-time symbols kerninfo reports. */
  datatype KernelSymbols = KernelSymbols(start: Word, entry: Word, etext: Word, edata: Word, end: Word)

  /** `ROUNDUP(end - entry, 1024) / 1024`: the pointer difference is an int,
      ROUNDUP computes in 32-bit unsigned arithmetic and casts its result back
      to int, and the division truncates. */
  function FootprintKB(entry: Word, end: Word): (kb: int)
    ensures kb * 1024 == Signed(RoundUp1024(SubWrap(end, entry)))
  {
    var r := Signed(RoundUp1024(SubWrap(end, entry)));
    assert r % 1024 == 0 by {
      SignedKeepsMultiple(RoundUp1024(SubWrap(end, entry)));
    }
    r / 1024
  }

  /** ROUNDUP(x, 1024) on a 32-bit unsigned value. */
  function RoundUp1024(x: Word): (r: Word)
    ensures r % 1024 == 0
  {
    var y := AddWrap(x, 1023);
    y - y % 1024
  }

  lemma SignedKeepsMultiple(w: Word)
    requires w % 1024 == 0
    ensures Signed(w) % 1024 == 0
  {
  }

  /** For any kernel image smaller than 2 GiB less 1 KiB, the footprint is the
      size rounded up to whole kilobytes. */
  lemma FootprintIsCeiling(entry: Word, end: Word)
    requires entry <= end && end - entry <= 0x7FFF_FC00
    ensures var kb := FootprintKB(entry, end);
            kb >= 0 && end - entry <= kb * 1024 < end - entry + 1024
  {
  }

  /** What `kerninfo` prints: the symbol table, then the footprint. */
  function KernInfoSpec(syms: KernelSymbols): (r: seq<Event>)
    ensures |r| == 2 && r[0].KernSymbols? && r[1] == KernInfoLine(FootprintKB(syms.entry, syms.end))
  {
    [KernSymbols(syms.start, syms.entry, syms.etext, syms.edata, syms.end),
     KernInfoLine(FootprintKB(syms.entry, syms.end))]
  }

  // ---------------------------------------------------------------- dispatch

  /** The execution-context snapshot the handlers see. */
  datatype Context = Context(machine: Backtrace.Machine, symbols: KernelSymbols)

  /** A reply together with the page tables after the command. */
  datatype Outcome = Outcome(reply: Reply, entries: map<Word, Pte>)

  /** What each handler does with the argument vector. */
  function HandlerSpec(h: Handler, argv: seq<CString>, entries: map<Word, Pte>,
                       ctx: Context, chain: seq<Word>): Outcome
    requires |argv| >= 1
  {
    match h
    case HelpCmd => Outcome(Reply(0, HelpSpec()), entries)
    case KernInfoCmd => Outcome(Reply(0, KernInfoSpec(ctx.symbols)), entries)
    case BacktraceCmd => Outcome(Reply(0, Backtrace.BacktraceSpec(ctx.machine, chain)), entries)
    case ShowMappingsCmd => Outcome(PageTables.MappingsSpec(entries, argv), entries)
    case PermCmd =>
      var r := PageTables.PermSpec(entries, argv);
      Outcome(r.reply, r.entries)
  }

  /** A call through a registry entry's function pointer. */
  method Invoke(h: Handler, argv: seq<CString>, pt: PageTables.PageTable,
                ctx: Context, ghost chain: seq<Word>) returns (status: int, events: seq<Event>)
    requires |argv| >= 1
    requires Backtrace.ChainFrom(ctx.machine.mem, ctx.machine.ebp, chain)
    modifies pt
    ensures Outcome(Reply(status, events), pt.entries) == HandlerSpec(h, argv, old(pt.entries), ctx, chain)
  {
    match h
    case HelpCmd =>
      status, events := Help();
    case KernInfoCmd =>
      status, events := 0, KernInfoSpec(ctx.symbols);
    case BacktraceCmd =>
      status, events := Backtrace.Backtrace(ctx.machine, chain);
    case ShowMappingsCmd =>
      status, events := PageTables.ShowMappings(pt, argv);
    case PermCmd =>
      status, events := PageTables.Perm(pt, argv);
  }

  /** What runcmd does with one line: too many tokens, an empty line and an
      unknown name each leave everything as it was; otherwise the named
      handler runs on the whole token list. */
  function RunSpec(line: CString, entries: map<Word, Pte>, ctx: Context, chain: seq<Word>): (r: Outcome)
    ensures r.entries.Keys == entries.Keys
  {
    if |Starts(line)| >= MAXARGS then Outcome(Reply(0, [TooManyArgs]), entries)
    else if |Starts(line)| == 0 then Outcome(Reply(0, []), entries)
    else
      var argv := Tokens(line);
      match FindCommand(argv[0])
      case None => Outcome(Reply(0, [UnknownCommand(argv[0])]), entries)
      case Some(i) => HandlerSpec(Commands[i].handler, argv, entries, ctx, chain)
  }

  /** The strings argv[0..argc) point at once the buffer is tokenized: the
      tokens of the line, in order. */
  method ArgStrings(buf: array<char>, argv: array<Option<nat>>, argc: nat, ghost s0: seq<char>)
    returns (args: seq<CString>)
    requires '\0' in s0 && argc == |Starts(CStr(s0))| && argc <= argv.Length
    requires forall k :: 0 <= k < argc ==> argv[k] == Some(Starts(CStr(s0))[k])
    requires buf[..] == Scrub(s0, |CStr(s0)|)
    ensures args == Tokens(CStr(s0))
  {
    var b := buf[..];
    var ptrs := argv[..argc];
    args := seq(argc, k requires 0 <= k < argc =>
      ReadBack(s0, k);
      CStr(b[ptrs[k].value..]));
    forall k | 0 <= k < argc
      ensures args[k] == Tokens(CStr(s0))[k]
    {
      ReadBack(s0, k);
    }
  }

  /** runcmd: tokenize the buffer in place, then look the first token up and
      invoke its handler with every token. */
  method RunCmd(buf: array<char>, pt: PageTables.PageTable, ctx: Context, ghost chain: seq<Word>)
    returns (status: int, events: seq<Event>)
    requires '\0' in buf[..]
    requires Backtrace.ChainFrom(ctx.machine.mem, ctx.machine.ebp, chain)
    modifies buf, pt
    ensures Outcome(Reply(status, events), pt.entries) == RunSpec(CStr(old(buf[..])), old(pt.entries), ctx, chain)
    ensures var line := CStr(old(buf[..]));
            buf[..] == Scrub(old(buf[..]), if |Starts(line)| >= MAXARGS then Starts(line)[MAXARGS - 1] else |line|)
  {
    ghost var s0 := buf[..];
    ghost var line := CStr(s0);
    var argc, argv, tooMany := Tokenize(buf);
    if tooMany {
      return 0, [TooManyArgs];
    }
    if argc == 0 {
      return 0, [];
    }
    var args := ArgStrings(buf, argv, argc, s0);
    var i := 0;
    while i < |Commands|
      invariant 0 <= i <= |Commands|
      invariant FindCommand(args[0]) == FindFrom(args[0], i)
    {
      if args[0] == Commands[i].name {
        status, events := Invoke(Commands[i].handler, args, pt, ctx, chain);
        return;
      }
      i := i + 1;
    }
    return 0, [UnknownCommand(args[0])];
  }

  /** No handler in the registry asks to leave: every line replies status 0. */
  lemma RunStatusZero(line: CString, entries: map<Word, Pte>, ctx: Context, chain: seq<Word>)
    ensures RunSpec(line, entries, ctx, chain).reply.status == 0
  {
    if 0 < |Starts(line)| < MAXARGS {
      var argv := Tokens(line);
      if FindCommand(argv[0]).Some? {
        var h := Commands[FindCommand(argv[0]).value].handler;
        if h == PermCmd {
          PageTables.PermUnchangedUnlessApplies(entries, argv);
        }
      }
    }
  }

  /** Only `perm` writes page tables: any other line leaves them as they were. */
  lemma OnlyPermWrites(line: CString, entries: map<Word, Pte>, ctx: Context, chain: seq<Word>)
    ensures RunSpec(line, entries, ctx, chain).entries != entries ==>
              0 < |Starts(line)| < MAXARGS && Tokens(line)[0] == "perm"
  {
    if 0 < |Starts(line)| < MAXARGS {
      var argv := Tokens(line);
      if FindCommand(argv[0]).Some? {
        var i := FindCommand(argv[0]).value;
        FindCommandIff(argv[0], i);
      }
    }
  }

  /** A line of separators only does nothing. */
  lemma BlankLineIsNoop(line: CString, entries: map<Word, Pte>, ctx: Context, chain: seq<Word>)
    requires forall j :: 0 <= j < |line| ==> IsSpace(line[j])
    ensures RunSpec(line, entries, ctx, chain) == Outcome(Reply(0, []), entries)
  {
    NoStarts(line);
  }

  /** The line `help` prints the registry. */
  lemma HelpLineRuns(entries: map<Word, Pte>, ctx: Context, chain: seq<Word>)
    ensures RunSpec("help", entries, ctx, chain) == Outcome(Reply(0, HelpSpec()), entries)
  {
    OneWord("help");
    FindCommandIff("help", 0);
  }

  /** A first token that names no registry entry is reported and nothing
      else happens, whatever the other tokens say. */
  lemma UnknownName(line: CString, entries: map<Word, Pte>, ctx: Context, chain: seq<Word>)
    requires 0 < |Starts(line)| < MAXARGS && FindCommand(Tokens(line)[0]).None?
    ensures RunSpec(line, entries, ctx, chain) == Outcome(Reply(0, [UnknownCommand(Tokens(line)[0])]), entries)
  {
  }

  /** For instance, `halt` is not a command. */
  lemma UnknownLine(entries: map<Word, Pte>, ctx: Context, chain: seq<Word>)
    ensures RunSpec("halt", entries, ctx, chain) == Outcome(Reply(0, [UnknownCommand("halt")]), entries)
  {
    OneWord("halt");
    assert FindCommand("halt").None?;
    UnknownName("halt", entries, ctx, chain);
  }

  // ---------------------------------------------------------------- monitor

  /** The session so far: page tables, everything printed, whether a handler
      asked to leave, and how many input lines were read. */
  datatype Session = Session(entries: map<Word, Pte>, events: seq<Event>, exited: bool, consumed: nat)

  /** `events` printed and `n` lines read before the rest of the session. */
  function Then(events: seq<Event>, n: nat, rest: Session): Session {
    Session(rest.entries, events + rest.events, rest.exited, rest.consumed + n)
  }

  /** monitor's loop over the lines readline returns (None for a null line):
      null lines are skipped, every other line goes to runcmd, and the loop
      stops right after a negative status. */
  function MonitorSpec(lines: seq<Option<CString>>, entries: map<Word, Pte>,
                       ctx: Context, chain: seq<Word>): (r: Session)
    ensures r.consumed <= |lines|
    ensures !r.exited ==> r.consumed == |lines|
    decreases |lines|
  {
    if |lines| == 0 then Session(entries, [], false, 0)
    else match lines[0]
      case None => Then([], 1, MonitorSpec(lines[1..], entries, ctx, chain))
      case Some(line) =>
        var o := RunSpec(line, entries, ctx, chain);
        if o.reply.status < 0 then Session(o.entries, o.reply.events, true, 1)
        else Then(o.reply.events, 1, MonitorSpec(lines[1..], o.entries, ctx, chain))
  }

  /** One step of the session: the line at index i. */
  lemma MonitorUnfold(lines: seq<Option<CString>>, i: nat, entries: map<Word, Pte>,
                      ctx: Context, chain: seq<Word>)
    requires i < |lines|
    ensures lines[i].None? ==>
              MonitorSpec(lines[i..], entries, ctx, chain) == Then([], 1, MonitorSpec(lines[i + 1..], entries, ctx, chain))
    ensures lines[i].Some? && RunSpec(lines[i].value, entries, ctx, chain).reply.status < 0 ==>
              var o := RunSpec(lines[i].value, entries, ctx, chain);
              MonitorSpec(lines[i..], entries, ctx, chain) == Session(o.entries, o.reply.events, true, 1)
    ensures lines[i].Some? && RunSpec(lines[i].value, entries, ctx, chain).reply.status >= 0 ==>
              var o := RunSpec(lines[i].value, entries, ctx, chain);
              MonitorSpec(lines[i..], entries, ctx, chain) == Then(o.reply.events, 1, MonitorSpec(lines[i + 1..], o.entries, ctx, chain))
  {
    assert lines[i..][0] == lines[i] && lines[i..][1..] == lines[i + 1..];
  }

  lemma ThenThen(e1: seq<Event>, n: nat, e2: seq<Event>, m: nat, s: Session)
    ensures Then(e1, n, Then(e2, m, s)) == Then(e1 + e2, n + m, s)
  {
    assert e1 + (e2 + s.events) == (e1 + e2) + s.events;
  }

  /** The NUL-terminated buffer readline hands over for a line. */
  method LineBuffer(line: CString) returns (buf: array<char>)
    ensures fresh(buf) && '\0' in buf[..] && CStr(buf[..]) == line
  {
    buf := new char[|line| + 1](j requires 0 <= j <= |line| => if j < |line| then line[j] else '\0');
    assert buf[..] == line + ['\0'] && buf[|line|] == '\0';
    CLenAt(buf[..], |line|);
  }

  /** monitor: read a line, run it, stop on a negative status. The input is
      the finite list of lines readline would return. */
  method Monitor(lines: seq<Option<CString>>, pt: PageTables.PageTable, ctx: Context, ghost chain: seq<Word>)
    returns (events: seq<Event>, exited: bool, consumed: nat)
    requires Backtrace.ChainFrom(ctx.machine.mem, ctx.machine.ebp, chain)
    modifies pt
    ensures Session(pt.entries, events, exited, consumed) == MonitorSpec(lines, old(pt.entries), ctx, chain)
  {
    ghost var e0 := pt.entries;
    events := [];
    var i := 0;
    while i < |lines|
      invariant 0 <= i <= |lines|
      invariant MonitorSpec(lines, e0, ctx, chain) == Then(events, i, MonitorSpec(lines[i..], pt.entries, ctx, chain))
    {
      MonitorUnfold(lines, i, pt.entries, ctx, chain);
      if lines[i].Some? {
        var buf := LineBuffer(lines[i].value);
        ghost var before := pt.entries;
        var status, out := RunCmd(buf, pt, ctx, chain);
        assert Outcome(Reply(status, out), pt.entries) == RunSpec(lines[i].value, before, ctx, chain);
        ThenThen(events, i, out, 1, MonitorSpec(lines[i + 1..], pt.entries, ctx, chain));
        if status < 0 {
          return events + out, true, i + 1;
        }
        events := events + out;
      } else {
        ThenThen(events, i, [], 1, MonitorSpec(lines[i + 1..], pt.entries, ctx, chain));
        assert events + [] == events;
      }
      i := i + 1;
    }
    assert lines[i..] == [];
    return events, false, i;
  }

  /** With this registry the monitor never leaves: it reads every line. */
  lemma {:induction false} MonitorNeverExits(lines: seq<Option<CString>>, entries: map<Word, Pte>,
                                             ctx: Context, chain: seq<Word>)
    ensures !MonitorSpec(lines, entries, ctx, chain).exited
    ensures MonitorSpec(lines, entries, ctx, chain).consumed == |lines|
    decreases |lines|
  {
    if |lines| > 0 {
      match lines[0]
      case None =>
        MonitorNeverExits(lines[1..], entries, ctx, chain);
      case Some(line) =>
        RunStatusZero(line, entries, ctx, chain);
        MonitorNeverExits(lines[1..], RunSpec(line, entries, ctx, chain).entries, ctx, chain);
    }
  }
}
