/** What whole runs of the mapper do: invariants of every reachable state, the object text a
    call run assembles, independence from where the name arrives, and streaming of values. */
module PegMapperRuns {
  import opened Wrappers
  import opened Sequences
  import opened ChatMessage
  import opened JsonStrings
  import opened PegMapper
  import QuoteNormalizer
  import QuoteStreaming
  import QuoteMeaning

  lemma {:induction false} RunAppend(st: State, a: seq<Event>, b: seq<Event>)
    ensures Run(st, a + b) == Run(Run(st, a), b)
    decreases |a|
  {
    hide Step;
    if a == [] {
      assert a + b == b;
    } else {
      assert (a + b)[1..] == a[1..] + b;
      RunAppend(Step(st, a[0]), a[1..], b);
    }
  }

  lemma RunOne(st: State, ev: Event)
    ensures Run(st, [ev]) == Step(st, ev)
  {
    hide Step;
    assert Run(Step(st, ev), []) == Step(st, ev);
    assert [ev][1..] == [];
  }

  // ---- Every reachable state --------------------------------------------------------

  /** A pending call is what `current_tool` points at, and it has no name and no arguments
      yet; a pointer into the message points at its last call. */
  predicate Consistent(st: State) {
    && (st.pending.Some? ==>
          st.current == AtPending && st.pending.value.name == "" && st.pending.value.arguments == "")
    && (st.current.AtCall? ==> st.current.index + 1 == |st.msg.calls|)
  }

  /** One event adds at most one call, changes at most the last one, and never removes any. */
  predicate OnlyLastChanges(before: seq<ToolCall>, after: seq<ToolCall>) {
    && |before| <= |after| <= |before| + 1
    && forall i :: 0 <= i < |before| - 1 ==> after[i] == before[i]
  }

  lemma StepKeeps(st: State, ev: Event)
    requires Consistent(st)
    ensures Consistent(Step(st, ev))
    ensures OnlyLastChanges(st.msg.calls, Step(st, ev).msg.calls)
  {
    hide EscapeInner, CloseBraces, QuoteNormalizer.Normalize, TrimTrailing, Trim, Unquote;
  }

  lemma {:induction false} RunKeeps(st: State, evs: seq<Event>)
    requires Consistent(st)
    ensures Consistent(Run(st, evs))
    decreases |evs|
  {
    hide Step, Consistent;
    if evs != [] {
      StepKeeps(st, evs[0]);
      RunKeeps(Step(st, evs[0]), evs[1..]);
    }
  }

  /** The flush at the end of `from_ast` never has a named call to flush: in every reachable
      state the calls of the message are final, and `Finish` only drops blank reasoning. */
  lemma FlushNeverFires(msg: Message, evs: seq<Event>)
    ensures var st := Run(INITIAL.(msg := msg), evs);
            Finish(st).msg.calls == st.msg.calls && Finish(st).pending == st.pending
  {
    RunKeeps(INITIAL.(msg := msg), evs);
  }

  // ---- The object a call run assembles ----------------------------------------------

  /** An argument: a name and either a string value or the text of a scalar or container. */
  datatype Arg = StringArg(name: string, value: string) | ContainerArg(name: string, text: string)

  function ArgEvents(arg: Arg): seq<Event> {
    match arg
    case StringArg(n, v) => [ArgOpen, ArgName(n), ArgString(v), ArgClose]
    case ContainerArg(n, t) => [ArgOpen, ArgName(n), ArgValue(t), ArgClose]
  }

  function AllEvents(args: seq<Arg>): seq<Event> {
    if args == [] then [] else ArgEvents(args[0]) + AllEvents(args[1..])
  }

  function ValueText(arg: Arg): string {
    match arg
    case StringArg(_, v) => Dump(v)
    case ContainerArg(_, t) => QuoteNormalizer.Normalize(t)
  }

  function MemberText(arg: Arg): string {
    Dump(Trim(arg.name)) + ":" + ValueText(arg)
  }

  function MembersText(args: seq<Arg>): string {
    if args == [] then ""
    else if |args| == 1 then MemberText(args[0])
    else MemberText(args[0]) + "," + MembersText(args[1..])
  }

  /** The JSON object of the arguments. */
  function ObjectText(args: seq<Arg>): string {
    "{" + MembersText(args) + "}"
  }

  /** A named call is being filled and no quote is open. */
  predicate Filling(st: State) {
    && st.pending.None? && st.current.AtCall? && st.current.index < |st.msg.calls|
    && Tool(st).name != "" && Tool(st).arguments != "" && !st.quotePending
  }

  function Extended(st: State, text: string, more: nat): State
    requires Filling(st)
  {
    SetTool(st, Tool(st).(arguments := Tool(st).arguments + text)).(argCount := st.argCount + more)
  }

  function Comma(st: State): string {
    if st.argCount > 0 then "," else ""
  }

  lemma NameStep(st: State, text: string)
    requires Filling(st)
    ensures Step(st, ArgName(text)) == Extended(st, Comma(st) + (Dump(Trim(text)) + ":"), 1)
    ensures Filling(Step(st, ArgName(text)))
  {
    hide Dump, Trim;
  }

  lemma StringSteps(st: State, text: string)
    requires Filling(st)
    ensures Step(Step(st, ArgString(text)), ArgClose) == Extended(st, Dump(text), 0)
  {
    hide EscapeInner;
    var s := Step(st, ArgString(text));
    assert s == Extended(st, "\"" + EscapeInner(text), 0).(quotePending := true);
    assert (Tool(st).arguments + ("\"" + EscapeInner(text))) + "\"" == Tool(st).arguments + Dump(text);
  }

  lemma ContainerSteps(st: State, text: string)
    requires Filling(st)
    ensures Step(Step(st, ArgValue(text)), ArgClose) == Extended(st, QuoteNormalizer.Normalize(text), 0)
  {
    hide QuoteNormalizer.Normalize;
  }

  lemma OneArg(st: State, arg: Arg)
    requires Filling(st)
    ensures Run(st, ArgEvents(arg)) == Extended(st, Comma(st) + MemberText(arg), 1)
  {
    hide Dump, QuoteNormalizer.Normalize, Trim, Run, Extended, Step, Filling;
    RunFour(st, ArgEvents(arg));
    assert Step(st, ArgOpen) == st by { OpenStep(st); }
    NameStep(st, arg.name);
    var named := Step(st, ArgName(arg.name));
    match arg {
      case StringArg(_, v) => StringSteps(named, v);
      case ContainerArg(_, t) => ContainerSteps(named, t);
    }
    ExtendedTwice(st, Comma(st) + (Dump(Trim(arg.name)) + ":"), ValueText(arg), 1, 0);
    assert (Comma(st) + (Dump(Trim(arg.name)) + ":")) + ValueText(arg) == Comma(st) + MemberText(arg);
  }

  lemma OpenStep(st: State)
    requires Filling(st)
    ensures Step(st, ArgOpen) == st
  {
  }

  lemma RunFour(st: State, evs: seq<Event>)
    requires |evs| == 4
    ensures Run(st, evs) == Step(Step(Step(Step(st, evs[0]), evs[1]), evs[2]), evs[3])
  {
    hide Step;
    assert evs[1..][1..] == evs[2..] && evs[2..][1..] == evs[3..] && evs[3..][1..] == [];
    var s1 := Step(st, evs[0]);
    var s2 := Step(s1, evs[1]);
    var s3 := Step(s2, evs[2]);
    assert Run(s3, evs[3..]) == Run(Step(s3, evs[3]), []);
    assert Run(s2, evs[2..]) == Run(s3, evs[3..]);
    assert Run(s1, evs[1..]) == Run(s2, evs[2..]);
  }

  lemma ExtendedTwice(st: State, a: string, b: string, m: nat, n: nat)
    requires Filling(st)
    ensures Filling(Extended(st, a, m)) && Extended(Extended(st, a, m), b, n) == Extended(st, a + b, m + n)
  {
    assert (Tool(st).arguments + a) + b == Tool(st).arguments + (a + b);
  }

  lemma {:induction false} AllArgs(st: State, args: seq<Arg>)
    requires Filling(st) && args != []
    ensures Run(st, AllEvents(args)) == Extended(st, Comma(st) + MembersText(args), |args|)
    decreases |args|
  {
    hide Run, ArgEvents, MemberText, Extended;
    var first := Extended(st, Comma(st) + MemberText(args[0]), 1);
    RunAppend(st, ArgEvents(args[0]), AllEvents(args[1..]));
    OneArg(st, args[0]);
    if |args| == 1 {
      NoMoreEvents(first);
      assert args[1..] == [];
    } else {
      FillingGoesOn(st, Comma(st) + MemberText(args[0]));
      AllArgs(first, args[1..]);
      ExtendedTwice(st, Comma(st) + MemberText(args[0]), "," + MembersText(args[1..]), 1, |args| - 1);
      assert (Comma(st) + MemberText(args[0])) + ("," + MembersText(args[1..])) == Comma(st) + MembersText(args);
    }
  }

  lemma NoMoreEvents(st: State)
    ensures Run(st, []) == st
  {
  }

  lemma FillingGoesOn(st: State, text: string)
    requires Filling(st)
    ensures Filling(Extended(st, text, 1)) && Extended(st, text, 1).argCount > 0
  {
  }

  // ---- Balanced braces --------------------------------------------------------------

  /** Every container value normalizes to text with balanced braces. */
  ghost predicate BalancedArgs(args: seq<Arg>) {
    forall i :: 0 <= i < |args| && args[i].ContainerArg? ==> Neutral(QuoteNormalizer.Normalize(args[i].text))
  }

  /** In particular the Python (or JSON) text of a value tree does. */
  lemma TreeTextIsBalanced(d: QuoteMeaning.Dialect, v: QuoteMeaning.Value)
    requires QuoteMeaning.WellFormed(v)
    ensures Neutral(QuoteNormalizer.Normalize(QuoteMeaning.Text(d, v)))
  {
    QuoteMeaning.MeaningPreserved(d, v);
    TreeNeutral(v);
  }

  lemma MemberNeutral(arg: Arg)
    requires arg.ContainerArg? ==> Neutral(QuoteNormalizer.Normalize(arg.text))
    ensures Neutral(MemberText(arg))
  {
    hide Neutral, Dump, QuoteNormalizer.Normalize, Trim;
    DumpNeutral(Trim(arg.name));
    NoBracesNeutral(":");
    NeutralAppend(Dump(Trim(arg.name)), ":");
    if arg.StringArg? {
      DumpNeutral(arg.value);
    }
    NeutralAppend(Dump(Trim(arg.name)) + ":", ValueText(arg));
  }

  lemma {:induction false} MembersNeutral(args: seq<Arg>)
    requires BalancedArgs(args)
    ensures Neutral(MembersText(args))
    decreases |args|
  {
    hide Neutral, MemberText, QuoteNormalizer.Normalize;
    if args == [] {
      NoBracesNeutral("");
    } else {
      MemberNeutral(args[0]);
      if |args| > 1 {
        MembersNeutral(args[1..]);
        NoBracesNeutral(",");
        NeutralAppend(MemberText(args[0]), ",");
        NeutralAppend(MemberText(args[0]) + ",", MembersText(args[1..]));
      }
    }
  }

  /** Before the close one brace is open, so the close adds exactly the last one. */
  lemma OpenObjectCloses(args: seq<Arg>)
    requires BalancedArgs(args)
    ensures BraceDepth(ObjectText(args)) == 0
    ensures CloseBraces("{" + MembersText(args)) == ObjectText(args)
  {
    hide MembersText, ScanText;
    MembersNeutral(args);
    BracesScanned(0, MembersText(args));
    assert Repeat('}', 1) == "}";
  }

  // ---- Assembly ---------------------------------------------------------------------

  function FillingState(st: State, call: ToolCall, count: nat): State {
    State(st.msg.(calls := st.msg.calls + [call]), None, AtCall(|st.msg.calls|), count, false, "")
  }

  lemma OpenedAndNamed(st: State, name: string)
    requires TrimTrailing(name) != ""
    ensures Step(Step(st, ToolOpen), ToolName(name)) == FillingState(st, ToolCall(TrimTrailing(name), "{", ""), 0)
  {
    hide TrimTrailing;
  }

  lemma FillingExtended(st: State, call: ToolCall, text: string, count: nat)
    requires call.name != "" && call.arguments != ""
    ensures Filling(FillingState(st, call, 0))
    ensures Extended(FillingState(st, call, 0), text, count)
         == FillingState(st, call.(arguments := call.arguments + text), count)
  {
  }

  /** The state a named call run reaches before its close event. */
  lemma NamedRun(st: State, name: string, args: seq<Arg>)
    requires TrimTrailing(name) != ""
    ensures Run(st, [ToolOpen, ToolName(name)] + AllEvents(args))
         == FillingState(st, ToolCall(TrimTrailing(name), "{" + MembersText(args), ""), |args|)
  {
    hide MembersText, AllEvents, TrimTrailing, Step, Filling, Extended, FillingState, Run;
    RunAppend(st, [ToolOpen, ToolName(name)], AllEvents(args));
    RunTwo(st, ToolOpen, ToolName(name));
    OpenedAndNamed(st, name);
    var call := ToolCall(TrimTrailing(name), "{", "");
    var s := FillingState(st, call, 0);
    if args == [] {
      NoArgs();
      NoMoreEvents(s);
    } else {
      FillingExtended(st, call, MembersText(args), |args|);
      AllArgs(s, args);
      assert Comma(s) + MembersText(args) == MembersText(args) by { NoCommaYet(st, call); }
    }
  }

  lemma NoCommaYet(st: State, call: ToolCall)
    ensures Comma(FillingState(st, call, 0)) == ""
  {
  }

  lemma NoArgs()
    ensures AllEvents([]) == [] && MembersText([]) == "" && "{" + "" == "{"
  {
  }

  lemma RunTwo(st: State, e: Event, f: Event)
    ensures Run(st, [e, f]) == Step(Step(st, e), f)
  {
    hide Step;
    assert [e, f] == [e] + [f];
    RunAppend(st, [e], [f]);
    RunOne(st, e);
    RunOne(Step(st, e), f);
  }

  /** A call run appends exactly one call, whose arguments are the JSON object of its
      arguments with no brace left open; the rest of the message is untouched. */
  lemma CallAssembled(st: State, name: string, args: seq<Arg>)
    requires TrimTrailing(name) != "" && BalancedArgs(args)
    ensures Run(st, [ToolOpen, ToolName(name)] + AllEvents(args) + [ToolClose]).msg
         == st.msg.(calls := st.msg.calls + [ToolCall(TrimTrailing(name), ObjectText(args), "")])
    ensures BraceDepth(ObjectText(args)) == 0
  {
    hide MembersText, AllEvents, CloseBraces, TrimTrailing, BraceDepth, Run, ObjectText;
    var evs := [ToolOpen, ToolName(name)] + AllEvents(args);
    RunAppend(st, evs, [ToolClose]);
    NamedRun(st, name, args);
    RunOne(Run(st, evs), ToolClose);
    OpenObjectCloses(args);
  }

  // ---- Where the name arrives -------------------------------------------------------

  predicate Structural(ev: Event) {
    ev.ToolOpen? || ev.ToolClose? || ev.ToolName?
  }

  predicate NoStructure(evs: seq<Event>) {
    forall i :: 0 <= i < |evs| ==> !Structural(evs[i])
  }

  predicate StartsArguments(ev: Event) {
    ev.ArgName? || (ev.ToolArgs? && StartsObject(TrimTrailing(ev.text)))
  }

  /** No value is written before an argument name (or a whole object) has started the arguments. */
  predicate ArgumentsFirst(started: bool, evs: seq<Event>)
    decreases |evs|
  {
    evs == [] ||
    (((evs[0].ArgValue? || evs[0].ArgString?) ==> started) &&
     ArgumentsFirst(started || StartsArguments(evs[0]), evs[1..]))
  }

  /** The state of a still unnamed call, and the state the same events reach when the call was
      named at once: what is buffered in the one is in the call in the other. */
  predicate Mirrors(u: State, n: State, name: string) {
    && u.current == AtPending && u.pending.Some? && u.pending.value.name == "" && u.pending.value.arguments == ""
    && (u.buffer == "" ==> !u.quotePending)
    && n == Step(u, ToolName(name))
  }

  /** Both states see the same counters, and the same argument text once there is one. */
  lemma MirroredFields(u: State, n: State, name: string)
    requires TrimTrailing(name) != "" && Mirrors(u, n, name)
    ensures Attached(u) && Attached(n) && Args(u) == u.buffer
    ensures Args(n) == if u.buffer == "" then "{" else u.buffer
    ensures n.argCount == u.argCount && n.quotePending == u.quotePending
  {
    hide TrimTrailing;
  }

  lemma MirroredWrite(u: State, n: State, name: string, args: string, count: nat, quote: bool)
    requires TrimTrailing(name) != "" && Mirrors(u, n, name) && args != "" && Attached(u) && Attached(n)
    ensures Mirrors(SetArgs(u, args).(argCount := count, quotePending := quote),
                    SetArgs(n, args).(argCount := count, quotePending := quote), name)
    ensures SetArgs(u, args).buffer == args
    ensures forall st | st == u || st == n ::
              SetArgs(st, args).argCount == u.argCount && SetArgs(st, args).quotePending == u.quotePending
  {
    hide TrimTrailing;
  }

  lemma MirroredOther(u: State, n: State, name: string, ev: Event)
    requires TrimTrailing(name) != "" && Mirrors(u, n, name)
    requires ev.Reasoning? || ev.Content? || ev.ToolId? || ev.ArgOpen? || ev.Untagged?
    ensures Mirrors(Step(u, ev), Step(n, ev), name) && Step(u, ev).buffer == u.buffer
  {
    hide TrimTrailing, Unquote;
  }

  lemma StepMirrors(u: State, n: State, name: string, ev: Event)
    requires TrimTrailing(name) != ""
    requires Mirrors(u, n, name) && !Structural(ev)
    requires (ev.ArgValue? || ev.ArgString?) ==> u.buffer != ""
    ensures Mirrors(Step(u, ev), Step(n, ev), name)
    ensures Step(u, ev).buffer != "" <==> u.buffer != "" || StartsArguments(ev)
  {
    hide Dump, QuoteNormalizer.Normalize, Trim, Unquote, TrimTrailing, Mirrors, SetArgs, EscapeInner, Args;
    MirroredFields(u, n, name);
    match ev
    case ArgName(text) =>
      var start := if u.buffer == "" then "{" else u.buffer;
      var entry := (if u.argCount > 0 then "," else "") + (Dump(Trim(text)) + ":");
      MirroredWrite(u, n, name, start + entry, u.argCount + 1, u.quotePending);
    case ArgValue(text) =>
      MirroredWrite(u, n, name, u.buffer + QuoteNormalizer.Normalize(text), u.argCount, u.quotePending);
    case ArgString(text) =>
      var quote := if text == "" || !u.quotePending then "\"" else "";
      MirroredWrite(u, n, name, u.buffer + (quote + EscapeInner(text)), u.argCount, true);
    case ArgClose =>
      if u.quotePending {
        PendingQuoteHasText(u, n, name);
        MirroredWrite(u, n, name, u.buffer + "\"", u.argCount, false);
      }
    case ToolArgs(text) =>
      if StartsArguments(ev) {
        MirroredWrite(u, n, name, TrimTrailing(text), u.argCount, u.quotePending);
      }
    case _ => MirroredOther(u, n, name, ev);
  }

  lemma PendingQuoteHasText(u: State, n: State, name: string)
    requires Mirrors(u, n, name) && u.quotePending
    ensures u.buffer != ""
  {
    hide Step;
  }

  lemma {:induction false} RunMirrors(u: State, n: State, name: string, evs: seq<Event>)
    requires TrimTrailing(name) != ""
    requires Mirrors(u, n, name) && NoStructure(evs) && ArgumentsFirst(u.buffer != "", evs)
    ensures Mirrors(Run(u, evs), Run(n, evs), name)
    decreases |evs|
  {
    hide Step, Mirrors, TrimTrailing;
    if evs != [] {
      StepMirrors(u, n, name, evs[0]);
      RunMirrors(Step(u, evs[0]), Step(n, evs[0]), name, evs[1..]);
    }
  }

  /** The buffer makes the position of the name irrelevant: it may arrive after any part of
      the arguments and the state reached is the one with the name first. */
  lemma NameAnywhere(st: State, name: string, a: seq<Event>, b: seq<Event>)
    requires TrimTrailing(name) != ""
    requires NoStructure(a) && ArgumentsFirst(false, a)
    ensures Run(st, [ToolOpen] + a + [ToolName(name)] + b) == Run(st, [ToolOpen, ToolName(name)] + a + b)
  {
    hide Mirrors, TrimTrailing, Run;
    var u := Step(st, ToolOpen);
    var n := Step(u, ToolName(name));
    assert Mirrors(u, n, name) by { OpenedMirrors(st, name); }
    RunMirrors(u, n, name, a);
    RunOne(st, ToolOpen);
    RunAppend(st, [ToolOpen], a);
    RunAppend(st, [ToolOpen] + a, [ToolName(name)]);
    RunAppend(st, [ToolOpen] + a + [ToolName(name)], b);
    RunOne(Run(u, a), ToolName(name));
    RunTwo(st, ToolOpen, ToolName(name));
    RunAppend(st, [ToolOpen, ToolName(name)], a);
    RunAppend(st, [ToolOpen, ToolName(name)] + a, b);
    MirrorsNamed(Run(u, a), Run(n, a), name);
  }

  lemma OpenedMirrors(st: State, name: string)
    ensures Mirrors(Step(st, ToolOpen), Step(Step(st, ToolOpen), ToolName(name)), name)
  {
    hide TrimTrailing;
  }

  lemma MirrorsNamed(u: State, n: State, name: string)
    requires Mirrors(u, n, name)
    ensures n == Step(u, ToolName(name))
  {
    hide Step;
  }

  lemma {:induction false} ArgEventsInOrder(args: seq<Arg>, started: bool)
    ensures NoStructure(AllEvents(args)) && ArgumentsFirst(started, AllEvents(args))
    decreases |args|
  {
    if args != [] {
      ArgEventsInOrder(args[1..], true);
      ArgumentInOrder(args[0], AllEvents(args[1..]), started);
    }
  }

  lemma ArgumentInOrder(arg: Arg, rest: seq<Event>, started: bool)
    requires ArgumentsFirst(true, rest)
    ensures ArgumentsFirst(started, ArgEvents(arg) + rest)
  {
    var evs := ArgEvents(arg);
    var all := evs + rest;
    assert all[4..] == rest && ArgumentsFirst(true, all[4..]);
    assert all[3..][0] == evs[3] && all[3..][1..] == all[4..] && ArgumentsFirst(true, all[3..]);
    assert all[2..][0] == evs[2] && all[2..][1..] == all[3..] && ArgumentsFirst(true, all[2..]);
    assert all[1..][0] == evs[1] && all[1..][1..] == all[2..] && ArgumentsFirst(started, all[1..]);
  }

  lemma {:induction false} OrderOfPrefix(started: bool, a: seq<Event>, b: seq<Event>)
    requires ArgumentsFirst(started, a + b)
    ensures ArgumentsFirst(started, a)
    decreases |a|
  {
    hide StartsArguments;
    if a != [] {
      assert (a + b)[0] == a[0] && (a + b)[1..] == a[1..] + b;
      OrderOfPrefix(started || StartsArguments(a[0]), a[1..], b);
    }
  }

  /** Wherever the name event falls between open and close, the run appends the same call. */
  lemma CallAssembledAnywhere(st: State, name: string, args: seq<Arg>, k: nat)
    requires TrimTrailing(name) != "" && BalancedArgs(args)
    requires k <= |AllEvents(args)|
    ensures Run(st, [ToolOpen] + AllEvents(args)[..k] + [ToolName(name)] + AllEvents(args)[k..] + [ToolClose]).msg
         == st.msg.(calls := st.msg.calls + [ToolCall(TrimTrailing(name), ObjectText(args), "")])
  {
    hide Run, ObjectText, BalancedArgs, TrimTrailing, AllEvents, ArgumentsFirst;
    var evs := AllEvents(args);
    ArgEventsInOrder(args, false);
    assert evs == evs[..k] + evs[k..];
    OrderOfPrefix(false, evs[..k], evs[k..]);
    NameAnywhere(st, name, evs[..k], evs[k..] + [ToolClose]);
    CallAssembled(st, name, args);
    Assoc([ToolOpen] + evs[..k] + [ToolName(name)], evs[k..], [ToolClose]);
    Assoc([ToolOpen, ToolName(name)], evs[..k], evs[k..]);
    Assoc([ToolOpen, ToolName(name)] + evs[..k], evs[k..], [ToolClose]);
  }

  /** What becomes of arguments that arrive whole. */
  function WholeArguments(text: string): string {
    var t := TrimTrailing(text);
    if t != "" && t[0] == '{' then CloseBraces(t) else "{}"
  }

  /** Arguments that arrive whole: what is missing of its braces is added; a text that starts no
      object is dropped. */
  lemma WholeAssembled(st: State, name: string, text: string)
    requires TrimTrailing(name) != ""
    ensures Run(st, [ToolOpen, ToolName(name), ToolArgs(text), ToolClose]).msg
         == st.msg.(calls := st.msg.calls + [ToolCall(TrimTrailing(name), WholeArguments(text), "")])
  {
    hide TrimTrailing, CloseBraces, FillingState, Step, Run;
    RunFour(st, [ToolOpen, ToolName(name), ToolArgs(text), ToolClose]);
    OpenedAndNamed(st, name);
    FilledWhole(st, ToolCall(TrimTrailing(name), "{", ""), text);
    OpenBraceCloses();
  }

  lemma FilledWhole(st: State, call: ToolCall, text: string)
    requires call.name != ""
    ensures var args := if StartsObject(TrimTrailing(text)) then TrimTrailing(text) else call.arguments;
            && Step(Step(FillingState(st, call, 0), ToolArgs(text)), ToolClose).msg
            == st.msg.(calls := st.msg.calls + [call.(arguments := CloseBraces(args))])
  {
    hide TrimTrailing, CloseBraces, StartsObject;
  }

  lemma OpenBraceCloses()
    ensures CloseBraces("{") == "{}"
  {
    assert "{"[1..] == "" && BraceDepth("{") == 1;
    assert Repeat('}', 1) == "}";
  }

  lemma WholeEitherWay(st: State, name: string, text: string)
    requires TrimTrailing(name) != ""
    ensures Run(st, [ToolOpen, ToolArgs(text), ToolName(name), ToolClose])
         == Run(st, [ToolOpen, ToolName(name), ToolArgs(text), ToolClose])
  {
    hide Run, TrimTrailing;
    var a := [ToolArgs(text)];
    assert a[1..] == [];
    NameAnywhere(st, name, a, [ToolClose]);
    assert [ToolOpen] + a + [ToolName(name)] + [ToolClose] == [ToolOpen, ToolArgs(text), ToolName(name), ToolClose];
    assert [ToolOpen, ToolName(name)] + a + [ToolClose] == [ToolOpen, ToolName(name), ToolArgs(text), ToolClose];
  }

  // ---- How many calls ---------------------------------------------------------------

  predicate HasName(evs: seq<Event>) {
    exists i :: 0 <= i < |evs| && evs[i].ToolName?
  }

  predicate InsideCall(evs: seq<Event>) {
    forall i :: 0 <= i < |evs| ==> !evs[i].ToolOpen? && !evs[i].ToolClose?
  }

  predicate InCall(st: State) {
    Consistent(st) && Attached(st)
  }

  lemma StepInCall(st: State, ev: Event)
    requires InCall(st) && !ev.ToolOpen? && !ev.ToolClose?
    ensures InCall(Step(st, ev))
    ensures Step(st, ev).pending.Some? <==> st.pending.Some? && !ev.ToolName?
    ensures |Step(st, ev).msg.calls| == |st.msg.calls| + if st.pending.Some? && ev.ToolName? then 1 else 0
  {
    hide EscapeInner, QuoteNormalizer.Normalize, Trim, Unquote, TrimTrailing;
  }

  lemma {:induction false} RunInCall(st: State, evs: seq<Event>)
    requires InCall(st) && InsideCall(evs)
    ensures var end := Run(st, evs);
            InCall(end)
            && |end.msg.calls| == |st.msg.calls| + (if st.pending.Some? && HasName(evs) then 1 else 0)
    decreases |evs|
  {
    hide Step, InCall;
    if evs != [] {
      StepInCall(st, evs[0]);
      RunInCall(Step(st, evs[0]), evs[1..]);
      if HasName(evs[1..]) {
        var i :| 0 <= i < |evs[1..]| && evs[1..][i].ToolName?;
        assert evs[i + 1].ToolName?;
      }
      if HasName(evs) && !evs[0].ToolName? {
        var i :| 0 <= i < |evs| && evs[i].ToolName?;
        assert evs[1..][i - 1].ToolName?;
      }
    }
  }

  lemma CloseKeepsCount(st: State)
    requires InCall(st)
    ensures |Step(st, ToolClose).msg.calls| == |st.msg.calls|
  {
    hide CloseBraces;
  }

  /** Between an open and a close, one call is added if a name event arrives, however often,
      and none otherwise: a call without a name event is discarded. */
  lemma OneCallPerName(st: State, evs: seq<Event>)
    requires Consistent(st) && InsideCall(evs)
    ensures |Run(st, [ToolOpen] + evs + [ToolClose]).msg.calls|
         == |st.msg.calls| + if HasName(evs) then 1 else 0
  {
    hide Run, HasName;
    var u := Step(st, ToolOpen);
    RunOne(st, ToolOpen);
    RunAppend(st, [ToolOpen], evs);
    RunAppend(st, [ToolOpen] + evs, [ToolClose]);
    RunInCall(u, evs);
    RunOne(Run(u, evs), ToolClose);
    CloseKeepsCount(Run(u, evs));
  }

  // ---- Streaming a value ------------------------------------------------------------

  /** While a container value is still being read, the arguments only grow exactly when the
      cut is safe for the normalizer. */
  lemma ContainerStreams(st: State, text: string, k: nat)
    requires Filling(st) && k <= |text|
    ensures Tool(Step(st, ArgValue(text[..k]))).arguments <= Tool(Step(st, ArgValue(text))).arguments
       <==> QuoteStreaming.SafeCut(QuoteNormalizer.Outside, false, text, k)
  {
    hide QuoteNormalizer.Normalize, QuoteStreaming.SafeCut;
    QuoteStreaming.MonotoneExactly(text, k);
    QuoteStreaming.PrefixAppend(
      Tool(st).arguments, QuoteNormalizer.Normalize(text[..k]), QuoteNormalizer.Normalize(text));
  }

  /** While a string value is still being read, the arguments always only grow. */
  lemma StringStreams(st: State, text: string, k: nat)
    requires Filling(st) && k <= |text|
    ensures Tool(Step(st, ArgString(text[..k]))).arguments <= Tool(Step(st, ArgString(text))).arguments
  {
    hide EscapeInner;
    assert text == text[..k] + text[k..];
    EscapeInnerAppend(text[..k], text[k..]);
    var args := Tool(st).arguments;
    assert Tool(Step(st, ArgString(text))).arguments
        == Tool(Step(st, ArgString(text[..k]))).arguments + EscapeInner(text[k..]);
  }
}
