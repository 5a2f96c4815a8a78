/** Whole event runs of the tool-call mapper: which of them are defined, how the call of a run
    is named, and the message that comes out of a list of calls. */
module PegMapperCalls {
  import opened Sequences
  import opened Ascii
  import opened ChatMessage
  import opened JsonStrings
  import opened PegMapper
  import opened PegMapperRuns

  // ---- Defined runs -----------------------------------------------------------------

  /** Where the events so far have left `current_tool`. */
  datatype Phase = NoTool | Unnamed | NamedTool | Gone

  function Next(p: Phase, ev: Event): Phase {
    if ev.ToolOpen? then Unnamed
    else if p == Unnamed && ev.ToolName? then NamedTool
    else if p == Unnamed && ev.ToolClose? then Gone
    else p
  }

  /** Events that follow the pointer whatever came before. */
  predicate UsesTool(ev: Event) {
    ev.ToolId? || ev.ToolName? || ev.ArgName? || ev.ArgValue? || ev.ArgString? || ev.ToolClose?
    || (ev.ToolArgs? && StartsObject(TrimTrailing(ev.text)))
  }

  /** Between the close of a call that got no name and the next open, no event uses the tool. */
  predicate NoUse(p: Phase, evs: seq<Event>)
    decreases |evs|
  {
    evs == [] || (!(p == Gone && UsesTool(evs[0])) && NoUse(Next(p, evs[0]), evs[1..]))
  }

  predicate InPhase(p: Phase, st: State) {
    match p
    case NoTool => st.current == Nowhere && st.pending.None?
    case Unnamed => st.current == AtPending && st.pending.Some?
    case NamedTool => st.current.AtCall? && st.current.index < |st.msg.calls| && st.pending.None?
    case Gone => st.current == AtPending && st.pending.None? && !st.quotePending
  }

  lemma PhaseStep(p: Phase, st: State, ev: Event)
    requires InPhase(p, st)
    ensures Defined(st, ev) <==> !(p == Gone && UsesTool(ev))
    ensures Defined(st, ev) ==> InPhase(Next(p, ev), Step(st, ev))
  {
    hide EscapeInner, QuoteNormalizer.Normalize, Trim, Unquote, TrimTrailing, CloseBraces, Dump;
  }

  lemma {:induction false} PhaseRun(p: Phase, st: State, evs: seq<Event>)
    requires InPhase(p, st)
    ensures RunDefined(st, evs) <==> NoUse(p, evs)
    decreases |evs|
  {
    hide InPhase, Defined, Step, UsesTool, Next;
    if evs != [] {
      PhaseStep(p, st, evs[0]);
      if Defined(st, evs[0]) {
        PhaseRun(Next(p, evs[0]), Step(st, evs[0]), evs[1..]);
      }
    }
  }

  /** A run on a fresh mapper never follows the dangling pointer exactly when no event uses the
      tool after an unnamed call was closed and before the next one is opened. */
  lemma RunDefinedExactly(msg: Message, evs: seq<Event>)
    ensures RunDefined(INITIAL.(msg := msg), evs) <==> NoUse(NoTool, evs)
  {
    PhaseRun(NoTool, INITIAL.(msg := msg), evs);
  }

  /** The smallest failing run. */
  lemma UseAfterUnnamedClose(msg: Message, name: string)
    ensures !RunDefined(INITIAL.(msg := msg), [ToolOpen, ToolClose, ToolName(name)])
  {
    var evs := [ToolOpen, ToolClose, ToolName(name)];
    RunDefinedExactly(msg, evs);
    assert evs[1..] == [ToolClose, ToolName(name)] && evs[1..][1..] == [ToolName(name)];
    assert !NoUse(Gone, evs[1..][1..]);
    assert !NoUse(Unnamed, evs[1..]);
  }

  /** A whole-arguments event uses the tool only if its text starts an object. */
  lemma ArgsAfterUnnamedClose(msg: Message, text: string)
    ensures RunDefined(INITIAL.(msg := msg), [ToolOpen, ToolClose, ToolArgs(text)])
       <==> !(TrimTrailing(text) != "" && TrimTrailing(text)[0] == '{')
  {
    hide TrimTrailing;
    var evs := [ToolOpen, ToolClose, ToolArgs(text)];
    RunDefinedExactly(msg, evs);
    assert evs[1..] == [ToolClose, ToolArgs(text)] && evs[1..][1..] == [ToolArgs(text)];
    assert [ToolArgs(text)][1..] == [];
    assert NoUse(Gone, evs[1..][1..]) <==> !UsesTool(ToolArgs(text));
    assert NoUse(Unnamed, evs[1..]) <==> NoUse(Gone, evs[1..][1..]);
  }

  // ---- A list of calls --------------------------------------------------------------

  /** A call as its events arrive: the name behind the first `k` argument events. */
  datatype Call = Call(name: string, args: seq<Arg>, k: nat)

  predicate Placed(calls: seq<Call>) {
    forall i :: 0 <= i < |calls| ==> calls[i].k <= |AllEvents(calls[i].args)|
  }

  ghost predicate Assemble(calls: seq<Call>) {
    && Placed(calls)
    && forall i :: 0 <= i < |calls| ==> TrimTrailing(calls[i].name) != "" && BalancedArgs(calls[i].args)
  }

  function CallEvents(c: Call): seq<Event>
    requires c.k <= |AllEvents(c.args)|
  {
    [ToolOpen] + AllEvents(c.args)[..c.k] + [ToolName(c.name)] + AllEvents(c.args)[c.k..] + [ToolClose]
  }

  function Events(calls: seq<Call>): seq<Event>
    requires Placed(calls)
  {
    if calls == [] then [] else CallEvents(calls[0]) + Events(calls[1..])
  }

  function Assembled(calls: seq<Call>): seq<ToolCall> {
    seq(|calls|, i requires 0 <= i < |calls| =>
      ToolCall(TrimTrailing(calls[i].name), ObjectText(calls[i].args), ""))
  }

  predicate InsideArguments(evs: seq<Event>) {
    forall i :: 0 <= i < |evs| ==>
      evs[i].ArgOpen? || evs[i].ArgClose? || evs[i].ArgName? || evs[i].ArgValue? || evs[i].ArgString?
  }

  lemma {:induction false} ArgumentsInside(args: seq<Arg>)
    ensures InsideArguments(AllEvents(args))
  {
    if args != [] {
      ArgumentsInside(args[1..]);
    }
  }

  lemma {:induction false} ArgumentsUse(p: Phase, a: seq<Event>, b: seq<Event>)
    requires InsideArguments(a) && (p == Unnamed || p == NamedTool)
    ensures NoUse(p, a + b) <==> NoUse(p, b)
    decreases |a|
  {
    if a == [] {
      assert a + b == b;
    } else {
      assert (a + b)[0] == a[0] && (a + b)[1..] == a[1..] + b;
      ArgumentsUse(p, a[1..], b);
    }
  }

  lemma OneUse(p: Phase, ev: Event, evs: seq<Event>)
    ensures NoUse(p, [ev] + evs) <==> !(p == Gone && UsesTool(ev)) && NoUse(Next(p, ev), evs)
  {
    assert ([ev] + evs)[1..] == evs;
  }

  lemma CallUse(p: Phase, c: Call, evs: seq<Event>)
    requires c.k <= |AllEvents(c.args)|
    ensures NoUse(p, CallEvents(c) + evs) <==> NoUse(NamedTool, evs)
  {
    hide NoUse;
    var all := AllEvents(c.args);
    ArgumentsInside(c.args);
    var a, b := all[..c.k], all[c.k..];
    var e3 := [ToolClose] + evs;
    var e2 := [ToolName(c.name)] + (b + e3);
    assert CallEvents(c) + evs == [ToolOpen] + (a + e2);
    OneUse(p, ToolOpen, a + e2);
    ArgumentsUse(Unnamed, a, e2);
    OneUse(Unnamed, ToolName(c.name), b + e3);
    ArgumentsUse(NamedTool, b, e3);
    OneUse(NamedTool, ToolClose, evs);
  }

  lemma {:induction false} CallsUse(p: Phase, calls: seq<Call>)
    requires Placed(calls)
    ensures NoUse(p, Events(calls))
    decreases |calls|
  {
    hide CallEvents;
    if calls != [] {
      CallUse(p, calls[0], Events(calls[1..]));
      CallsUse(NamedTool, calls[1..]);
    }
  }

  lemma {:induction false} CallsAssembled(st: State, calls: seq<Call>)
    requires Assemble(calls)
    ensures Run(st, Events(calls)).msg == st.msg.(calls := st.msg.calls + Assembled(calls))
    decreases |calls|
  {
    hide ObjectText, BalancedArgs, TrimTrailing, Run;
    if calls == [] {
      NoMoreEvents(st);
      assert st.msg.calls + [] == st.msg.calls;
    } else {
      var c := calls[0];
      CallAssembledAnywhere(st, c.name, c.args, c.k);
      RunAppend(st, CallEvents(c), Events(calls[1..]));
      CallsAssembled(Run(st, CallEvents(c)), calls[1..]);
      var one := [ToolCall(TrimTrailing(c.name), ObjectText(c.args), "")];
      AssembledFront(calls);
      Assoc(st.msg.calls, one, Assembled(calls[1..]));
    }
  }

  lemma AssembledFront(calls: seq<Call>)
    requires calls != []
    ensures Assembled(calls)
         == [ToolCall(TrimTrailing(calls[0].name), ObjectText(calls[0].args), "")] + Assembled(calls[1..])
  {
    hide ObjectText, TrimTrailing;
    assert forall i :: 1 <= i < |calls| ==> calls[i] == calls[1..][i - 1];
  }

  /** A whole visit over the events of any list of calls is defined and leaves a message with
      exactly those calls behind the ones it had. */
  lemma MessageAssembled(msg: Message, calls: seq<Call>)
    requires Assemble(calls)
    ensures RunDefined(INITIAL.(msg := msg), Events(calls))
    ensures Finish(Run(INITIAL.(msg := msg), Events(calls))).msg.calls == msg.calls + Assembled(calls)
  {
    hide Run, Events, Assembled, RunDefined, NoUse;
    CallsUse(NoTool, calls);
    RunDefinedExactly(msg, Events(calls));
    CallsAssembled(INITIAL.(msg := msg), calls);
    FlushNeverFires(msg, Events(calls));
  }

  // ---- The name of a call -----------------------------------------------------------

  /** The last name event. */
  function LastName(evs: seq<Event>): string
    requires HasName(evs)
  {
    if evs[|evs| - 1].ToolName? then evs[|evs| - 1].text else LastName(evs[..|evs| - 1])
  }

  lemma StepNames(st: State, ev: Event)
    requires InCall(st) && !ev.ToolOpen? && !ev.ToolClose?
    ensures Attached(Step(st, ev))
    ensures Tool(Step(st, ev)).name == if ev.ToolName? then TrimTrailing(ev.text) else Tool(st).name
  {
    hide EscapeInner, QuoteNormalizer.Normalize, Trim, Unquote, TrimTrailing, Dump;
  }

  lemma {:induction false} RunNames(st: State, evs: seq<Event>)
    requires InCall(st) && InsideCall(evs)
    ensures var end := Run(st, evs);
            InCall(end) && Tool(end).name == if HasName(evs) then TrimTrailing(LastName(evs)) else Tool(st).name
    decreases |evs|
  {
    hide Step, InCall, TrimTrailing;
    if evs == [] {
    } else {
      var n := |evs| - 1;
      var front, last := evs[..n], evs[n];
      assert evs == front + [last];
      RunNames(st, front);
      RunInCall(st, front);
      RunAppend(st, front, [last]);
      RunOne(Run(st, front), last);
      StepNames(Run(st, front), last);
      StepInCall(Run(st, front), last);
      if HasName(evs) && !last.ToolName? {
        var i :| 0 <= i < |evs| && evs[i].ToolName?;
        assert front[i].ToolName?;
      }
    }
  }

  lemma CloseKeepsName(st: State)
    requires InCall(st) && st.pending.None?
    ensures var calls := Step(st, ToolClose).msg.calls;
            |calls| == |st.msg.calls| > 0 && calls[|calls| - 1].name == Tool(st).name
  {
    hide CloseBraces;
  }

  /** The call a run of events adds carries its last name event's text without trailing white
      space; so it has no name exactly when that text is blank. */
  lemma CallNamed(st: State, evs: seq<Event>)
    requires Consistent(st) && InsideCall(evs) && HasName(evs)
    ensures var calls := Run(st, [ToolOpen] + evs + [ToolClose]).msg.calls;
            && |calls| == |st.msg.calls| + 1
            && calls[|st.msg.calls|].name == TrimTrailing(LastName(evs))
            && (calls[|st.msg.calls|].name == "" <==> Blank(LastName(evs)))
  {
    hide Run, HasName, LastName, TrimTrailing, InCall;
    var u := Step(st, ToolOpen);
    OpenedInCall(st);
    RunOne(st, ToolOpen);
    RunAppend(st, [ToolOpen], evs);
    RunAppend(st, [ToolOpen] + evs, [ToolClose]);
    RunOne(Run(u, evs), ToolClose);
    RunNames(u, evs);
    RunInCall(u, evs);
    NamedNotPending(u, evs);
    CloseKeepsName(Run(u, evs));
    BlankTrimmed(LastName(evs));
  }

  lemma OpenedInCall(st: State)
    ensures InCall(Step(st, ToolOpen))
  {
  }

  lemma {:induction false} NamedNotPending(st: State, evs: seq<Event>)
    requires InCall(st) && InsideCall(evs)
    ensures Run(st, evs).pending.Some? <==> st.pending.Some? && !HasName(evs)
    decreases |evs|
  {
    hide Step, InCall;
    if evs != [] {
      StepInCall(st, evs[0]);
      NamedNotPending(Step(st, evs[0]), evs[1..]);
      if HasName(evs[1..]) {
        var i :| 0 <= i < |evs[1..]| && evs[1..][i].ToolName?;
        assert evs[i + 1].ToolName?;
      }
      if HasName(evs) && !evs[0].ToolName? {
        var i :| 0 <= i < |evs| && evs[i].ToolName?;
        assert evs[1..][i - 1].ToolName?;
      }
    }
  }

  predicate Blank(s: string) {
    forall i :: 0 <= i < |s| ==> IsSpace(s[i])
  }

  lemma BlankTrimmed(s: string)
    ensures TrimTrailing(s) == "" <==> Blank(s)
  {
    hide IsSpace;
    var r := TrimTrailing(s);
    if r != "" {
      assert s[|r| - 1] == r[|r| - 1];
    }
  }

  /** A call named with a single blank stays in the message without a name. */
  lemma BlankNameKept(st: State)
    requires Consistent(st)
    ensures var calls := Run(st, [ToolOpen, ToolName(" "), ToolClose]).msg.calls;
            |calls| == |st.msg.calls| + 1 && calls[|st.msg.calls|].name == ""
  {
    hide Run, LastName, HasName;
    var evs := [ToolName(" ")];
    assert HasName(evs) by { NameThere(evs); }
    CallNamed(st, evs);
    OnlyName(" ");
    assert [ToolOpen] + evs + [ToolClose] == [ToolOpen, ToolName(" "), ToolClose];
  }

  lemma NameThere(evs: seq<Event>)
    requires evs != [] && evs[0].ToolName?
    ensures HasName(evs)
  {
  }

  lemma OnlyName(text: string)
    ensures HasName([ToolName(text)]) && LastName([ToolName(text)]) == text
  {
    NameThere([ToolName(text)]);
  }
}
