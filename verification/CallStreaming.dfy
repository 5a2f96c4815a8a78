/** Mapper and deltas together: the messages a call run produces event by event can be
    streamed as deltas, wherever the name of the call arrives. */
module CallStreaming {
  import opened Wrappers
  import opened ChatMessage
  import opened JsonStrings
  import opened PegMapper
  import opened PegMapperRuns
  import opened ChatDeltas
  import QuoteNormalizer

  /** A call a client may go on from: more arguments, a longer name, and an id that only changes
      visibly. */
  predicate CallExtends(p: ToolCall, n: ToolCall) {
    && p.arguments <= n.arguments && p.name <= n.name
    && ((p.name == n.name && p.id == n.id) || n.name != "")
  }

  /** The message has grown, and so that growing on from there is growing from here. */
  predicate Extends(prev: Message, next: Message) {
    && prev.reasoning <= next.reasoning
    && prev.content <= next.content
    && |prev.calls| <= |next.calls|
    && (prev.calls != [] ==>
          && CallExtends(prev.calls[|prev.calls| - 1], next.calls[|prev.calls| - 1])
          && prev.calls[..|prev.calls| - 1] == next.calls[..|prev.calls| - 1])
  }

  lemma ExtendsGrows(prev: Message, next: Message)
    requires Extends(prev, next)
    ensures Grows(prev, next)
  {
  }

  lemma ExtendsOn(a: Message, b: Message, c: Message)
    requires Extends(a, b) && Extends(b, c)
    ensures Extends(a, c)
  {
    var m := |a.calls|;
    if m > 0 {
      if |b.calls| > m {
        assert b.calls[m - 1] == b.calls[..|b.calls| - 1][m - 1] == c.calls[..|b.calls| - 1][m - 1];
        assert c.calls[..m - 1] == c.calls[..|b.calls| - 1][..m - 1];
        assert b.calls[..m - 1] == b.calls[..|b.calls| - 1][..m - 1];
      }
    }
  }

  /** Events that only add to what a client already saw: for a call in the message no second
      name, no id or close if its name is blank, and no whole object behind other arguments. */
  predicate Appends(st: State, ev: Event) {
    Attached(st) && st.current.AtCall? ==>
      && !ev.ToolName?
      && (ev.ToolId? || ev.ToolClose? ==> Tool(st).name != "")
      && (ev.ToolArgs? && Tool(st).name != "" ==> Tool(st).arguments <= "{")
  }

  lemma LongerGrows(before: Message, i: nat, args: string)
    requires i + 1 == |before.calls| && before.calls[i].arguments <= args
    ensures Extends(before, before.(calls := before.calls[i := before.calls[i].(arguments := args)]))
  {
  }

  lemma SameGrows(msg: Message)
    ensures Extends(msg, msg)
  {
  }

  lemma AddedGrows(msg: Message, call: ToolCall)
    ensures Extends(msg, msg.(calls := msg.calls + [call]))
  {
    var n := |msg.calls|;
    if n > 0 {
      assert (msg.calls + [call])[..n - 1] == msg.calls[..n - 1];
    }
  }

  lemma WriteGrows(st: State, more: string)
    requires Consistent(st) && Attached(st)
    ensures Extends(st.msg, SetArgs(st, Args(st) + more).msg)
  {
    hide Extends;
    SameGrows(st.msg);
    if st.current.AtCall? && Tool(st).name != "" {
      assert Tool(st).arguments <= Tool(st).arguments + more;
      LongerGrows(st.msg, st.current.index, Tool(st).arguments + more);
    }
  }

  lemma ArgNameGrows(st: State, text: string)
    requires Consistent(st) && Attached(st)
    ensures Extends(st.msg, ArgNamed(st, text).msg)
  {
    hide Extends, Dump, Trim;
    var start := if Args(st) == "" then "{" else "";
    var entry := (if st.argCount > 0 then "," else "") + (Dump(Trim(text)) + ":");
    WriteGrows(st, start + entry);
    assert Args(st) + (start + entry) == (if Args(st) == "" then "{" else Args(st)) + entry;
  }

  lemma NameGrows(st: State, text: string)
    requires Consistent(st) && Attached(st) && st.pending.Some?
    ensures Extends(st.msg, Named(st, text).msg)
  {
    hide Extends, TrimTrailing;
    var args := if st.buffer != "" then st.buffer else "{";
    AddedGrows(st.msg, ToolCall(TrimTrailing(text), args, st.pending.value.id));
  }

  lemma CloseGrows(st: State)
    requires Consistent(st) && Attached(st) && (st.current.AtCall? ==> Tool(st).name != "")
    ensures Extends(st.msg, Closed(st).msg)
  {
    hide Extends, BraceDepth;
    SameGrows(st.msg);
    if st.current.AtCall? {
      var args := if st.quotePending then Tool(st).arguments + "\"" else Tool(st).arguments;
      assert Tool(st).arguments <= args <= CloseBraces(args);
      LongerGrows(st.msg, st.current.index, CloseBraces(args));
    }
  }

  lemma IdGrows(st: State, id: string)
    requires Consistent(st) && Attached(st) && (st.current.AtCall? ==> Tool(st).name != "")
    ensures Extends(st.msg, SetTool(st, Tool(st).(id := id)).msg)
  {
    if st.current.AtPending? {
      SameGrows(st.msg);
    }
  }

  lemma ObjectGrows(st: State, text: string)
    requires Consistent(st) && Attached(st)
    requires st.current.AtCall? && Tool(st).name != "" ==> Tool(st).arguments <= "{"
    ensures StartsObject(text) ==> Extends(st.msg, SetArgs(st, text).msg)
  {
    SameGrows(st.msg);
    if StartsObject(text) && st.current.AtCall? && Tool(st).name != "" {
      assert Tool(st).arguments <= text;
      LongerGrows(st.msg, st.current.index, text);
    }
  }

  lemma StepGrows(st: State, ev: Event)
    requires Consistent(st) && Appends(st, ev)
    ensures Extends(st.msg, Step(st, ev).msg)
  {
    hide Extends, SetArgs, ArgNamed, Named, Closed, EscapeInner, QuoteNormalizer.Normalize, TrimTrailing, Unquote;
    SameGrows(st.msg);
    match ev
    case Reasoning(text) => TextGrows(st.msg, text, "");
    case Content(text) => TextGrows(st.msg, "", text);
    case _ =>
      if Attached(st) && !ev.ToolOpen? && !ev.ArgOpen? {
        ToolStepGrows(st, ev);
      }
  }

  lemma TextGrows(msg: Message, reasoning: string, content: string)
    ensures Extends(msg, msg.(reasoning := msg.reasoning + reasoning, content := msg.content + content))
    ensures reasoning == "" ==> msg.reasoning + reasoning == msg.reasoning
    ensures content == "" ==> msg.content + content == msg.content
  {
  }

  lemma ToolStepGrows(st: State, ev: Event)
    requires Consistent(st) && Attached(st) && Appends(st, ev)
    ensures Extends(st.msg, ToolStep(st, ev).msg)
  {
    hide Extends, ArgNamed, Named, Closed, EscapeInner, QuoteNormalizer.Normalize, TrimTrailing, Unquote;
    SameGrows(st.msg);
    match ev
    case ToolId(text) => IdGrows(st, Unquote(TrimTrailing(text)));
    case ToolName(text) => NameGrows(st, text);
    case ToolArgs(text) => ObjectGrows(st, TrimTrailing(text));
    case ArgName(text) => ArgNameGrows(st, text);
    case ArgValue(text) => WriteGrows(st, QuoteNormalizer.Normalize(text));
    case ArgString(text) =>
      WriteGrows(st, (if text == "" || !st.quotePending then "\"" else "") + EscapeInner(text));
    case ArgClose => WriteGrows(st, "\"");
    case ToolClose => CloseGrows(st);
    case _ =>
  }

  /** What an event must meet to only add to a call in the message. */
  predicate Adds(st: State, ev: Event) {
    Attached(st) && st.current.AtCall? ==>
      var t := Tool(st);
      match ev
      case ToolName(text) => t.name <= TrimTrailing(text) && (st.buffer != "" ==> t.arguments <= st.buffer)
      case ToolId(text) => t.name != "" || Unquote(TrimTrailing(text)) == t.id
      case ToolArgs(text) => t.name != "" && StartsObject(TrimTrailing(text)) ==> t.arguments <= TrimTrailing(text)
      case ToolClose =>
        t.name == "" && st.buffer != "" ==>
          t.arguments <= CloseBraces(if st.quotePending then st.buffer + "\"" else st.buffer)
      case _ => true
  }

  lemma LastExtends(before: Message, i: nat, call: ToolCall)
    requires i + 1 == |before.calls|
    ensures Extends(before, before.(calls := before.calls[i := call])) <==> CallExtends(before.calls[i], call)
  {
  }

  /** The call behind an event that replaces a part of it. */
  function Replaced(st: State, ev: Event): ToolCall
    requires Attached(st)
  {
    var t := Tool(st);
    match ev
    case ToolName(text) =>
      t.(name := TrimTrailing(text),
         arguments := if st.buffer != "" then st.buffer else if t.arguments == "" then "{" else t.arguments)
    case ToolId(text) => t.(id := Unquote(TrimTrailing(text)))
    case ToolArgs(text) =>
      if t.name != "" && StartsObject(TrimTrailing(text)) then t.(arguments := TrimTrailing(text)) else t
    case ToolClose =>
      var args := if t.name == "" && st.buffer != "" then st.buffer else t.arguments;
      t.(arguments := CloseBraces(if st.quotePending then args + "\"" else args))
    case _ => t
  }

  lemma LastReplaced(st: State, ev: Event)
    requires Consistent(st) && Attached(st) && st.current.AtCall?
    requires ev.ToolName? || ev.ToolId? || ev.ToolArgs? || ev.ToolClose?
    ensures Step(st, ev).msg == st.msg.(calls := st.msg.calls[st.current.index := Replaced(st, ev)])
  {
    hide TrimTrailing, Unquote, CloseBraces;
  }

  lemma ReplacedExtends(st: State, ev: Event)
    requires Attached(st) && st.current.AtCall?
    requires ev.ToolName? || ev.ToolId? || ev.ToolArgs? || ev.ToolClose?
    ensures CallExtends(Tool(st), Replaced(st, ev)) <==> Adds(st, ev)
  {
    hide TrimTrailing, Unquote, BraceDepth;
  }

  /** An event makes the message grow exactly when it only adds to the call it is for. */
  lemma StepGrowsExactly(st: State, ev: Event)
    requires Consistent(st)
    ensures Extends(st.msg, Step(st, ev).msg) <==> Adds(st, ev)
  {
    hide Extends, Step, Replaced, CallExtends;
    if Attached(st) && st.current.AtCall? && (ev.ToolName? || ev.ToolId? || ev.ToolArgs? || ev.ToolClose?) {
      LastReplaced(st, ev);
      LastExtends(st.msg, st.current.index, Replaced(st, ev));
      ReplacedExtends(st, ev);
    } else {
      StepGrows(st, ev);
    }
  }

  predicate RunAppends(st: State, evs: seq<Event>)
    decreases |evs|
  {
    evs == [] || (Appends(st, evs[0]) && RunAppends(Step(st, evs[0]), evs[1..]))
  }

  /** The message after each event of a run. */
  function Snapshots(st: State, evs: seq<Event>): (r: seq<Message>)
    ensures |r| == |evs|
    decreases |evs|
  {
    if evs == [] then [] else [Step(st, evs[0]).msg] + Snapshots(Step(st, evs[0]), evs[1..])
  }

  lemma {:induction false} SnapshotsGrow(st: State, evs: seq<Event>)
    requires Consistent(st) && RunAppends(st, evs)
    ensures AllGrow(st.msg, Snapshots(st, evs))
    ensures Last(st.msg, Snapshots(st, evs)) == Run(st, evs).msg
    decreases |evs|
  {
    hide Step, Grows, Extends, Consistent, Appends;
    if evs != [] {
      StepKeeps(st, evs[0]);
      StepGrows(st, evs[0]);
      ExtendsGrows(st.msg, Step(st, evs[0]).msg);
      var next := Step(st, evs[0]);
      SnapshotsGrow(next, evs[1..]);
      var tail := Snapshots(next, evs[1..]);
      assert ([next.msg] + tail)[0] == next.msg && ([next.msg] + tail)[1..] == tail;
    }
  }

  /** Argument events: names, values and their markers. */
  predicate ArgumentEvent(ev: Event) {
    ev.ArgOpen? || ev.ArgClose? || ev.ArgName? || ev.ArgValue? || ev.ArgString?
  }

  predicate ArgumentEvents(evs: seq<Event>) {
    forall i :: 0 <= i < |evs| ==> ArgumentEvent(evs[i])
  }

  lemma {:induction false} RunAppendsConcat(st: State, a: seq<Event>, b: seq<Event>)
    requires RunAppends(st, a) && RunAppends(Run(st, a), b)
    ensures RunAppends(st, a + b)
    decreases |a|
  {
    hide Step, Appends;
    if a == [] {
      assert a + b == b;
    } else {
      assert (a + b)[0] == a[0] && (a + b)[1..] == a[1..] + b;
      RunAppendsConcat(Step(st, a[0]), a[1..], b);
    }
  }

  /** The tool the pointer refers to keeps its place and its name under argument events. */
  predicate SamePlace(a: State, b: State) {
    && Attached(a) && Attached(b) && a.current == b.current && a.pending.Some? == b.pending.Some?
    && Tool(a).name == Tool(b).name
  }

  lemma {:induction false} ArgumentsAppend(st: State, evs: seq<Event>)
    requires Attached(st) && ArgumentEvents(evs)
    ensures RunAppends(st, evs) && SamePlace(st, Run(st, evs))
    decreases |evs|
  {
    hide Step;
    if evs != [] {
      ArgumentStays(st, evs[0]);
      ArgumentsAppend(Step(st, evs[0]), evs[1..]);
    }
  }

  lemma ArgumentStays(st: State, ev: Event)
    requires Attached(st) && ArgumentEvent(ev)
    ensures SamePlace(st, Step(st, ev))
  {
    hide Dump, Trim, EscapeInner, QuoteNormalizer.Normalize;
  }

  lemma {:induction false} AllEventsAreArguments(args: seq<Arg>)
    ensures ArgumentEvents(AllEvents(args))
  {
    if args != [] {
      AllEventsAreArguments(args[1..]);
    }
  }

  lemma StructureAppends(st: State, name: string)
    requires TrimTrailing(name) != ""
    ensures RunAppends(st, [ToolOpen])
    ensures Attached(st) && st.pending.Some? && st.current == AtPending ==>
              var n := Step(st, ToolName(name));
              && RunAppends(st, [ToolName(name)]) && Attached(n) && Tool(n).name != ""
    ensures Attached(st) && Tool(st).name != "" ==> RunAppends(st, [ToolClose])
  {
    hide TrimTrailing, Closed;
  }

  /** A call run from its open event to its close event, with the name anywhere between. */
  function CallEvents(name: string, a: seq<Event>, b: seq<Event>): seq<Event> {
    [ToolOpen] + a + [ToolName(name)] + b + [ToolClose]
  }

  lemma CallRunAppends(st: State, name: string, a: seq<Event>, b: seq<Event>)
    requires TrimTrailing(name) != "" && ArgumentEvents(a) && ArgumentEvents(b)
    ensures RunAppends(st, CallEvents(name, a, b))
  {
    hide Step, Run, RunAppends, TrimTrailing, ArgumentEvents;
    var u := Run(st, [ToolOpen]);
    RunOne(st, ToolOpen);
    assert Attached(u) && u.pending.Some? && u.current == AtPending by { OpenedAtPending(st); }
    StructureAppends(st, name);
    ArgumentsAppend(u, a);
    RunAppendsConcat(st, [ToolOpen], a);
    RunAppend(st, [ToolOpen], a);
    StructureAppends(Run(u, a), name);
    RunAppendsConcat(st, [ToolOpen] + a, [ToolName(name)]);
    RunAppend(st, [ToolOpen] + a, [ToolName(name)]);
    var n := Run(Run(u, a), [ToolName(name)]);
    RunOne(Run(u, a), ToolName(name));
    ArgumentsAppend(n, b);
    RunAppendsConcat(st, [ToolOpen] + a + [ToolName(name)], b);
    RunAppend(st, [ToolOpen] + a + [ToolName(name)], b);
    StructureAppends(Run(n, b), name);
    RunAppendsConcat(st, [ToolOpen] + a + [ToolName(name)] + b, [ToolClose]);
  }

  lemma OpenedAtPending(st: State)
    ensures var u := Step(st, ToolOpen);
            Attached(u) && u.pending.Some? && u.current == AtPending
  {
  }

  /** While a call is assembled, no delta computation throws, and a client that held the message
      before the call ends with the assembled call after applying the delta of every event. */
  lemma CallStreams(st: State, name: string, args: seq<Arg>, k: nat)
    requires Consistent(st) && TrimTrailing(name) != "" && BalancedArgs(args) && k <= |AllEvents(args)|
    ensures Stream(st.msg, st.msg, Snapshots(st, CallEvents(name, AllEvents(args)[..k], AllEvents(args)[k..])))
         == Ok(st.msg.(calls := st.msg.calls + [ToolCall(TrimTrailing(name), ObjectText(args), "")]))
  {
    hide Stream, Snapshots, Run, ObjectText, BalancedArgs, AllEvents, TrimTrailing, Consistent, RunAppends;
    var a, b := AllEvents(args)[..k], AllEvents(args)[k..];
    AllEventsAreArguments(args);
    CallRunAppends(st, name, a, b);
    SnapshotsGrow(st, CallEvents(name, a, b));
    GrowingStreamRebuilt(st.msg, Snapshots(st, CallEvents(name, a, b)));
    CallAssembledAnywhere(st, name, args, k);
  }

  /** A call whose arguments arrive whole behind its name streams as well. */
  lemma WholeCallStreams(st: State, name: string, text: string)
    requires Consistent(st) && TrimTrailing(name) != ""
    ensures Stream(st.msg, st.msg, Snapshots(st, [ToolOpen, ToolName(name), ToolArgs(text), ToolClose]))
         == Ok(st.msg.(calls := st.msg.calls + [ToolCall(TrimTrailing(name), WholeArguments(text), "")]))
  {
    hide Stream, Snapshots, Run, TrimTrailing, Consistent, WholeArguments;
    var evs := [ToolOpen, ToolName(name), ToolArgs(text), ToolClose];
    WholeAppends(st, name, text);
    SnapshotsGrow(st, evs);
    GrowingStreamRebuilt(st.msg, Snapshots(st, evs));
    WholeAssembled(st, name, text);
  }

  lemma WholeAppends(st: State, name: string, text: string)
    requires TrimTrailing(name) != ""
    ensures RunAppends(st, [ToolOpen, ToolName(name), ToolArgs(text), ToolClose])
  {
    hide Step, TrimTrailing, StartsObject, FillingState;
    var evs := [ToolOpen, ToolName(name), ToolArgs(text), ToolClose];
    var call := ToolCall(TrimTrailing(name), "{", "");
    var u := Step(st, ToolOpen);
    var n := Step(u, ToolName(name));
    OpenedAtPending(st);
    OpenedAndNamed(st, name);
    WholeSteps(st, call, text);
    assert evs[1..][1..] == evs[2..] && evs[2..][1..] == evs[3..] && evs[3..][1..] == [];
    var f := Step(n, ToolArgs(text));
    assert RunAppends(f, evs[3..]);
    assert RunAppends(n, evs[2..]);
    assert RunAppends(u, evs[1..]);
  }

  lemma WholeSteps(st: State, call: ToolCall, text: string)
    requires call.name != "" && call.arguments == "{"
    ensures var n := FillingState(st, call, 0);
            Appends(n, ToolArgs(text)) && Appends(Step(n, ToolArgs(text)), ToolClose)
  {
    hide TrimTrailing, StartsObject;
  }
}
