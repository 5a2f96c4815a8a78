/** Streaming as it happens: every parse of a growing text ends inside some node, so the last
    event of a snapshot carries a truncated text. Which truncations a client can follow, which
    one makes the delta computation throw, and whole streams of such snapshots. */
module TruncatedStreaming {
  import opened Wrappers
  import opened ChatMessage
  import opened JsonStrings
  import opened PegMapper
  import opened PegMapperRuns
  import opened ChatDeltas
  import opened CallStreaming
  import QuoteNormalizer
  import opened QuoteStreaming

  /** A container text may be cut there. */
  predicate SafeAt(text: string, k: nat)
    requires k <= |text|
  {
    SafeCut(QuoteNormalizer.Outside, false, text, k)
  }

  // ---- One truncated value ----------------------------------------------------------

  /** While a container value is read, the next delta throws exactly when the truncated value
      was cut unsafely. */
  lemma TruncationThrowsExactly(st: State, text: string, k: nat)
    requires Consistent(st) && Filling(st) && k <= |text|
    ensures Diffs(Step(st, ArgValue(text[..k])).msg, Step(st, ArgValue(text)).msg).Err? <==>
            !SafeAt(text, k)
  {
    hide QuoteNormalizer.Normalize, SafeCut, Diffs;
    var args := Tool(st).arguments;
    var part, whole := args + QuoteNormalizer.Normalize(text[..k]), args + QuoteNormalizer.Normalize(text);
    ComparableExactly(text, k);
    PrefixAppend(args, QuoteNormalizer.Normalize(text[..k]), QuoteNormalizer.Normalize(text));
    PrefixAppend(args, QuoteNormalizer.Normalize(text), QuoteNormalizer.Normalize(text[..k]));
    OneCallThrows(st, part, whole);
  }

  lemma OneCallThrows(st: State, a: string, b: string)
    requires Consistent(st) && Filling(st)
    ensures Diffs(SetArgs(st, a).msg, SetArgs(st, b).msg).Err? <==> !Comparable(a, b)
  {
    hide Diffs;
    ThrowsExactly(SetArgs(st, a).msg, SetArgs(st, b).msg);
  }

  // ---- Truncated events -------------------------------------------------------------

  /** The nodes whose text may be truncated: the parser emits the others only when complete,
      and the delta computation allows a name to grow. */
  predicate Cuttable(ev: Event) {
    ev.Reasoning? || ev.Content? || ev.ToolName? || ev.ToolArgs? || ev.ArgValue? || ev.ArgString?
  }

  function Truncated(ev: Event, k: nat): Event
    requires Cuttable(ev) && k <= |ev.text|
  {
    match ev
    case Reasoning(text) => Reasoning(text[..k])
    case Content(text) => Content(text[..k])
    case ToolName(text) => ToolName(text[..k])
    case ToolArgs(text) => ToolArgs(text[..k])
    case ArgValue(text) => ArgValue(text[..k])
    case ArgString(text) => ArgString(text[..k])
  }

  /** A container is cut safely, a string not before its first character if its quote is open. */
  predicate Fits(st: State, ev: Event, k: nat) {
    && Cuttable(ev) && k <= |ev.text|
    && (ev.ArgValue? ==> SafeAt(ev.text, k))
    && (ev.ArgString? && st.quotePending ==> k > 0)
  }

  lemma ShorterPrefix(text: string, k: nat, n: nat)
    requires k <= n <= |text|
    ensures text[..k] <= text[..n] && text[..n][..k] == text[..k]
  {
  }

  lemma TrimGrows(text: string, k: nat, n: nat)
    requires k <= n <= |text|
    ensures TrimTrailing(text[..k]) <= TrimTrailing(text[..n])
  {
    var a, b := TrimTrailing(text[..k]), TrimTrailing(text[..n]);
    ShorterPrefix(text, k, n);
    assert a == text[..|a|] && b == text[..|b|];
  }

  lemma NormGrows(text: string, k: nat, n: nat)
    requires k <= n <= |text| && SafeAt(text, k) && SafeAt(text, n)
    ensures QuoteNormalizer.Normalize(text[..k]) <= QuoteNormalizer.Normalize(text[..n])
  {
    hide SafeCut, QuoteNormalizer.Normalize;
    SafeCutWithin(QuoteNormalizer.Outside, false, text, k, n);
    ShorterPrefix(text, k, n);
    MonotoneExactly(text[..n], k);
  }

  lemma EscapeGrows(text: string, k: nat, n: nat)
    requires k <= n <= |text|
    ensures EscapeInner(text[..k]) <= EscapeInner(text[..n])
  {
    hide EscapeInner;
    assert text[..n] == text[..k] + text[k..n];
    EscapeInnerAppend(text[..k], text[k..n]);
  }

  lemma ArgsGrow(st: State, a: string, b: string)
    requires Consistent(st) && Attached(st) && a <= b
    ensures Extends(SetArgs(st, a).msg, SetArgs(st, b).msg)
  {
    hide Extends;
    SameGrows(st.msg);
    if st.current.AtCall? && Tool(st).name != "" {
      var i := st.current.index;
      LongerGrows(SetArgs(st, a).msg, i, b);
      assert st.msg.calls[i := SetArgs(st, a).msg.calls[i]][i := SetArgs(st, b).msg.calls[i]]
          == st.msg.calls[i := SetArgs(st, b).msg.calls[i]];
    }
  }

  lemma NamesGrow(st: State, a: string, b: string)
    requires Consistent(st) && Attached(st) && st.pending.Some? && TrimTrailing(a) <= TrimTrailing(b)
    ensures Extends(Named(st, a).msg, Named(st, b).msg)
  {
    hide TrimTrailing;
    var c, d := Named(st, a).msg.calls, Named(st, b).msg.calls;
    assert c[..|c| - 1] == st.msg.calls == d[..|c| - 1];
  }

  lemma ObjectsGrow(st: State, a: string, b: string)
    requires Consistent(st) && Attached(st) && Appends(st, ToolArgs(b))
    requires TrimTrailing(a) <= TrimTrailing(b)
    ensures Extends(Step(st, ToolArgs(a)).msg, Step(st, ToolArgs(b)).msg)
  {
    hide Extends, TrimTrailing;
    SameGrows(st.msg);
    var s, t := TrimTrailing(a), TrimTrailing(b);
    if s != "" && s[0] == '{' {
      ArgsGrow(st, s, t);
    } else {
      ObjectGrows(st, t);
    }
  }

  lemma StringsGrow(st: State, a: string, b: string)
    requires Consistent(st) && Attached(st) && EscapeInner(a) <= EscapeInner(b)
    requires (st.quotePending ==> a != "" || b == "") && (b == "" ==> a == "")
    ensures Extends(StringValue(st, a).msg, StringValue(st, b).msg)
  {
    hide Extends, EscapeInner;
    var qa := if a == "" || !st.quotePending then "\"" else "";
    var qb := if b == "" || !st.quotePending then "\"" else "";
    PrefixAppend(Args(st) + qa, EscapeInner(a), EscapeInner(b));
    assert Args(st) + (qa + EscapeInner(a)) == Args(st) + qa + EscapeInner(a);
    assert Args(st) + (qb + EscapeInner(b)) == Args(st) + qb + EscapeInner(b);
    ArgsGrow(st, Args(st) + (qa + EscapeInner(a)), Args(st) + (qb + EscapeInner(b)));
  }

  lemma TextsGrow(msg: Message, a: string, b: string)
    requires a <= b
    ensures Extends(msg.(reasoning := msg.reasoning + a), msg.(reasoning := msg.reasoning + b))
    ensures Extends(msg.(content := msg.content + a), msg.(content := msg.content + b))
  {
  }

  /** More of the same text: the message goes on from where it was. */
  lemma TruncationGrows(st: State, ev: Event, k: nat, n: nat)
    requires Consistent(st) && Appends(st, ev) && Fits(st, ev, k) && Fits(st, ev, n) && k <= n
    ensures Extends(Step(st, Truncated(ev, k)).msg, Step(st, Truncated(ev, n)).msg)
  {
    hide Extends, TrimTrailing, EscapeInner, QuoteNormalizer.Normalize, SafeCut, StringValue, SetArgs, Named;
    SameGrows(st.msg);
    ShorterPrefix(ev.text, k, n);
    match ev
    case Reasoning(text) => TextsGrow(st.msg, text[..k], text[..n]);
    case Content(text) => TextsGrow(st.msg, text[..k], text[..n]);
    case ToolName(text) =>
      TrimGrows(text, k, n);
      if Attached(st) { NamesGrow(st, text[..k], text[..n]); }
    case ToolArgs(text) =>
      TrimGrows(text, k, n);
      if Attached(st) { ObjectsGrow(st, text[..k], text[..n]); }
    case ArgValue(text) =>
      NormGrows(text, k, n);
      if Attached(st) {
        PrefixAppend(Args(st), QuoteNormalizer.Normalize(text[..k]), QuoteNormalizer.Normalize(text[..n]));
        ArgsGrow(st, Args(st) + QuoteNormalizer.Normalize(text[..k]), Args(st) + QuoteNormalizer.Normalize(text[..n]));
      }
    case ArgString(text) =>
      EscapeGrows(text, k, n);
      if Attached(st) { StringsGrow(st, text[..k], text[..n]); }
  }

  lemma TruncatedAppends(st: State, ev: Event, k: nat)
    requires Consistent(st) && Appends(st, ev) && Fits(st, ev, k)
    ensures Extends(st.msg, Step(st, Truncated(ev, k)).msg)
    ensures Extends(Step(st, Truncated(ev, k)).msg, Step(st, ev).msg)
  {
    hide Extends, Step;
    StepGrows(st, Truncated(ev, k));
    WholeCut(ev);
    if k < |ev.text| {
      SafeEnd(ev.text);
      TruncationGrows(st, ev, k, |ev.text|);
    } else {
      SameGrows(Step(st, ev).msg);
    }
  }

  lemma WholeCut(ev: Event)
    requires Cuttable(ev)
    ensures Truncated(ev, |ev.text|) == ev
  {
    assert ev.text[..|ev.text|] == ev.text;
  }

  lemma SafeEnd(text: string)
    ensures SafeAt(text, |text|)
  {
  }

  // ---- Snapshots --------------------------------------------------------------------

  /** A point in a run: behind the first `i` events, or inside event `i` behind `k` characters. */
  datatype Cut = Cut(i: nat, k: Option<nat>)

  predicate Placed(st: State, evs: seq<Event>, c: Cut) {
    c.i <= |evs| && (c.k.Some? ==> c.i < |evs| && Fits(Run(st, evs[..c.i]), evs[c.i], c.k.value))
  }

  function Reached(st: State, evs: seq<Event>, c: Cut): State
    requires Placed(st, evs, c)
  {
    var before := Run(st, evs[..c.i]);
    if c.k.None? then before else Step(before, Truncated(evs[c.i], c.k.value))
  }

  /** The message a visit that ends there returns. */
  function Shown(st: State, evs: seq<Event>, c: Cut): Message
    requires Placed(st, evs, c)
  {
    Finish(Reached(st, evs, c)).msg
  }

  predicate Before(c: Cut, d: Cut) {
    c.i < d.i || (c.i == d.i && (c.k.None? || (d.k.Some? && c.k.value <= d.k.value)))
  }

  /** Blank reasoning is not shown. */
  function Clean(msg: Message): Message {
    msg.(reasoning := if AllBlank(msg.reasoning) then "" else msg.reasoning)
  }

  lemma FinishCleans(st: State)
    requires Consistent(st)
    ensures Finish(st).msg == Clean(st.msg)
  {
  }

  lemma CleanExtends(a: Message, b: Message)
    requires Extends(a, b)
    ensures Extends(Clean(a), Clean(b))
  {
    hide CallExtends;
    if AllBlank(b.reasoning) {
      assert forall i :: 0 <= i < |a.reasoning| ==> a.reasoning[i] == b.reasoning[i];
    }
  }

  lemma {:induction false} AppendsAt(st: State, evs: seq<Event>, i: nat)
    requires Consistent(st) && RunAppends(st, evs) && i < |evs|
    ensures Consistent(Run(st, evs[..i])) && Appends(Run(st, evs[..i]), evs[i])
    decreases i
  {
    hide Consistent, Appends, Step;
    RunKeeps(st, evs[..i]);
    if i > 0 {
      StepKeeps(st, evs[0]);
      AppendsAt(Step(st, evs[0]), evs[1..], i - 1);
      assert evs[..i][1..] == evs[1..][..i - 1];
    }
  }

  lemma NextState(st: State, evs: seq<Event>, i: nat)
    requires i < |evs|
    ensures Run(st, evs[..i + 1]) == Step(Run(st, evs[..i]), evs[i])
  {
    hide Run, Step;
    assert evs[..i + 1] == evs[..i] + [evs[i]];
    RunAppend(st, evs[..i], [evs[i]]);
    RunOne(Run(st, evs[..i]), evs[i]);
  }

  lemma {:induction false} RunExtends(st: State, evs: seq<Event>, i: nat, j: nat)
    requires Consistent(st) && RunAppends(st, evs) && i <= j <= |evs|
    ensures Extends(Run(st, evs[..i]).msg, Run(st, evs[..j]).msg)
    decreases j - i
  {
    hide Extends, Consistent, RunAppends, Run, Step, Appends;
    if i == j {
      SameGrows(Run(st, evs[..i]).msg);
    } else {
      AppendsAt(st, evs, i);
      NextState(st, evs, i);
      StepGrows(Run(st, evs[..i]), evs[i]);
      RunExtends(st, evs, i + 1, j);
      ExtendsOn(Run(st, evs[..i]).msg, Run(st, evs[..i + 1]).msg, Run(st, evs[..j]).msg);
    }
  }

  /** From a point in a run to the end of its event. */
  lemma PointExtends(st: State, evs: seq<Event>, c: Cut)
    requires Consistent(st) && RunAppends(st, evs) && Placed(st, evs, c)
    ensures Consistent(Reached(st, evs, c))
    ensures Extends(Run(st, evs[..c.i]).msg, Reached(st, evs, c).msg)
    ensures c.i < |evs| ==> Extends(Reached(st, evs, c).msg, Run(st, evs[..c.i + 1]).msg)
  {
    hide Extends, Consistent, RunAppends, Run, Step, Appends, Truncated, Fits;
    var before := Run(st, evs[..c.i]);
    RunKeeps(st, evs[..c.i]);
    SameGrows(before.msg);
    if c.i < |evs| {
      AppendsAt(st, evs, c.i);
      NextState(st, evs, c.i);
      StepGrows(before, evs[c.i]);
      if c.k.Some? {
        FitsCuttable(before, evs[c.i], c.k.value);
        TruncatedAppends(before, evs[c.i], c.k.value);
        StepKeeps(before, Truncated(evs[c.i], c.k.value));
      }
    }
  }

  lemma FitsCuttable(st: State, ev: Event, k: nat)
    requires Fits(st, ev, k)
    ensures Cuttable(ev) && k <= |ev.text|
  {
  }

  lemma ReachedExtends(st: State, evs: seq<Event>, c: Cut, d: Cut)
    requires Consistent(st) && RunAppends(st, evs) && Placed(st, evs, c) && Placed(st, evs, d) && Before(c, d)
    ensures Extends(Reached(st, evs, c).msg, Reached(st, evs, d).msg)
  {
    hide Extends, Consistent, RunAppends, Run, Step, Appends, Truncated, Fits;
    PointExtends(st, evs, c);
    PointExtends(st, evs, d);
    if c.i < d.i {
      var mid, last := Run(st, evs[..c.i + 1]).msg, Run(st, evs[..d.i]).msg;
      RunExtends(st, evs, c.i + 1, d.i);
      ExtendsOn(Reached(st, evs, c).msg, mid, last);
      ExtendsOn(Reached(st, evs, c).msg, last, Reached(st, evs, d).msg);
    } else if c.k.Some? {
      AppendsAt(st, evs, c.i);
      TruncationGrows(Run(st, evs[..c.i]), evs[c.i], c.k.value, d.k.value);
    }
  }

  lemma ShownGrows(st: State, evs: seq<Event>, c: Cut, d: Cut)
    requires Consistent(st) && RunAppends(st, evs) && Placed(st, evs, c) && Placed(st, evs, d) && Before(c, d)
    ensures Grows(Shown(st, evs, c), Shown(st, evs, d))
  {
    hide Extends, Grows, Consistent, RunAppends, Reached, Placed, Finish, Before;
    PointExtends(st, evs, c);
    PointExtends(st, evs, d);
    ReachedExtends(st, evs, c, d);
    FinishCleans(Reached(st, evs, c));
    FinishCleans(Reached(st, evs, d));
    CleanExtends(Reached(st, evs, c).msg, Reached(st, evs, d).msg);
    ExtendsGrows(Shown(st, evs, c), Shown(st, evs, d));
  }

  // ---- Streams ----------------------------------------------------------------------

  predicate AllPlaced(st: State, evs: seq<Event>, cuts: seq<Cut>) {
    forall i :: 0 <= i < |cuts| ==> Placed(st, evs, cuts[i])
  }

  predicate InOrder(cuts: seq<Cut>) {
    forall i :: 0 <= i < |cuts| - 1 ==> Before(cuts[i], cuts[i + 1])
  }

  function Messages(st: State, evs: seq<Event>, cuts: seq<Cut>): (r: seq<Message>)
    requires AllPlaced(st, evs, cuts)
    ensures |r| == |cuts|
  {
    if cuts == [] then [] else [Shown(st, evs, cuts[0])] + Messages(st, evs, cuts[1..])
  }

  lemma {:induction false} MessagesGrow(st: State, evs: seq<Event>, c: Cut, cuts: seq<Cut>)
    requires Consistent(st) && RunAppends(st, evs) && Placed(st, evs, c) && AllPlaced(st, evs, cuts)
    requires InOrder([c] + cuts)
    ensures AllGrow(Shown(st, evs, c), Messages(st, evs, cuts))
    ensures Last(Shown(st, evs, c), Messages(st, evs, cuts)) == Shown(st, evs, ([c] + cuts)[|cuts|])
    decreases |cuts|
  {
    hide Grows, Consistent, RunAppends, Shown, Placed, Before;
    if cuts != [] {
      var all := [c] + cuts;
      assert Before(all[0], all[1]);
      ShownGrows(st, evs, c, cuts[0]);
      var rest := cuts[1..];
      assert [cuts[0]] + rest == cuts;
      forall i | 0 <= i < |cuts| - 1 ensures Before(cuts[i], cuts[i + 1]) {
        assert Before(all[i + 1], all[i + 2]);
      }
      MessagesGrow(st, evs, cuts[0], rest);
      var tail := Messages(st, evs, rest);
      var ms := [Shown(st, evs, cuts[0])] + tail;
      assert ms[0] == Shown(st, evs, cuts[0]) && ms[1..] == tail;
    }
  }

  /** Any snapshots of a run taken in order, inside events or between them: no delta throws, and
      a client that starts from nothing holds the last snapshot. */
  lemma TruncatedStream(st: State, evs: seq<Event>, cuts: seq<Cut>)
    requires Consistent(st) && RunAppends(st, evs) && AllPlaced(st, evs, cuts) && InOrder(cuts) && cuts != []
    ensures Stream(EMPTY, EMPTY, Messages(st, evs, cuts)) == Ok(Shown(st, evs, cuts[|cuts| - 1]))
  {
    hide Grows, Consistent, RunAppends, Shown, Placed, Before, Stream;
    assert [cuts[0]] + cuts[1..] == cuts;
    MessagesGrow(st, evs, cuts[0], cuts[1..]);
    var ms := Messages(st, evs, cuts);
    assert ms[0] == Shown(st, evs, cuts[0]) && ms[1..] == Messages(st, evs, cuts[1..]);
    DeltasTelescope(ms);
  }

  // ---- Calls ------------------------------------------------------------------------

  /** Whether a string's quote may be open behind an event. */
  function QuoteAfter(open: bool, ev: Event): bool {
    if ev.ArgString? then true else if ev.ToolOpen? || ev.ArgOpen? then false else open
  }

  function QuoteRun(open: bool, evs: seq<Event>): bool
    decreases |evs|
  {
    if evs == [] then open else QuoteRun(QuoteAfter(open, evs[0]), evs[1..])
  }

  /** Every string value starts where no quote is open. */
  predicate FreshStrings(open: bool, evs: seq<Event>)
    decreases |evs|
  {
    evs == [] || (!(evs[0].ArgString? && open) && FreshStrings(QuoteAfter(open, evs[0]), evs[1..]))
  }

  lemma {:induction false} FreshAppend(open: bool, a: seq<Event>, b: seq<Event>)
    ensures FreshStrings(open, a + b) <==> FreshStrings(open, a) && FreshStrings(QuoteRun(open, a), b)
    decreases |a|
  {
    if a == [] {
      assert a + b == b;
    } else {
      assert (a + b)[0] == a[0] && (a + b)[1..] == a[1..] + b;
      FreshAppend(QuoteAfter(open, a[0]), a[1..], b);
    }
  }

  lemma {:induction false} ArgumentsFresh(open: bool, args: seq<Arg>)
    ensures FreshStrings(open, AllEvents(args))
    decreases |args|
  {
    if args != [] {
      OneArgumentFresh(open, args[0]);
      FreshAppend(open, ArgEvents(args[0]), AllEvents(args[1..]));
      ArgumentsFresh(QuoteRun(open, ArgEvents(args[0])), args[1..]);
    }
  }

  lemma OneArgumentFresh(open: bool, arg: Arg)
    ensures FreshStrings(open, ArgEvents(arg))
  {
    var evs := ArgEvents(arg);
    assert evs[1..][0] == evs[1] && evs[1..][1..] == evs[2..];
    assert evs[2..][0] == evs[2] && evs[2..][1..] == evs[3..];
    assert evs[3..][0] == evs[3] && evs[3..][1..] == [];
    assert FreshStrings(false, evs[2..]) by { assert FreshStrings(true, evs[3..]) && FreshStrings(false, evs[3..]); }
  }

  lemma FreshOne(open: bool, ev: Event, evs: seq<Event>)
    requires !ev.ArgString?
    ensures FreshStrings(open, [ev] + evs) <==> FreshStrings(QuoteAfter(open, ev), evs)
  {
    assert ([ev] + evs)[1..] == evs;
  }

  lemma CallFresh(open: bool, name: string, args: seq<Arg>, k: nat)
    requires k <= |AllEvents(args)|
    ensures FreshStrings(open, CallEvents(name, AllEvents(args)[..k], AllEvents(args)[k..]))
  {
    hide FreshStrings, AllEvents;
    var all := AllEvents(args);
    var a, b := all[..k], all[k..];
    ArgumentsFresh(false, args);
    assert all == a + b;
    FreshAppend(false, a, b);
    var q := QuoteRun(false, a);
    FreshAppend(q, b, [ToolClose]);
    FreshOne(QuoteRun(q, b), ToolClose, []);
    assert [ToolClose] + [] == [ToolClose];
    assert FreshStrings(QuoteRun(q, b), []) by { NothingStale(QuoteRun(q, b)); }
    FreshOne(q, ToolName(name), b + [ToolClose]);
    FreshAppend(false, a, [ToolName(name)] + (b + [ToolClose]));
    FreshOne(open, ToolOpen, a + ([ToolName(name)] + (b + [ToolClose])));
    assert CallEvents(name, a, b) == [ToolOpen] + (a + ([ToolName(name)] + (b + [ToolClose])));
  }

  lemma NothingStale(open: bool)
    ensures FreshStrings(open, [])
  {
  }

  lemma QuoteStep(st: State, open: bool, ev: Event)
    requires st.quotePending ==> open
    ensures Step(st, ev).quotePending ==> QuoteAfter(open, ev)
  {
    hide CloseBraces, EscapeInner, QuoteNormalizer.Normalize, Trim, TrimTrailing, Unquote, Dump;
  }

  lemma {:induction false} FreshAt(st: State, open: bool, evs: seq<Event>, i: nat)
    requires (st.quotePending ==> open) && FreshStrings(open, evs) && i < |evs| && evs[i].ArgString?
    ensures !Run(st, evs[..i]).quotePending
    decreases i
  {
    hide Step;
    if i > 0 {
      QuoteStep(st, open, evs[0]);
      FreshAt(Step(st, evs[0]), QuoteAfter(open, evs[0]), evs[1..], i - 1);
      assert evs[..i][1..] == evs[1..][..i - 1];
    }
  }

  /** A snapshot of a call's events: inside a value or the name, containers cut safely. */
  predicate Readable(evs: seq<Event>, c: Cut) {
    c.i <= |evs| &&
    (c.k.Some? ==>
       && c.i < |evs| && Cuttable(evs[c.i]) && c.k.value <= |evs[c.i].text|
       && (evs[c.i].ArgValue? ==> SafeAt(evs[c.i].text, c.k.value)))
  }

  lemma ReadableIsPlaced(st: State, evs: seq<Event>, c: Cut)
    requires FreshStrings(true, evs) && Readable(evs, c)
    ensures Placed(st, evs, c)
  {
    hide SafeCut, Run, FreshStrings;
    if c.k.Some? && evs[c.i].ArgString? {
      FreshAt(st, true, evs, c.i);
    }
  }

  /** End to end: however the snapshots of a call's parse are taken, inside its name, its strings
      or (at safe cuts) its containers, wherever the name stands, no delta throws and a client
      that starts from nothing ends with the message and the whole call. */
  lemma CallStreamsTruncated(st: State, name: string, args: seq<Arg>, k: nat, cuts: seq<Cut>)
    requires Consistent(st) && TrimTrailing(name) != "" && BalancedArgs(args) && k <= |AllEvents(args)|
    requires var evs := CallEvents(name, AllEvents(args)[..k], AllEvents(args)[k..]);
             && InOrder(cuts) && (forall i :: 0 <= i < |cuts| ==> Readable(evs, cuts[i]))
             && cuts != [] && cuts[|cuts| - 1] == Cut(|evs|, None)
    ensures var evs := CallEvents(name, AllEvents(args)[..k], AllEvents(args)[k..]);
            && AllPlaced(st, evs, cuts)
            && Stream(EMPTY, EMPTY, Messages(st, evs, cuts))
            == Ok(Clean(st.msg.(calls := st.msg.calls + [ToolCall(TrimTrailing(name), ObjectText(args), "")])))
  {
    hide Stream, Messages, Run, ObjectText, BalancedArgs, AllEvents, TrimTrailing, Consistent, RunAppends,
      FreshStrings, Readable, Placed, Before, CallEvents;
    var a, b := AllEvents(args)[..k], AllEvents(args)[k..];
    var evs := CallEvents(name, a, b);
    AllEventsAreArguments(args);
    CallRunAppends(st, name, a, b);
    CallFresh(true, name, args, k);
    forall i | 0 <= i < |cuts| ensures Placed(st, evs, cuts[i]) {
      ReadableIsPlaced(st, evs, cuts[i]);
    }
    TruncatedStream(st, evs, cuts);
    WholeShown(st, evs);
    assert evs == [ToolOpen] + a + [ToolName(name)] + b + [ToolClose] by { EventsOf(name, a, b); }
    CallAssembledAnywhere(st, name, args, k);
  }

  lemma EventsOf(name: string, a: seq<Event>, b: seq<Event>)
    ensures CallEvents(name, a, b) == [ToolOpen] + a + [ToolName(name)] + b + [ToolClose]
  {
  }

  lemma WholeShown(st: State, evs: seq<Event>)
    requires Consistent(st)
    ensures Placed(st, evs, Cut(|evs|, None))
    ensures Shown(st, evs, Cut(|evs|, None)) == Clean(Run(st, evs).msg)
  {
    hide Run, Consistent, Finish, Clean;
    assert evs[..|evs|] == evs;
    RunKeeps(st, evs);
    FinishCleans(Run(st, evs));
  }
}
