/** Message deltas for streaming (`string_diff`, `compute_diffs`) and what a client rebuilds
    from them. */
module ChatDeltas {
  import opened Wrappers
  import opened ChatMessage

  /** One delta: text to append, or a change to the call at `callIndex`. */
  datatype Diff = Diff(reasoning: string, content: string, callIndex: Option<nat>, call: ToolCall)

  const NO_DELTA := ToolCall("", "", "")

  function StringDiff(last: string, current: string): Result<string> {
    if last == "" then Ok(current)
    else if last <= current then Ok(current[|last|..])
    else if current <= last then Ok("")
    else Err
  }

  predicate NameMismatch(p: ToolCall, n: ToolCall) {
    p.name != n.name && p.name != "" && n.name != "" && !(p.name <= n.name)
  }

  /** The deltas for the last call both messages know. */
  function CallDiffs(i: nat, p: ToolCall, n: ToolCall): Result<seq<Diff>> {
    if NameMismatch(p, n) then Err
    else
      var args := StringDiff(p.arguments, n.arguments);
      if args.Err? then Err
      else
        var renamed := p.id != n.id || p.name != n.name;
        if args.value != "" || renamed then
          var d := if renamed then ToolCall(n.name, args.value, n.id) else ToolCall("", args.value, "");
          Ok([Diff("", "", Some(i), d)])
        else Ok([])
  }

  function NewCallDiffs(first: nat, calls: seq<ToolCall>): seq<Diff> {
    seq(|calls|, i requires 0 <= i < |calls| => Diff("", "", Some(first + i), calls[i]))
  }

  lemma NewCallDiffsGrow(first: nat, calls: seq<ToolCall>, i: nat)
    requires first <= i < |calls|
    ensures NewCallDiffs(first, calls[first..i + 1])
         == NewCallDiffs(first, calls[first..i]) + [Diff("", "", Some(i), calls[i])]
  {
  }

  function TextDiffs(prev: Message, next: Message): Result<seq<Diff>> {
    var r, c := StringDiff(prev.reasoning, next.reasoning), StringDiff(prev.content, next.content);
    if prev.reasoning != next.reasoning && r.Err? then Err
    else if prev.content != next.content && c.Err? then Err
    else
      Ok((if prev.reasoning == next.reasoning then [] else [Diff(r.value, "", None, NO_DELTA)]) +
         (if prev.content == next.content then [] else [Diff("", c.value, None, NO_DELTA)]))
  }

  function ToolDiffs(prev: seq<ToolCall>, next: seq<ToolCall>): Result<seq<Diff>> {
    if |next| < |prev| then Err
    else
      var known := if prev == [] then Ok([]) else CallDiffs(|prev| - 1, prev[|prev| - 1], next[|prev| - 1]);
      if known.Err? then Err else Ok(known.value + NewCallDiffs(|prev|, next[|prev|..]))
  }

  function Diffs(prev: Message, next: Message): Result<seq<Diff>> {
    var texts := TextDiffs(prev, next);
    if texts.Err? then Err
    else
      var tools := ToolDiffs(prev.calls, next.calls);
      if tools.Err? then Err else Ok(texts.value + tools.value)
  }

  /** `compute_diffs`; `Err` stands for the exception it throws. */
  method ComputeDiffs(prev: Message, next: Message) returns (r: Result<seq<Diff>>)
    ensures r == Diffs(prev, next)
  {
    var texts := DiffTexts(prev, next);
    if texts.Err? || |next.calls| < |prev.calls| {
      return Err;
    }
    var diffs := texts.value;
    ghost var known: seq<Diff> := [];
    if prev.calls != [] {
      var idx := |prev.calls| - 1;
      var d := DiffCall(idx, prev.calls[idx], next.calls[idx]);
      if d.Err? { return Err; }
      diffs := diffs + d.value;
      known := d.value;
    }
    ghost var before := diffs;
    assert before == texts.value + known;
    var idx := |prev.calls|;
    while idx < |next.calls|
      invariant |prev.calls| <= idx <= |next.calls|
      invariant diffs == before + NewCallDiffs(|prev.calls|, next.calls[|prev.calls|..idx])
    {
      NewCallDiffsGrow(|prev.calls|, next.calls, idx);
      diffs := diffs + [Diff("", "", Some(idx), next.calls[idx])];
      idx := idx + 1;
    }
    assert next.calls[|prev.calls|..idx] == next.calls[|prev.calls|..];
    ghost var news := NewCallDiffs(|prev.calls|, next.calls[|prev.calls|..]);
    assert texts.value + known + news == texts.value + (known + news);
    return Ok(diffs);
  }

  method DiffTexts(prev: Message, next: Message) returns (r: Result<seq<Diff>>)
    ensures r == TextDiffs(prev, next)
  {
    var diffs: seq<Diff> := [];
    if prev.reasoning != next.reasoning {
      var d := StringDiff(prev.reasoning, next.reasoning);
      if d.Err? { return Err; }
      diffs := diffs + [Diff(d.value, "", None, NO_DELTA)];
    }
    ghost var first := diffs;
    if prev.content != next.content {
      var d := StringDiff(prev.content, next.content);
      if d.Err? { return Err; }
      diffs := diffs + [Diff("", d.value, None, NO_DELTA)];
    }
    ghost var second :=
      if prev.content == next.content then []
      else [Diff("", StringDiff(prev.content, next.content).value, None, NO_DELTA)];
    assert first ==
           if prev.reasoning == next.reasoning then []
           else [Diff(StringDiff(prev.reasoning, next.reasoning).value, "", None, NO_DELTA)];
    assert diffs == first + second;
    return Ok(diffs);
  }

  method DiffCall(idx: nat, pref: ToolCall, newf: ToolCall) returns (r: Result<seq<Diff>>)
    ensures r == CallDiffs(idx, pref, newf)
    ensures r.Ok? ==> |r.value| <= 1
    ensures r.Ok? && r.value != [] ==>
              var d := r.value[0].call;
              if pref.name != newf.name || pref.id != newf.id then d.name == newf.name && d.id == newf.id
              else d.name == "" && d.id == ""
  {
    if pref.name != newf.name && pref.name != "" && newf.name != "" {
      if !(pref.name <= newf.name) {
        return Err;
      }
    }
    var args := StringDiff(pref.arguments, newf.arguments);
    if args.Err? { return Err; }
    if args.value != "" || pref.id != newf.id || pref.name != newf.name {
      var delta := NO_DELTA;
      if pref.id != newf.id || pref.name != newf.name {
        delta := delta.(id := newf.id, name := newf.name);
      }
      delta := delta.(arguments := args.value);
      return Ok([Diff("", "", Some(idx), delta)]);
    }
    return Ok([]);
  }

  // ---- What the deltas carry --------------------------------------------------------

  /** What a text gained; nothing if some of it was withdrawn. */
  function Gained(last: string, current: string): string {
    if last <= current then current[|last|..] else ""
  }

  predicate Renamed(p: ToolCall, n: ToolCall) {
    p.name != n.name || p.id != n.id
  }

  lemma GainedDiff(last: string, current: string)
    requires StringDiff(last, current).Ok?
    ensures StringDiff(last, current).value == Gained(last, current)
    ensures Gained(last, current) == "" <==> current <= last
  {
  }

  /** The deltas one by one: a text that changed, in what it gained; the last known call if it was
      renamed or gained arguments, with its name and id only if one of them changed; and every new
      call whole. */
  lemma DeltasExactly(prev: Message, next: Message)
    requires Diffs(prev, next).Ok?
    ensures var ds, known := Diffs(prev, next).value, |prev.calls|;
            var reasoning := if prev.reasoning == next.reasoning then 0 else 1;
            var content := if prev.content == next.content then 0 else 1;
            && known <= |next.calls|
            && (reasoning == 1 ==>
                  ds != [] && ds[0] == Diff(Gained(prev.reasoning, next.reasoning), "", None, ToolCall("", "", "")))
            && (content == 1 ==>
                  && |ds| > reasoning
                  && ds[reasoning] == Diff("", Gained(prev.content, next.content), None, ToolCall("", "", "")))
            && var texts := reasoning + content;
            && |ds| >= texts
            && CallDeltas(prev.calls, next.calls, ds[texts..])
  {
    hide StringDiff, Gained, NewCallDiffs;
    var t, calls := TextDiffs(prev, next).value, ToolDiffs(prev.calls, next.calls).value;
    TextDeltas(prev, next);
    CallDeltasOnly(prev.calls, next.calls);
    assert (t + calls)[|t|..] == calls;
  }

  /** The deltas for the calls. */
  predicate CallDeltas(prev: seq<ToolCall>, next: seq<ToolCall>, ds: seq<Diff>) {
    var known := |prev|;
    && known <= |next|
    && var one := if prev != [] && LastChanged(prev[known - 1], next[known - 1]) then 1 else 0;
       && |ds| == one + |next| - known
       && (one == 1 ==>
             var p, n := prev[known - 1], next[known - 1];
             && ds[0].reasoning == "" && ds[0].content == "" && ds[0].callIndex == Some(known - 1)
             && ds[0].call == ToolCall(if Renamed(p, n) then n.name else "", Gained(p.arguments, n.arguments),
                                       if Renamed(p, n) then n.id else ""))
       && forall i :: known <= i < |next| ==> ds[one + i - known] == Diff("", "", Some(i), next[i])
  }

  /** Renamed, or with arguments that are no beginning of what they were. */
  predicate LastChanged(p: ToolCall, n: ToolCall) {
    Renamed(p, n) || !(n.arguments <= p.arguments)
  }

  lemma TextDeltas(prev: Message, next: Message)
    requires TextDiffs(prev, next).Ok?
    ensures TextDiffs(prev, next).value ==
            (if prev.reasoning == next.reasoning then []
             else [Diff(Gained(prev.reasoning, next.reasoning), "", None, ToolCall("", "", ""))]) +
            (if prev.content == next.content then []
             else [Diff("", Gained(prev.content, next.content), None, ToolCall("", "", ""))])
  {
    hide StringDiff, Gained;
    if prev.reasoning != next.reasoning {
      GainedDiff(prev.reasoning, next.reasoning);
    }
    if prev.content != next.content {
      GainedDiff(prev.content, next.content);
    }
  }

  lemma KnownDelta(i: nat, p: ToolCall, n: ToolCall)
    requires CallDiffs(i, p, n).Ok?
    ensures CallDiffs(i, p, n).value ==
            if LastChanged(p, n) then
              [Diff("", "", Some(i), ToolCall(if Renamed(p, n) then n.name else "", Gained(p.arguments, n.arguments),
                                              if Renamed(p, n) then n.id else ""))]
            else []
  {
    hide StringDiff, Gained;
    GainedDiff(p.arguments, n.arguments);
  }

  lemma NewDelta(first: nat, calls: seq<ToolCall>, i: nat)
    requires i < |calls|
    ensures NewCallDiffs(first, calls)[i] == Diff("", "", Some(first + i), calls[i])
  {
  }

  lemma CallDeltasOnly(prev: seq<ToolCall>, next: seq<ToolCall>)
    requires ToolDiffs(prev, next).Ok?
    ensures CallDeltas(prev, next, ToolDiffs(prev, next).value)
  {
    hide CallDiffs, Gained, NewCallDiffs, LastChanged, Renamed;
    var known, rest := |prev|, next[|prev|..];
    var news := NewCallDiffs(known, rest);
    if prev != [] {
      KnownDelta(known - 1, prev[known - 1], next[known - 1]);
    }
    var one := if prev != [] && LastChanged(prev[known - 1], next[known - 1]) then 1 else 0;
    var ds := ToolDiffs(prev, next).value;
    assert |news| == |rest| && ds[one..] == news by { NewCount(known, rest); }
    forall i | known <= i < |next| ensures ds[one + i - known] == Diff("", "", Some(i), next[i]) {
      NewDelta(known, rest, i - known);
      assert ds[one + i - known] == news[i - known];
    }
  }

  lemma NewCount(first: nat, calls: seq<ToolCall>)
    ensures |NewCallDiffs(first, calls)| == |calls|
  {
  }

  /** Equal messages have no deltas. */
  lemma NothingNew(msg: Message)
    ensures Diffs(msg, msg) == Ok([])
  {
    var n := |msg.calls|;
    assert msg.calls[n..] == [];
    if n > 0 {
      var args := msg.calls[n - 1].arguments;
      assert args[|args|..] == "";
      assert CallDiffs(n - 1, msg.calls[n - 1], msg.calls[n - 1]) == Ok([]);
    }
    var none: seq<Diff> := [];
    assert NewCallDiffs(n, msg.calls[n..]) == none && none + none == none;
    assert ToolDiffs(msg.calls, msg.calls) == Ok([]);
  }

  // ---- What a client rebuilds -------------------------------------------------------

  function ApplyCall(calls: seq<ToolCall>, i: nat, d: ToolCall): seq<ToolCall> {
    if i == |calls| then calls + [d]
    else if i < |calls| then
      var c := calls[i].(arguments := calls[i].arguments + d.arguments);
      calls[i := if d.name != "" || d.id != "" then c.(name := d.name, id := d.id) else c]
    else calls
  }

  function Apply(msg: Message, d: Diff): Message {
    Message(msg.reasoning + d.reasoning, msg.content + d.content,
            if d.callIndex.Some? then ApplyCall(msg.calls, d.callIndex.value, d.call) else msg.calls)
  }

  function ApplyAll(msg: Message, ds: seq<Diff>): Message
    decreases |ds|
  {
    if ds == [] then msg else ApplyAll(Apply(msg, ds[0]), ds[1..])
  }

  /** The last call both messages know may get a longer argument text, and a new name or id
      that a client can see. */
  predicate CallGrows(p: ToolCall, n: ToolCall) {
    && p.arguments <= n.arguments
    && ((p.name == n.name && p.id == n.id) ||
        ((n.name != "" || n.id != "") && (p.name <= n.name || n.name == "")))
  }

  predicate Grows(prev: Message, next: Message) {
    && prev.reasoning <= next.reasoning
    && prev.content <= next.content
    && |prev.calls| <= |next.calls|
    && (prev.calls != [] ==>
          && CallGrows(prev.calls[|prev.calls| - 1], next.calls[|prev.calls| - 1])
          && prev.calls[..|prev.calls| - 1] == next.calls[..|prev.calls| - 1])
  }

  ghost predicate Rebuilds(prev: Message, next: Message) {
    Diffs(prev, next).Ok? && ApplyAll(prev, Diffs(prev, next).value) == next
  }

  lemma {:induction false} ApplyAppend(msg: Message, a: seq<Diff>, b: seq<Diff>)
    ensures ApplyAll(msg, a + b) == ApplyAll(ApplyAll(msg, a), b)
    decreases |a|
  {
    hide Apply;
    if a == [] {
      assert a + b == b;
    } else {
      assert (a + b)[1..] == a[1..] + b;
      ApplyAppend(Apply(msg, a[0]), a[1..], b);
    }
  }

  lemma {:induction false} NewCallsApplied(msg: Message, calls: seq<ToolCall>)
    ensures ApplyAll(msg, NewCallDiffs(|msg.calls|, calls)) == msg.(calls := msg.calls + calls)
    decreases |calls|
  {
    var ds := NewCallDiffs(|msg.calls|, calls);
    if calls == [] {
      assert ds == [] && msg.calls + calls == msg.calls;
    } else {
      var next := msg.(calls := msg.calls + [calls[0]]);
      assert ds[0] == Diff("", "", Some(|msg.calls|), calls[0]);
      assert Apply(msg, ds[0]) == next by { EmptyText(msg); }
      assert ds[1..] == NewCallDiffs(|next.calls|, calls[1..]);
      NewCallsApplied(next, calls[1..]);
      assert next.calls + calls[1..] == msg.calls + calls;
    }
  }

  lemma EmptyText(msg: Message)
    ensures msg.reasoning + "" == msg.reasoning && msg.content + "" == msg.content
  {
  }

  lemma StringRebuilt(last: string, current: string)
    ensures StringDiff(last, current).Ok? && last + StringDiff(last, current).value == current <==> last <= current
  {
    if last <= current {
      assert last + current[|last|..] == current;
    }
  }

  /** The effect of the text deltas. */
  lemma TextsApplied(prev: Message, next: Message)
    ensures var ds := TextDiffs(prev, next);
            if ds.Ok? then
              var m := ApplyAll(prev, ds.value);
              && m.calls == prev.calls
              && (m.reasoning == next.reasoning <==> prev.reasoning <= next.reasoning)
              && (m.content == next.content <==> prev.content <= next.content)
            else !(prev.reasoning <= next.reasoning && prev.content <= next.content)
  {
    StringRebuilt(prev.reasoning, next.reasoning);
    StringRebuilt(prev.content, next.content);
    var ds := TextDiffs(prev, next);
    if ds.Ok? {
      EmptyText(prev);
      var r := if prev.reasoning == next.reasoning then [] else [ds.value[0]];
      var c := if prev.content == next.content then [] else [ds.value[|ds.value| - 1]];
      assert ds.value == r + c;
      ApplyAppend(prev, r, c);
      ApplyOne(prev, r);
      ApplyOne(ApplyAll(prev, r), c);
      EmptyText(ApplyAll(prev, r));
    }
  }

  lemma ApplyOne(msg: Message, ds: seq<Diff>)
    requires |ds| <= 1
    ensures ApplyAll(msg, ds) == if ds == [] then msg else Apply(msg, ds[0])
  {
    hide Apply;
    if ds != [] {
      assert ds[1..] == [];
    }
  }

  /** The effect of the deltas for the last known call. */
  lemma KnownCallApplied(msg: Message, n: ToolCall)
    requires msg.calls != []
    ensures var i := |msg.calls| - 1;
            var p := msg.calls[i];
            var ds := CallDiffs(i, p, n);
            if ds.Ok? then
              exists c :: && ApplyAll(msg, ds.value) == msg.(calls := msg.calls[..i] + [c])
                          && (c == n <==> CallGrows(p, n))
            else !CallGrows(p, n)
  {
    var i := |msg.calls| - 1;
    var p := msg.calls[i];
    var ds := CallDiffs(i, p, n);
    StringRebuilt(p.arguments, n.arguments);
    if ds.Ok? {
      ApplyOne(msg, ds.value);
      EmptyText(msg);
      var c := if ds.value == [] then p else ApplyCall(msg.calls, i, ds.value[0].call)[i];
      assert msg.calls == msg.calls[..i] + [p];
      assert ApplyAll(msg, ds.value).calls == msg.calls[..i] + [c];
      KnownCallValue(i, p, n, c);
    }
  }

  lemma KnownCallValue(i: nat, p: ToolCall, n: ToolCall, c: ToolCall)
    requires CallDiffs(i, p, n).Ok?
    requires var ds := CallDiffs(i, p, n).value;
             if ds == [] then c == p
             else
               var d := ds[0].call;
               var q := p.(arguments := p.arguments + d.arguments);
               c == if d.name != "" || d.id != "" then q.(name := d.name, id := d.id) else q
    ensures c == n <==> CallGrows(p, n)
  {
    StringRebuilt(p.arguments, n.arguments);
  }

  /** Deltas rebuild the new message exactly when it grew: texts only by appending, earlier
      calls not at all, the last known call in its arguments or visibly in its name or id. */
  lemma RebuiltExactly(prev: Message, next: Message)
    ensures Rebuilds(prev, next) <==> Grows(prev, next)
  {
    hide TextDiffs, CallDiffs, CallGrows, NewCallDiffs;
    TextsApplied(prev, next);
    var n := |prev.calls|;
    if |next.calls| >= n && TextDiffs(prev, next).Ok? {
      var m := ApplyAll(prev, TextDiffs(prev, next).value);
      if n > 0 {
        KnownCallApplied(m, next.calls[n - 1]);
      }
      var tools := ToolDiffs(prev.calls, next.calls);
      if tools.Ok? {
        ToolsApplied(prev, next, m);
        ApplyAppend(prev, TextDiffs(prev, next).value, tools.value);
      }
    }
  }

  lemma ToolsApplied(prev: Message, next: Message, m: Message)
    requires m.calls == prev.calls && |prev.calls| <= |next.calls| && ToolDiffs(prev.calls, next.calls).Ok?
    ensures var r := ApplyAll(m, ToolDiffs(prev.calls, next.calls).value);
            var n := |prev.calls|;
            && r.reasoning == m.reasoning && r.content == m.content
            && (r.calls == next.calls <==>
                  n == 0 ||
                  (CallGrows(prev.calls[n - 1], next.calls[n - 1]) && prev.calls[..n - 1] == next.calls[..n - 1]))
  {
    hide CallDiffs, CallGrows, NewCallDiffs;
    var n := |prev.calls|;
    var rest := next.calls[n..];
    var known := if n == 0 then [] else CallDiffs(n - 1, prev.calls[n - 1], next.calls[n - 1]).value;
    ApplyAppend(m, known, NewCallDiffs(n, rest));
    assert next.calls == next.calls[..n] + rest;
    if n == 0 {
      ApplyOne(m, []);
      NewCallsApplied(m, rest);
    } else {
      KnownThenNew(m, next.calls);
    }
  }

  lemma KnownThenNew(m: Message, next: seq<ToolCall>)
    requires m.calls != [] && |m.calls| <= |next|
    requires var n := |m.calls|; CallDiffs(n - 1, m.calls[n - 1], next[n - 1]).Ok?
    ensures var n := |m.calls|;
            var known := CallDiffs(n - 1, m.calls[n - 1], next[n - 1]).value;
            var r := ApplyAll(ApplyAll(m, known), NewCallDiffs(n, next[n..]));
            && r.reasoning == m.reasoning && r.content == m.content
            && (r.calls == next <==> CallGrows(m.calls[n - 1], next[n - 1]) && m.calls[..n - 1] == next[..n - 1])
  {
    hide CallDiffs, CallGrows, NewCallDiffs, ApplyAll;
    var n := |m.calls|;
    var known := CallDiffs(n - 1, m.calls[n - 1], next[n - 1]).value;
    KnownCallApplied(m, next[n - 1]);
    var c :| && ApplyAll(m, known) == m.(calls := m.calls[..n - 1] + [c])
             && (c == next[n - 1] <==> CallGrows(m.calls[n - 1], next[n - 1]));
    NewCallsApplied(ApplyAll(m, known), next[n..]);
    SplitCalls(m.calls[..n - 1], c, next[n..], next);
  }

  lemma SplitCalls(a: seq<ToolCall>, c: ToolCall, rest: seq<ToolCall>, all: seq<ToolCall>)
    requires |all| == |a| + 1 + |rest| && all[|a| + 1..] == rest
    ensures a + [c] + rest == all <==> a == all[..|a|] && c == all[|a|]
  {
    var joined := a + [c] + rest;
    assert joined[..|a|] == a && joined[|a|] == c && joined[|a| + 1..] == rest;
    if a == all[..|a|] && c == all[|a|] {
      assert all == all[..|a|] + [all[|a|]] + all[|a| + 1..];
    }
  }

  predicate Comparable(last: string, current: string) {
    last <= current || current <= last
  }

  /** A text is neither extended nor taken back, calls disappear, or the last known call's name
      is replaced by one that does not extend it. */
  predicate Clashes(prev: Message, next: Message) {
    || !Comparable(prev.reasoning, next.reasoning)
    || !Comparable(prev.content, next.content)
    || |next.calls| < |prev.calls|
    || (prev.calls != [] &&
        var p, n := prev.calls[|prev.calls| - 1], next.calls[|prev.calls| - 1];
        (n.name != "" && !(p.name <= n.name)) || !Comparable(p.arguments, n.arguments))
  }

  lemma ThrowsExactly(prev: Message, next: Message)
    ensures Diffs(prev, next).Err? <==> Clashes(prev, next)
  {
  }

  /** The client silently ends with another message exactly when nothing clashes and the message
      has not grown. */
  lemma SilentExactly(prev: Message, next: Message)
    ensures Diffs(prev, next).Ok? && ApplyAll(prev, Diffs(prev, next).value) != next <==>
            !Clashes(prev, next) && !Grows(prev, next)
  {
    hide Clashes, Grows, Diffs, ApplyAll;
    ThrowsExactly(prev, next);
    RebuiltExactly(prev, next);
  }

  /** A call that changes while a later one is being streamed goes unnoticed. */
  lemma EarlierCallUnseen(a: ToolCall, b: ToolCall, last: ToolCall)
    requires a != b
    ensures var prev, next := EMPTY.(calls := [a, last]), EMPTY.(calls := [b, last]);
            && Diffs(prev, next) == Ok([])
            && ApplyAll(prev, []) == prev != next
  {
    var prev, next := EMPTY.(calls := [a, last]), EMPTY.(calls := [b, last]);
    assert next.calls[2..] == [] && NewCallDiffs(2, []) == [];
    var none: seq<Diff> := [];
    assert none + none == none;
    assert last.arguments[|last.arguments|..] == "";
    assert CallDiffs(1, last, last) == Ok(none);
    assert prev.calls[0] != next.calls[0];
  }

  // ---- Whole streams ----------------------------------------------------------------

  /** The client starts from `msg` and applies the deltas between consecutive snapshots. */
  function Stream(client: Message, msg: Message, snapshots: seq<Message>): Result<Message>
    decreases |snapshots|
  {
    if snapshots == [] then Ok(client)
    else
      var ds := Diffs(msg, snapshots[0]);
      if ds.Err? then Err else Stream(ApplyAll(client, ds.value), snapshots[0], snapshots[1..])
  }

  predicate AllGrow(msg: Message, snapshots: seq<Message>)
    decreases |snapshots|
  {
    snapshots == [] || (Grows(msg, snapshots[0]) && AllGrow(snapshots[0], snapshots[1..]))
  }

  function Last(msg: Message, snapshots: seq<Message>): Message {
    if snapshots == [] then msg else snapshots[|snapshots| - 1]
  }

  lemma {:induction false} GrowingStreamRebuilt(msg: Message, snapshots: seq<Message>)
    requires AllGrow(msg, snapshots)
    ensures Stream(msg, msg, snapshots) == Ok(Last(msg, snapshots))
    decreases |snapshots|
  {
    hide Diffs, Grows;
    if snapshots != [] {
      RebuiltExactly(msg, snapshots[0]);
      GrowingStreamRebuilt(snapshots[0], snapshots[1..]);
    }
  }

  /** Telescoping: over every run of growing messages no delta computation throws, and the
      deltas applied to the empty message rebuild the last one. */
  lemma DeltasTelescope(snapshots: seq<Message>)
    requires snapshots != [] && AllGrow(snapshots[0], snapshots[1..])
    ensures Stream(EMPTY, EMPTY, snapshots) == Ok(snapshots[|snapshots| - 1])
  {
    GrowingStreamRebuilt(EMPTY, snapshots);
  }

  /** A shrinking text is not reported: no exception and no delta, so the client keeps the
      withdrawn ending. */
  lemma WithdrawnTextIsSilent(msg: Message, k: nat)
    requires k < |msg.content|
    ensures var shorter := msg.(content := msg.content[..k]);
            && Diffs(msg, shorter).Ok?
            && ApplyAll(msg, Diffs(msg, shorter).value) == msg != shorter
  {
    var shorter := msg.(content := msg.content[..k]);
    assert shorter.content <= msg.content && !(msg.content <= shorter.content);
    assert TextDiffs(msg, shorter).value == [Diff("", "", None, NO_DELTA)];
    assert msg.calls[|msg.calls|..] == [];
    assert Diffs(msg, shorter).value == [Diff("", "", None, NO_DELTA)] by {
      if msg.calls != [] {
        StringRebuilt(msg.calls[|msg.calls| - 1].arguments, msg.calls[|msg.calls| - 1].arguments);
      }
    }
    EmptyText(msg);
    ApplyOne(msg, [Diff("", "", None, NO_DELTA)]);
  }
}
