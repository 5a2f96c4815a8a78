/** Where the texts of the events go: content and reasoning of the message, the id of a call,
    and what trimming takes off names and ids. */
module PegMapperTexts {
  import opened Ascii
  import opened ChatMessage
  import opened JsonStrings
  import opened PegMapper
  import opened PegMapperRuns
  import opened PegMapperCalls

  // ---- Content and reasoning --------------------------------------------------------

  /** The texts of the content events, in order. */
  function ContentTexts(evs: seq<Event>): string {
    if evs == [] then "" else (if evs[0].Content? then evs[0].text else "") + ContentTexts(evs[1..])
  }

  /** The texts of the reasoning events, in order. */
  function ReasoningTexts(evs: seq<Event>): string {
    if evs == [] then "" else (if evs[0].Reasoning? then evs[0].text else "") + ReasoningTexts(evs[1..])
  }

  lemma StepTexts(st: State, ev: Event)
    ensures Step(st, ev).msg.content == st.msg.content + if ev.Content? then ev.text else ""
    ensures Step(st, ev).msg.reasoning == st.msg.reasoning + if ev.Reasoning? then ev.text else ""
  {
    hide EscapeInner, QuoteNormalizer.Normalize, Trim, Unquote, TrimTrailing, Dump, CloseBraces;
  }

  lemma {:induction false} RunTexts(st: State, evs: seq<Event>)
    ensures Run(st, evs).msg.content == st.msg.content + ContentTexts(evs)
    ensures Run(st, evs).msg.reasoning == st.msg.reasoning + ReasoningTexts(evs)
    decreases |evs|
  {
    hide Step;
    if evs != [] {
      StepTexts(st, evs[0]);
      RunTexts(Step(st, evs[0]), evs[1..]);
    }
  }

  /** A visit adds the content texts to the content and the reasoning texts to the reasoning; a
      reasoning of blanks, tabs and line ends only is dropped. */
  lemma VisitTexts(st: State, evs: seq<Event>)
    ensures var reasoning := st.msg.reasoning + ReasoningTexts(evs);
            var msg := Finish(Run(st, evs)).msg;
            && msg.content == st.msg.content + ContentTexts(evs)
            && msg.reasoning == (if forall i :: 0 <= i < |reasoning| ==> reasoning[i] in [' ', '\t', '\n', '\r']
                                 then "" else reasoning)
  {
    hide Run;
    RunTexts(st, evs);
  }

  // ---- Trimming ---------------------------------------------------------------------

  /** A blank, tab, line feed, vertical tab, form feed or carriage return. */
  predicate White(c: char) {
    c == ' ' || c == '\t' || c == '\n' || c as int == 11 || c as int == 12 || c == '\r'
  }

  /** `r` is `s` without its trailing white space. */
  predicate WithoutTail(s: string, r: string) {
    && r <= s && (r != "" ==> !White(r[|r| - 1]))
    && forall i :: |r| <= i < |s| ==> White(s[i])
  }

  lemma NotShorter(s: string, r: string, t: string)
    requires WithoutTail(s, r) && WithoutTail(s, t)
    ensures |t| <= |r|
  {
    assert t != "" ==> t[|t| - 1] == s[|t| - 1];
  }

  lemma TrimTrailingExactly(s: string, r: string)
    ensures TrimTrailing(s) == r <==> WithoutTail(s, r)
  {
    hide TrimTrailing;
    var t := TrimTrailing(s);
    if WithoutTail(s, r) {
      NotShorter(s, r, t);
      NotShorter(s, t, r);
      assert r == s[..|r|] && t == s[..|t|];
    }
  }

  /** An argument name loses one leading white space character and all trailing ones. */
  lemma TrimExactly(s: string, r: string)
    ensures Trim(s) == r <==> WithoutTail(if s != "" && White(s[0]) then s[1..] else s, r)
  {
    hide TrimTrailing;
    TrimTrailingExactly(if s != "" && White(s[0]) then s[1..] else s, r);
  }

  // ---- The id of a call -------------------------------------------------------------

  /** `id` is what an id event says: its text without trailing white space, and without the
      double quotes around it if it has them. */
  ghost predicate IdFrom(text: string, id: string) {
    exists t :: && WithoutTail(text, t)
                && if |t| >= 2 && t[0] == '"' && t[|t| - 1] == '"' then t == "\"" + id + "\"" else t == id
  }

  predicate HasId(evs: seq<Event>) {
    exists i :: 0 <= i < |evs| && evs[i].ToolId?
  }

  /** The last id event. */
  function LastId(evs: seq<Event>): string
    requires HasId(evs)
  {
    if evs[|evs| - 1].ToolId? then evs[|evs| - 1].text else LastId(evs[..|evs| - 1])
  }

  lemma UnquotedId(text: string, id: string)
    ensures Unquote(TrimTrailing(text)) == id <==> IdFrom(text, id)
  {
    hide TrimTrailing, White;
    var t := TrimTrailing(text);
    TrimTrailingExactly(text, t);
    if IdFrom(text, id) {
      var u :| && WithoutTail(text, u)
               && if |u| >= 2 && u[0] == '"' && u[|u| - 1] == '"' then u == "\"" + id + "\"" else u == id;
      TrimTrailingExactly(text, u);
      assert ("\"" + id + "\"")[1..|id| + 1] == id;
    }
    if Unquote(t) == id {
      assert |t| >= 2 && t[0] == '"' && t[|t| - 1] == '"' ==> t == "\"" + t[1..|t| - 1] + "\"";
    }
  }

  lemma StepIds(st: State, ev: Event)
    requires InCall(st) && !ev.ToolOpen? && !ev.ToolClose?
    ensures Attached(Step(st, ev))
    ensures Tool(Step(st, ev)).id == if ev.ToolId? then Unquote(TrimTrailing(ev.text)) else Tool(st).id
  {
    hide EscapeInner, QuoteNormalizer.Normalize, Trim, Unquote, TrimTrailing, Dump;
  }

  lemma {:induction false} RunIds(st: State, evs: seq<Event>)
    requires InCall(st) && InsideCall(evs)
    ensures var end := Run(st, evs);
            InCall(end) && Tool(end).id == if HasId(evs) then Unquote(TrimTrailing(LastId(evs))) else Tool(st).id
    decreases |evs|
  {
    hide Step, InCall, TrimTrailing, Unquote;
    if evs != [] {
      var n := |evs| - 1;
      var front, last := evs[..n], evs[n];
      assert evs == front + [last];
      RunIds(st, front);
      RunInCall(st, front);
      RunAppend(st, front, [last]);
      RunOne(Run(st, front), last);
      StepIds(Run(st, front), last);
      StepInCall(Run(st, front), last);
      if HasId(evs) && !last.ToolId? {
        var i :| 0 <= i < |evs| && evs[i].ToolId?;
        assert front[i].ToolId?;
      }
    }
  }

  lemma CloseKeepsId(st: State)
    requires InCall(st) && st.pending.None?
    ensures var calls := Step(st, ToolClose).msg.calls;
            |calls| == |st.msg.calls| > 0 && calls[|calls| - 1].id == Tool(st).id
  {
    hide CloseBraces;
  }

  /** The call a run of events adds has the id its last id event says, and none without one. */
  lemma CallIdentified(st: State, evs: seq<Event>)
    requires Consistent(st) && InsideCall(evs) && HasName(evs)
    ensures var calls := Run(st, [ToolOpen] + evs + [ToolClose]).msg.calls;
            && |calls| == |st.msg.calls| + 1
            && (if HasId(evs) then IdFrom(LastId(evs), calls[|st.msg.calls|].id)
                else calls[|st.msg.calls|].id == "")
  {
    hide Run, HasName, HasId, LastId, IdFrom, TrimTrailing, Unquote, InCall;
    var u := Step(st, ToolOpen);
    OpenedInCall(st);
    RunOne(st, ToolOpen);
    RunAppend(st, [ToolOpen], evs);
    RunAppend(st, [ToolOpen] + evs, [ToolClose]);
    RunOne(Run(u, evs), ToolClose);
    RunIds(u, evs);
    RunInCall(u, evs);
    NamedNotPending(u, evs);
    CloseKeepsId(Run(u, evs));
    if HasId(evs) {
      UnquotedId(LastId(evs), Unquote(TrimTrailing(LastId(evs))));
    }
  }

  // ---- Values on their own ----------------------------------------------------------

  /** An argument is written the same whether or not the one before it was closed. */
  lemma ArgumentAlone(st: State, arg: Arg)
    requires Filling(st.(quotePending := false))
    ensures Run(st, ArgEvents(arg)) == Extended(st.(quotePending := false), Comma(st) + MemberText(arg), 1)
  {
    hide MemberText, Extended, Run, Filling;
    var clean := st.(quotePending := false);
    OneArg(clean, arg);
    RunFour(st, ArgEvents(arg));
    RunFour(clean, ArgEvents(arg));
    assert ArgEvents(arg)[0] == ArgOpen;
    assert Step(st, ArgOpen) == Step(clean, ArgOpen);
  }

  /** A string value in two pieces is the value of both together, unless the second is empty:
      then a quote too many is written. */
  lemma PiecesJoin(st: State, a: string, b: string)
    requires Filling(st)
    ensures Run(st, [ArgString(a), ArgString(b), ArgClose]) == Run(st, [ArgString(a + b), ArgClose]) <==> b != ""
  {
    hide EscapeInner, Run;
    RunTwo(st, ArgString(a + b), ArgClose);
    StringSteps(st, a + b);
    EscapeInnerAppend(a, b);
    var evs := [ArgString(a), ArgString(b), ArgClose];
    assert evs == [ArgString(a)] + [ArgString(b), ArgClose];
    RunAppend(st, [ArgString(a)], [ArgString(b), ArgClose]);
    RunOne(st, ArgString(a));
    var one := Step(st, ArgString(a));
    RunTwo(one, ArgString(b), ArgClose);
    var end := Step(Step(one, ArgString(b)), ArgClose);
    var quote := if b == "" then "\"" else "";
    PieceSteps(st, a, b);
    TwoPieces(Tool(st).arguments, EscapeInner(a), quote, EscapeInner(b));
    assert Tool(end).arguments == Tool(st).arguments + ("\"" + EscapeInner(a) + quote + EscapeInner(b) + "\"");
    if b == "" {
      assert |Tool(end).arguments| != |Tool(Extended(st, Dump(a + b), 0)).arguments|;
    }
  }

  lemma PieceSteps(st: State, a: string, b: string)
    requires Filling(st)
    ensures var quote := if b == "" then "\"" else "";
            var end := Step(Step(Step(st, ArgString(a)), ArgString(b)), ArgClose);
            && Attached(end)
            && end == Extended(st, "", 0).(msg := end.msg)
            && end.msg == SetTool(st, Tool(st).(arguments :=
                            Tool(st).arguments + ("\"" + EscapeInner(a)) + (quote + EscapeInner(b)) + "\"")).msg
  {
    hide EscapeInner;
  }

  lemma TwoPieces(args: string, a: string, quote: string, b: string)
    ensures args + ("\"" + a) + (quote + b) + "\"" == args + ("\"" + a + quote + b + "\"")
    ensures quote == "" ==> "\"" + a + quote + b + "\"" == "\"" + (a + b) + "\""
  {
  }
}
