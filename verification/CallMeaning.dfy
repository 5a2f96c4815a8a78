/** The arguments of an assembled call as JSON: they read as the object of the argument names
    and values the call's events carried. */
module CallMeaning {
  import opened Wrappers
  import opened ChatMessage
  import QuoteNormalizer
  import QuoteMeaning
  import opened JsonStrings
  import opened JsonReader
  import opened JsonMeaning
  import opened PegMapper
  import opened PegMapperRuns

  /** What an argument's value denotes: a string its characters, a container text what its
      normalized form reads as. */
  function ArgMeaning(arg: Arg): Option<JsonValue> {
    match arg
    case StringArg(_, value) => Some(JStr(Codes(value)))
    case ContainerArg(_, text) => ReadText(QuoteNormalizer.Normalize(text))
  }

  function ArgsMeaning(args: seq<Arg>): Option<seq<Member>> {
    if args == [] then Some([])
    else
      var m, rest := ArgMeaning(args[0]), ArgsMeaning(args[1..]);
      if m.Some? && rest.Some? then Some([Member(Codes(Trim(args[0].name)), m.value)] + rest.value) else None
  }

  lemma ValueRead(arg: Arg, rest: string)
    requires ArgMeaning(arg).Some? && Stops(rest)
    ensures var v := ReadValue(SkipBlank(ValueText(arg) + rest));
            v.Read? && v.value == ArgMeaning(arg).value && SkipBlank(v.rest) == SkipBlank(rest)
  {
    hide Dump, Codes, ReadText, QuoteNormalizer.Normalize, ReadString, SkipBlank;
    match arg
    case StringArg(_, value) =>
      DumpRead(value, rest);
      NoBlank(Dump(value) + rest);
    case ContainerArg(_, text) =>
      TextThen(QuoteNormalizer.Normalize(text), rest);
  }

  lemma NoBlank(s: string)
    requires s != "" && !IsBlank(s[0])
    ensures SkipBlank(s) == s
  {
  }

  lemma MemberRead(arg: Arg, rest: string)
    requires ArgMeaning(arg).Some? && Stops(rest)
    ensures var s := MemberText(arg) + rest;
            && s != "" && s[0] == '"'
            && var m := ReadMember(s);
               && m.Read? && m.value == Member(Codes(Trim(arg.name)), ArgMeaning(arg).value)
               && SkipBlank(m.rest) == SkipBlank(rest)
  {
    hide Dump, Codes, ValueText, ArgMeaning, ReadString, ReadValue, SkipBlank, Trim, Stops;
    var name := Trim(arg.name);
    var v := ValueText(arg) + rest;
    assert MemberText(arg) + rest == Dump(name) + (":" + v);
    DumpRead(name, ":" + v);
    NoBlank(":" + v);
    assert (":" + v)[1..] == v;
    ValueRead(arg, rest);
  }

  function MembersFront(args: seq<Arg>): string
    requires args != []
  {
    if |args| == 1 then "" else "," + MembersText(args[1..])
  }

  lemma MembersSplit(args: seq<Arg>)
    requires args != []
    ensures MembersText(args) == MemberText(args[0]) + MembersFront(args)
  {
  }

  lemma {:induction false} MembersRead(args: seq<Arg>)
    requires args != [] && ArgsMeaning(args).Some?
    ensures var s := MembersText(args) + "}";
            s != "" && s[0] == '"' && ReadMembers(s) == Read(ArgsMeaning(args).value, "")
    decreases |args|
  {
    hide MemberText, ArgMeaning, ReadMember, Codes, Trim;
    var more := MembersFront(args) + "}";
    MembersSplit(args);
    assert MembersText(args) + "}" == MemberText(args[0]) + more;
    MemberRead(args[0], more);
    NoBlank(more);
    if |args| == 1 {
      assert more == "}" && more[1..] == "";
      var m := Member(Codes(Trim(args[0].name)), ArgMeaning(args[0]).value);
      assert [m] + [] == [m];
    } else {
      var tail := MembersText(args[1..]) + "}";
      assert more == "," + tail && more[1..] == tail;
      MembersRead(args[1..]);
      NoBlank(tail);
    }
  }

  /** The object text of any arguments whose containers normalize to JSON reads as the object of
      their names and values, in order. */
  lemma ObjectReads(args: seq<Arg>)
    requires ArgsMeaning(args).Some?
    ensures ReadText(ObjectText(args)) == Some(JObj(ArgsMeaning(args).value))
  {
    hide ArgsMeaning, MembersText, ReadMembers;
    var s := ObjectText(args);
    var t := MembersText(args) + "}";
    assert s == "{" + t && s[1..] == t;
    NoBlank(s);
    if args == [] {
      NoMembers();
      assert t == "}" && SkipBlank(t) == t && t[1..] == "";
    } else {
      MembersRead(args);
      NoBlank(t);
    }
  }

  lemma NoMembers()
    ensures MembersText([]) == "" && ArgsMeaning([]) == Some([])
  {
  }

  /** Such containers are balanced. */
  lemma {:induction false} ReadableIsBalanced(args: seq<Arg>)
    requires ArgsMeaning(args).Some?
    ensures BalancedArgs(args)
    decreases |args|
  {
    hide ReadText, QuoteNormalizer.Normalize, Neutral, Codes;
    if args != [] {
      ReadableIsBalanced(args[1..]);
      if args[0].ContainerArg? {
        JsonTextNeutral(QuoteNormalizer.Normalize(args[0].text));
      }
      assert forall i :: 1 <= i < |args| ==> args[i] == args[1..][i - 1];
    }
  }

  /** The events of a call, its name at any place among them, add one call, and its arguments
      are a JSON text for the object of the argument names and values. */
  lemma CallReads(st: State, name: string, args: seq<Arg>, k: nat)
    requires TrimTrailing(name) != "" && ArgsMeaning(args).Some? && k <= |AllEvents(args)|
    ensures var evs := [ToolOpen] + AllEvents(args)[..k] + [ToolName(name)] + AllEvents(args)[k..] + [ToolClose];
            && Run(st, evs).msg == st.msg.(calls := st.msg.calls + [ToolCall(TrimTrailing(name), ObjectText(args), "")])
            && ReadText(ObjectText(args)) == Some(JObj(ArgsMeaning(args).value))
  {
    hide Run, ReadText, ObjectText, ArgsMeaning, AllEvents, BalancedArgs, TrimTrailing;
    ReadableIsBalanced(args);
    CallAssembledAnywhere(st, name, args, k);
    ObjectReads(args);
  }

  /** The Python text of a tree denotes, as an argument, what the tree denotes in Python exactly
      when both languages read all its literals alike. */
  lemma TreeArgument(name: string, v: QuoteMeaning.Value)
    requires QuoteMeaning.WellFormed(v) && JsonNumbers(v)
    ensures var m := ArgMeaning(ContainerArg(name, QuoteMeaning.Text(QuoteMeaning.Python, v)));
            m.Some? && m == Meaning(QuoteMeaning.Python, v) <==> AllShared(v)
  {
    hide QuoteMeaning.Text, Meaning, QuoteMeaning.WellFormed, JsonNumbers, AllShared, ReadText;
    hide QuoteNormalizer.Normalize;
    TreeMeaningExactly(v);
  }

  /** Arguments that arrive whole, as a JSON object before or behind the name, are kept as they
      came, trailing white space aside. */
  lemma WholeReads(st: State, name: string, text: string)
    requires TrimTrailing(name) != "" && StartsObject(TrimTrailing(text)) && ReadText(TrimTrailing(text)).Some?
    ensures var msg := st.msg.(calls := st.msg.calls + [ToolCall(TrimTrailing(name), TrimTrailing(text), "")]);
            && Run(st, [ToolOpen, ToolName(name), ToolArgs(text), ToolClose]).msg == msg
            && Run(st, [ToolOpen, ToolArgs(text), ToolName(name), ToolClose]).msg == msg
  {
    hide Run, ReadText, TrimTrailing, CloseBraces;
    WholeAssembled(st, name, text);
    WholeEitherWay(st, name, text);
    JsonTextNeutral(TrimTrailing(text));
    NeutralCloses(TrimTrailing(text));
  }

  lemma NeutralCloses(s: string)
    requires Neutral(s)
    ensures CloseBraces(s) == s
  {
    hide ScanText;
    assert ScanText(Scan(0, false, false), s) == Scan(0, false, false);
    assert s + [] == s;
  }
}
