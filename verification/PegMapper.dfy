/** The mapper from parser events to tool calls (`common_chat_peg_mapper`): one step as a
    function of the state, and the class that runs it on its fields. */
module PegMapper {
  import opened Wrappers
  import opened Ascii
  import opened ChatMessage
  import QuoteNormalizer
  import opened JsonStrings

  /** A visited node: its tag and its text. Open and close markers carry no text that is used. */
  datatype Event =
    | Reasoning(text: string)
    | Content(text: string)
    | ToolOpen
    | ToolClose
    | ToolId(text: string)
    | ToolName(text: string)
    | ToolArgs(text: string)
    | ArgOpen
    | ArgClose
    | ArgName(text: string)
    | ArgValue(text: string)
    | ArgString(text: string)
    | Untagged

  /** Where `current_tool` points: nowhere, into the optional pending call, or into the message. */
  datatype Target = Nowhere | AtPending | AtCall(index: nat)

  datatype State = State(
    msg: Message,
    pending: Option<ToolCall>,
    current: Target,
    argCount: nat,
    quotePending: bool,
    buffer: string)

  const NO_CALL := ToolCall("", "", "")

  const INITIAL := State(EMPTY, None, Nowhere, 0, false, "")

  function TrimTrailing(s: string): (r: string)
    ensures r <= s
    ensures r != "" ==> !IsSpace(r[|r| - 1])
    ensures forall i :: |r| <= i < |s| ==> IsSpace(s[i])
  {
    if s != "" && IsSpace(s[|s| - 1]) then TrimTrailing(s[..|s| - 1]) else s
  }

  /** At most one leading space, then all trailing ones. */
  function Trim(s: string): string {
    TrimTrailing(if s != "" && IsSpace(s[0]) then s[1..] else s)
  }

  function Unquote(s: string): string {
    if |s| >= 2 && s[0] == '"' && s[|s| - 1] == '"' then s[1..|s| - 1] else s
  }

  function Repeat(c: char, n: nat): string {
    seq(n, _ => c)
  }

  /** `current_tool` points at a call that exists. After an unnamed call is closed it still
      points at the destroyed pending call; using it then is undefined. */
  predicate Attached(st: State) {
    match st.current
    case Nowhere => false
    case AtPending => st.pending.Some?
    case AtCall(i) => i < |st.msg.calls|
  }

  predicate StartsObject(text: string) {
    text != "" && text[0] == '{'
  }

  /** Events that follow `current_tool` when it is not null. */
  predicate FollowsPointer(ev: Event, quotePending: bool) {
    match ev
    case ToolId(_) => true
    case ToolName(_) => true
    case ToolArgs(text) => StartsObject(TrimTrailing(text))
    case ArgName(_) => true
    case ArgValue(_) => true
    case ArgString(_) => true
    case ToolClose => true
    case ArgClose => quotePending
    case _ => false
  }

  predicate Defined(st: State, ev: Event) {
    st.current == Nowhere || Attached(st) || !FollowsPointer(ev, st.quotePending)
  }

  function Tool(st: State): ToolCall
    requires Attached(st)
  {
    if st.current == AtPending then st.pending.value else st.msg.calls[st.current.index]
  }

  function SetTool(st: State, t: ToolCall): (r: State)
    requires Attached(st)
    ensures Attached(r) && Tool(r) == t
  {
    if st.current == AtPending then st.(pending := Some(t))
    else st.(msg := st.msg.(calls := st.msg.calls[st.current.index := t]))
  }

  /** The text `args_target` refers to: the call's arguments once it has a name. */
  function Args(st: State): string
    requires Attached(st)
  {
    if Tool(st).name != "" then Tool(st).arguments else st.buffer
  }

  function SetArgs(st: State, s: string): State
    requires Attached(st)
  {
    if Tool(st).name != "" then SetTool(st, Tool(st).(arguments := s)) else st.(buffer := s)
  }

  function Opened(st: State): State {
    st.(pending := Some(NO_CALL), current := AtPending, argCount := 0, buffer := "", quotePending := false)
  }

  /** The name arrives: buffered arguments move into the call, and the call into the message. */
  function Named(st: State, text: string): State
    requires Attached(st)
  {
    var t := Tool(st).(name := TrimTrailing(text));
    var args := if st.buffer != "" then st.buffer else if t.arguments == "" then "{" else t.arguments;
    var st := SetTool(st, t.(arguments := args)).(buffer := "");
    if st.pending.Some? then
      st.(msg := st.msg.(calls := st.msg.calls + [st.pending.value]), pending := None,
          current := AtCall(|st.msg.calls|))
    else st
  }

  function ArgNamed(st: State, text: string): State
    requires Attached(st)
  {
    var start := if Args(st) == "" then "{" else Args(st);
    var entry := (if st.argCount > 0 then "," else "") + (Dump(Trim(text)) + ":");
    SetArgs(st, start + entry).(argCount := st.argCount + 1)
  }

  function StringValue(st: State, text: string): State
    requires Attached(st)
  {
    var quote := if text == "" || !st.quotePending then "\"" else "";
    SetArgs(st, Args(st) + (quote + EscapeInner(text))).(quotePending := true)
  }

  /** One `}` for every `{` still open. */
  function CloseBraces(args: string): string {
    var depth := BraceDepth(args);
    args + Repeat('}', if depth > 0 then depth else 0)
  }

  function Closed(st: State): State
    requires Attached(st)
  {
    var t := Tool(st);
    var flush := t.name == "" && st.buffer != "";
    var args := if flush then st.buffer else t.arguments;
    var args := if st.quotePending then args + "\"" else args;
    var buffer := if flush then "" else st.buffer;
    var st := SetTool(st, t.(arguments := CloseBraces(args))).(buffer := buffer, quotePending := false);
    if st.pending.Some? then
      st.(msg := if t.name != "" then st.msg.(calls := st.msg.calls + [st.pending.value]) else st.msg,
          pending := None)
    else st
  }

  function Step(st: State, ev: Event): State {
    match ev
    case Reasoning(text) => st.(msg := st.msg.(reasoning := st.msg.reasoning + text))
    case Content(text) => st.(msg := st.msg.(content := st.msg.content + text))
    case ToolOpen => Opened(st)
    case ArgOpen => st.(quotePending := false)
    case _ => if Attached(st) then ToolStep(st, ev) else st
  }

  function ToolStep(st: State, ev: Event): State
    requires Attached(st)
  {
    match ev
    case ToolId(text) => SetTool(st, Tool(st).(id := Unquote(TrimTrailing(text))))
    case ToolName(text) => Named(st, text)
    case ToolArgs(text) =>
      var text := TrimTrailing(text);
      if StartsObject(text) then SetArgs(st, text) else st
    case ArgName(text) => ArgNamed(st, text)
    case ArgValue(text) => SetArgs(st, Args(st) + QuoteNormalizer.Normalize(text))
    case ArgString(text) => StringValue(st, text)
    case ArgClose =>
      if st.quotePending then SetArgs(st, Args(st) + "\"").(quotePending := false) else st
    case ToolClose => Closed(st)
    case _ => st
  }

  function Run(st: State, evs: seq<Event>): State
    decreases |evs|
  {
    if evs == [] then st else Run(Step(st, evs[0]), evs[1..])
  }

  predicate RunDefined(st: State, evs: seq<Event>)
    decreases |evs|
  {
    evs == [] || (Defined(st, evs[0]) && RunDefined(Step(st, evs[0]), evs[1..]))
  }

  predicate AllBlank(s: string) {
    forall i :: 0 <= i < |s| ==> s[i] == ' ' || s[i] == '\n' || s[i] == '\r' || s[i] == '\t'
  }

  /** After the last event: flush a pending call that has a name, drop blank reasoning. */
  function Finish(st: State): State {
    var st := if st.pending.Some? && st.pending.value.name != "" then Flushed(st) else st;
    st.(msg := st.msg.(reasoning := if AllBlank(st.msg.reasoning) then "" else st.msg.reasoning))
  }

  function Flushed(st: State): State
    requires st.pending.Some?
  {
    var t := st.pending.value;
    var args := if st.buffer != "" then st.buffer else t.arguments;
    var args := if st.quotePending && args != "" then args + "\"" else args;
    st.(msg := st.msg.(calls := st.msg.calls + [t.(arguments := args)]), pending := None)
  }

  class Mapper {
    var result: Message
    var pendingToolCall: Option<ToolCall>
    var currentTool: Target
    var argCount: nat
    var closingQuotePending: bool
    var argsBuffer: string

    function Abs(): State
      reads this
    {
      State(result, pendingToolCall, currentTool, argCount, closingQuotePending, argsBuffer)
    }

    constructor (msg: Message)
      ensures Abs() == INITIAL.(msg := msg)
    {
      result, pendingToolCall, currentTool := msg, None, Nowhere;
      argCount, closingQuotePending, argsBuffer := 0, false, "";
    }

    function Current(): ToolCall
      reads this
      requires Attached(Abs())
      ensures Current() == Tool(Abs())
    {
      if currentTool == AtPending then pendingToolCall.value else result.calls[currentTool.index]
    }

    method Store(t: ToolCall)
      requires Attached(Abs())
      modifies this
      ensures Abs() == SetTool(old(Abs()), t)
    {
      if currentTool == AtPending {
        pendingToolCall := Some(t);
      } else {
        result := result.(calls := result.calls[currentTool.index := t]);
      }
    }

    method StoreArgs(s: string)
      requires Attached(Abs())
      modifies this
      ensures Abs() == SetArgs(old(Abs()), s)
    {
      if Current().name != "" {
        Store(Current().(arguments := s));
      } else {
        argsBuffer := s;
      }
    }

    function Target(): string
      reads this
      requires Attached(Abs())
      ensures Target() == Args(Abs())
    {
      if Current().name != "" then Current().arguments else argsBuffer
    }

    method MapName(text: string)
      requires Attached(Abs())
      modifies this
      ensures Abs() == Named(old(Abs()), text)
    {
      var t := Current().(name := TrimTrailing(text));
      if argsBuffer != "" {
        t := t.(arguments := argsBuffer);
        argsBuffer := "";
      } else if t.arguments == "" {
        t := t.(arguments := "{");
      }
      Store(t);
      if pendingToolCall.Some? {
        currentTool := AtCall(|result.calls|);
        result := result.(calls := result.calls + [pendingToolCall.value]);
        pendingToolCall := None;
      }
    }

    method MapArgName(text: string)
      requires Attached(Abs())
      modifies this
      ensures Abs() == ArgNamed(old(Abs()), text)
    {
      var entry := if argCount > 0 then "," else "";
      entry := entry + (Dump(Trim(text)) + ":");
      argCount := argCount + 1;
      StoreArgs((if Target() == "" then "{" else Target()) + entry);
    }

    /** What a value event appends, and whether a closing quote is due afterwards. */
    static method ValueToAdd(text: string, isString: bool, quotePending: bool) returns (value: string, due: bool)
      ensures isString ==>
                value == (if text == "" || !quotePending then "\"" else "") + EscapeInner(text) && due
      ensures !isString ==> value == QuoteNormalizer.Normalize(text) && due == quotePending
    {
      value, due := "", quotePending;
      if text == "" && isString {
        value := "\"";
        due := true;
      } else if text != "" && isString {
        if !quotePending {
          value := "\"";
          due := true;
        }
        value := value + EscapeInner(text);
      } else if text != "" {
        value := QuoteNormalizer.NormalizeQuotesToJson(text);
      }
    }

    method MapValue(text: string, isString: bool)
      requires Attached(Abs())
      modifies this
      ensures Abs() == ToolStep(old(Abs()), if isString then ArgString(text) else ArgValue(text))
    {
      hide QuoteNormalizer.Normalize, EscapeInner;
      var valueToAdd, due := ValueToAdd(text, isString, closingQuotePending);
      closingQuotePending := due;
      StoreArgs(Target() + valueToAdd);
    }

    static method AddClosingBraces(open: string) returns (args: string)
      ensures args == CloseBraces(open)
    {
      args := open;
      var depth := JsonBraceDepth(open);
      var d := depth;
      while d > 0
        invariant d <= depth && (depth > 0 ==> d >= 0) && (depth <= 0 ==> d == depth)
        invariant args == open + Repeat('}', if depth > 0 then depth - d else 0)
      {
        args := args + "}";
        d := d - 1;
      }
    }

    method MapClose()
      requires Attached(Abs())
      modifies this
      ensures Abs() == Closed(old(Abs()))
    {
      var t := Current();
      if t.name == "" && argsBuffer != "" {
        t := t.(arguments := argsBuffer);
        argsBuffer := "";
      }
      if closingQuotePending {
        t := t.(arguments := t.arguments + "\"");
        closingQuotePending := false;
      }
      var closed := AddClosingBraces(t.arguments);
      t := t.(arguments := closed);
      Store(t);
      if pendingToolCall.Some? {
        if t.name != "" {
          result := result.(calls := result.calls + [pendingToolCall.value]);
        }
        pendingToolCall := None;
      }
    }

    /** One event. Following the pointer into the emptied optional is undefined; the model stops
        there and says so. */
    method Map(ev: Event) returns (defined: bool)
      modifies this
      ensures defined <==> Defined(old(Abs()), ev)
      ensures Abs() == if defined then Step(old(Abs()), ev) else old(Abs())
      ensures ev.Reasoning? ==> defined && result == old(result).(reasoning := old(result.reasoning) + ev.text)
      ensures ev.Content? ==> defined && result == old(result).(content := old(result.content) + ev.text)
    {
      if !Defined(Abs(), ev) {
        return false;
      }
      defined := true;
      if ev.Reasoning? {
        result := result.(reasoning := result.reasoning + ev.text);
      } else if ev.Content? {
        result := result.(content := result.content + ev.text);
      } else if ev.ToolOpen? {
        pendingToolCall, currentTool := Some(NO_CALL), AtPending;
        argCount, argsBuffer, closingQuotePending := 0, "", false;
      } else if ev.ToolId? && currentTool != Nowhere {
        Store(Current().(id := Unquote(TrimTrailing(ev.text))));
      } else if ev.ToolName? && currentTool != Nowhere {
        MapName(ev.text);
      } else if ev.ToolArgs? && currentTool != Nowhere {
        var text := TrimTrailing(ev.text);
        if StartsObject(text) {
          StoreArgs(text);
        }
      } else if ev.ArgOpen? {
        closingQuotePending := false;
      } else if ev.ArgName? && currentTool != Nowhere {
        MapArgName(ev.text);
      } else if (ev.ArgValue? || ev.ArgString?) && currentTool != Nowhere {
        MapValue(ev.text, ev.ArgString?);
      } else if ev.ArgClose? && currentTool != Nowhere {
        if closingQuotePending {
          StoreArgs(Target() + "\"");
          closingQuotePending := false;
        }
      } else if ev.ToolClose? && currentTool != Nowhere {
        MapClose();
      }
    }

    method FromAst(evs: seq<Event>) returns (defined: bool)
      modifies this
      ensures defined <==> RunDefined(old(Abs()), evs)
      ensures defined ==> Abs() == Finish(Run(old(Abs()), evs))
    {
      var i := 0;
      assert evs[0..] == evs;
      while i < |evs|
        invariant 0 <= i <= |evs|
        invariant RunDefined(Abs(), evs[i..]) <==> RunDefined(old(Abs()), evs)
        invariant Run(Abs(), evs[i..]) == Run(old(Abs()), evs)
      {
        assert evs[i..][0] == evs[i] && evs[i..][1..] == evs[i + 1..];
        defined := Map(evs[i]);
        if !defined {
          return;
        }
        i := i + 1;
      }
      defined := true;
      if pendingToolCall.Some? && pendingToolCall.value.name != "" {
        var t := pendingToolCall.value;
        if argsBuffer != "" {
          t := t.(arguments := argsBuffer);
        }
        if closingQuotePending && t.arguments != "" {
          t := t.(arguments := t.arguments + "\"");
        }
        result := result.(calls := result.calls + [t]);
        pendingToolCall := None;
      }
      if result.reasoning != "" {
        var allWhitespace := IsBlank(result.reasoning);
        if allWhitespace {
          result := result.(reasoning := "");
        }
      }
    }

    static method IsBlank(s: string) returns (allWhitespace: bool)
      ensures allWhitespace == AllBlank(s)
    {
      for k := 0 to |s|
        invariant AllBlank(s[..k])
      {
        if s[k] != ' ' && s[k] != '\n' && s[k] != '\r' && s[k] != '\t' {
          return false;
        }
        assert s[..k + 1] == s[..k] + [s[k]];
      }
      assert s[..|s|] == s;
      return true;
    }
  }
}
