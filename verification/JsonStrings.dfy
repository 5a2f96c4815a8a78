/** JSON string dumping and the string-aware brace counter `json_brace_depth`. */
module JsonStrings {
  import opened Ascii
  import opened QuoteMeaning

  function EscapeChar(c: char): string {
    if c == '"' then "\\\""
    else if c == '\\' then "\\\\"
    else if c == '\n' then "\\n"
    else if c == '\t' then "\\t"
    else if c == '\r' then "\\r"
    else if c as int == 8 then "\\b"
    else if c as int == 12 then "\\f"
    else if c as int < 32 then "\\u00" + [HexDigit(c as int / 16), HexDigit(c as int % 16)]
    else [c]
  }

  function EscapeInner(s: string): string {
    if s == "" then "" else EscapeChar(s[0]) + EscapeInner(s[1..])
  }

  /** A string as JSON text, quotes included. */
  function Dump(s: string): string {
    "\"" + EscapeInner(s) + "\""
  }

  lemma {:induction false} EscapeInnerAppend(a: string, b: string)
    ensures EscapeInner(a + b) == EscapeInner(a) + EscapeInner(b)
  {
    if a == "" {
      assert a + b == b;
    } else {
      assert (a + b)[1..] == a[1..] + b;
      EscapeInnerAppend(a[1..], b);
    }
  }

  // ---- Counting braces --------------------------------------------------------------

  datatype Scan = Scan(depth: int, inString: bool, escaped: bool)

  function ScanChar(st: Scan, c: char): Scan {
    if st.escaped then st.(escaped := false)
    else if c == '\\' && st.inString then st.(escaped := true)
    else if c == '"' then st.(inString := !st.inString)
    else if !st.inString && c == '{' then st.(depth := st.depth + 1)
    else if !st.inString && c == '}' then st.(depth := st.depth - 1)
    else st
  }

  function ScanText(st: Scan, s: string): Scan
    decreases |s|
  {
    if s == "" then st else ScanText(ScanChar(st, s[0]), s[1..])
  }

  function BraceDepth(s: string): int {
    ScanText(Scan(0, false, false), s).depth
  }

  method JsonBraceDepth(s: string) returns (depth: int)
    ensures depth == BraceDepth(s)
  {
    depth := 0;
    var inString, escaped := false, false;
    var i := 0;
    while i < |s|
      invariant 0 <= i <= |s|
      invariant ScanText(Scan(depth, inString, escaped), s[i..]) == ScanText(Scan(0, false, false), s)
    {
      var c := s[i];
      assert s[i..][0] == c && s[i..][1..] == s[i + 1..];
      i := i + 1;
      if escaped {
        escaped := false;
        continue;
      }
      if c == '\\' && inString {
        escaped := true;
        continue;
      }
      if c == '"' {
        inString := !inString;
        continue;
      }
      if !inString {
        if c == '{' {
          depth := depth + 1;
        } else if c == '}' {
          depth := depth - 1;
        }
      }
    }
  }

  lemma {:induction false} ScanAppend(st: Scan, a: string, b: string)
    ensures ScanText(st, a + b) == ScanText(ScanText(st, a), b)
    decreases |a|
  {
    if a == "" {
      assert a + b == b;
    } else {
      assert (a + b)[1..] == a[1..] + b;
      ScanAppend(ScanChar(st, a[0]), a[1..], b);
    }
  }

  lemma ScanOne(st: Scan, c: char)
    ensures ScanText(st, [c]) == ScanChar(st, c)
  {
    assert [c][1..] == "";
  }

  /** Text that leaves the counter where it was, outside strings, at any depth. */
  ghost predicate Neutral(s: string) {
    forall d :: ScanText(Scan(d, false, false), s) == Scan(d, false, false)
  }

  lemma NeutralAppend(a: string, b: string)
    requires Neutral(a) && Neutral(b)
    ensures Neutral(a + b)
  {
    forall d ensures ScanText(Scan(d, false, false), a + b) == Scan(d, false, false) {
      ScanAppend(Scan(d, false, false), a, b);
    }
  }

  predicate NoBraces(s: string) {
    forall i :: 0 <= i < |s| ==> s[i] != '{' && s[i] != '}' && s[i] != '"'
  }

  lemma {:induction false} NoBracesNeutral(s: string)
    requires NoBraces(s)
    ensures Neutral(s)
  {
    if s != "" {
      NoBracesNeutral(s[1..]);
    }
  }

  lemma BracesNeutral(s: string)
    requires Neutral(s)
    ensures Neutral("{" + s + "}")
  {
    forall d ensures ScanText(Scan(d, false, false), "{" + s + "}") == Scan(d, false, false) {
      BracesScanned(d, s);
    }
  }

  lemma BracesScanned(d: int, s: string)
    requires ScanText(Scan(d + 1, false, false), s) == Scan(d + 1, false, false)
    ensures ScanText(Scan(d, false, false), "{" + s) == Scan(d + 1, false, false)
    ensures ScanText(Scan(d, false, false), "{" + s + "}") == Scan(d, false, false)
  {
    hide ScanText;
    ScanOne(Scan(d, false, false), '{');
    ScanOne(Scan(d + 1, false, false), '}');
    ScanAppend(Scan(d, false, false), "{", s);
    ScanAppend(Scan(d, false, false), "{" + s, "}");
  }

  /** Text that leaves the counter inside a string where it was. */
  ghost predicate InnerNeutral(s: string) {
    forall d :: ScanText(Scan(d, true, false), s) == Scan(d, true, false)
  }

  lemma InnerNeutralAppend(a: string, b: string)
    requires InnerNeutral(a) && InnerNeutral(b)
    ensures InnerNeutral(a + b)
  {
    forall d ensures ScanText(Scan(d, true, false), a + b) == Scan(d, true, false) {
      ScanAppend(Scan(d, true, false), a, b);
    }
  }

  lemma QuotedNeutral(s: string)
    requires InnerNeutral(s)
    ensures Neutral("\"" + s + "\"")
  {
    forall d ensures ScanText(Scan(d, false, false), "\"" + s + "\"") == Scan(d, false, false) {
      ScanAppend(Scan(d, false, false), "\"" + s, "\"");
      ScanAppend(Scan(d, false, false), "\"", s);
      ScanOne(Scan(d, false, false), '"');
      ScanOne(Scan(d, true, false), '"');
      hide ScanText;
    }
  }

  lemma PlainInner(c: char)
    requires c != '"' && c != '\\'
    ensures InnerNeutral([c])
  {
    forall d ensures ScanText(Scan(d, true, false), [c]) == Scan(d, true, false) {
      ScanOne(Scan(d, true, false), c);
    }
  }

  lemma EscapedInner(c: char)
    ensures InnerNeutral(['\\', c])
  {
    forall d ensures ScanText(Scan(d, true, false), ['\\', c]) == Scan(d, true, false) {
      assert ['\\', c][1..] == [c];
      ScanOne(Scan(d, true, true), c);
    }
  }

  lemma EscapeCharInner(c: char)
    ensures InnerNeutral(EscapeChar(c))
  {
    hide ScanText, ScanChar, InnerNeutral;
    var e := EscapeChar(c);
    if |e| == 1 {
      PlainInner(c);
    } else if |e| == 2 {
      EscapedInner(e[1]);
      assert e == ['\\', e[1]];
    } else {
      HexInner(c as int / 16, c as int % 16);
    }
  }

  lemma HexInner(a: int, b: int)
    requires 0 <= a < 16 && 0 <= b < 16
    ensures InnerNeutral("\\u00" + [HexDigit(a), HexDigit(b)])
  {
    hide ScanText, ScanChar, InnerNeutral;
    EscapedInner('u');
    PlainInner('0');
    PlainInner(HexDigit(a));
    PlainInner(HexDigit(b));
    InnerNeutralAppend("\\u", "0");
    InnerNeutralAppend("\\u" + "0", "0");
    InnerNeutralAppend("\\u" + "0" + "0", [HexDigit(a)]);
    InnerNeutralAppend("\\u" + "0" + "0" + [HexDigit(a)], [HexDigit(b)]);
    assert "\\u" + "0" + "0" + [HexDigit(a)] + [HexDigit(b)] == "\\u00" + [HexDigit(a), HexDigit(b)];
  }

  lemma {:induction false} EscapeInnerNeutral(s: string)
    ensures InnerNeutral(EscapeInner(s))
  {
    hide ScanChar;
    if s != "" {
      EscapeCharInner(s[0]);
      EscapeInnerNeutral(s[1..]);
      InnerNeutralAppend(EscapeChar(s[0]), EscapeInner(s[1..]));
    }
  }

  /** A dumped string never moves the brace counter, whatever it contains. */
  lemma DumpNeutral(s: string)
    ensures Neutral(Dump(s))
  {
    EscapeInnerNeutral(s);
    QuotedNeutral(EscapeInner(s));
  }

  lemma {:induction false} SpellNeutral(body: seq<Atom>)
    requires WellSpelled(DoubleQuote, body)
    ensures InnerNeutral(Spell(body))
  {
    hide ScanChar;
    if body != [] {
      match body[0] {
        case Raw(c) => PlainInner(c);
        case Esc(c) => EscapedInner(c);
      }
      SpellNeutral(body[1..]);
      InnerNeutralAppend(SpellAtom(body[0]), Spell(body[1..]));
    }
  }

  lemma LiteralNeutral(l: Literal)
    requires WellSpelled(l.quote, l.body)
    ensures Neutral(LiteralText(Json, l))
  {
    hide InnerNeutral, Neutral;
    SpellNeutral(JsonBody(l.quote, l.body));
    QuotedNeutral(Spell(JsonBody(l.quote, l.body)));
  }

  /** The JSON text of every value tree is balanced. */
  lemma {:induction false} TreeNeutral(v: Value)
    requires WellFormed(v)
    ensures Neutral(Text(Json, v))
    decreases v, 1
  {
    hide Neutral, ScanText;
    match v
    case Num(text) => NoBracesNeutral(text);
    case Str(l) => LiteralNeutral(l);
    case List(blank, items) =>
      ItemsNeutral(items);
      EnclosedNeutral("[" + blank, ItemsText(Json, items), "]");
    case Dict(blank, keys, values) =>
      EntriesNeutral(keys, values);
      BracedNeutral(blank, EntriesText(Json, keys, values));
    case Padded(before, inner, after) =>
      TreeNeutral(inner);
      EnclosedNeutral(before, Text(Json, inner), after);
    case Nil => NoBracesNeutral("null");
    case Bool(b) => NoBracesNeutral(Keyword(Json, v));
  }

  lemma EnclosedNeutral(open: string, s: string, close: string)
    requires NoBraces(open) && Neutral(s) && NoBraces(close)
    ensures Neutral(open + s + close)
  {
    hide Neutral, ScanText;
    NoBracesNeutral(open);
    NoBracesNeutral(close);
    NeutralAppend(open, s);
    NeutralAppend(open + s, close);
  }

  lemma BracedNeutral(blank: string, s: string)
    requires Blank(blank) && Neutral(s)
    ensures Neutral(("{" + blank) + s + "}")
  {
    hide Neutral, ScanText;
    NoBracesNeutral(blank);
    NeutralAppend(blank, s);
    BracesNeutral(blank + s);
    assert ("{" + blank) + s + "}" == "{" + (blank + s) + "}";
  }

  lemma SeparatorNeutral(a: string, sep: string, b: string)
    requires Neutral(a) && Neutral(b) && NoBraces(sep)
    ensures Neutral(a + sep + b)
  {
    hide Neutral, ScanText;
    NoBracesNeutral(sep);
    NeutralAppend(a, sep);
    NeutralAppend(a + sep, b);
  }

  lemma {:induction false} ItemsNeutral(items: seq<Value>)
    requires forall i :: 0 <= i < |items| ==> WellFormed(items[i])
    ensures Neutral(ItemsText(Json, items))
    decreases items, 0
  {
    hide Neutral, ScanText;
    if items == [] {
      NoBracesNeutral("");
    } else {
      TreeNeutral(items[0]);
      if |items| > 1 {
        ItemsNeutral(items[1..]);
        SeparatorNeutral(Text(Json, items[0]), ",", ItemsText(Json, items[1..]));
      }
    }
  }

  lemma {:induction false} EntriesNeutral(keys: seq<Key>, values: seq<Value>)
    requires |keys| == |values|
    requires forall i :: 0 <= i < |keys| ==> GoodKey(keys[i])
    requires forall i :: 0 <= i < |values| ==> WellFormed(values[i])
    ensures Neutral(EntriesText(Json, keys, values))
    decreases values, 0
  {
    hide Neutral, ScanText, LiteralText;
    if keys == [] {
      NoBracesNeutral("");
    } else {
      var key := keys[0];
      LiteralNeutral(key.lit);
      EnclosedNeutral(key.before, LiteralText(Json, key.lit), key.after);
      TreeNeutral(values[0]);
      SeparatorNeutral(KeyText(Json, key), ":", Text(Json, values[0]));
      if |keys| > 1 {
        EntriesNeutral(keys[1..], values[1..]);
        SeparatorNeutral(EntryText(Json, key, values[0]), ",", EntriesText(Json, keys[1..], values[1..]));
      }
    }
  }

  // ---- What is counted --------------------------------------------------------------

  function Count(s: string, c: char): nat {
    if s == "" then 0 else (if s[0] == c then 1 else 0) + Count(s[1..], c)
  }

  lemma {:induction false} PlainDepth(d: int, s: string)
    requires forall i :: 0 <= i < |s| ==> s[i] != '"'
    ensures ScanText(Scan(d, false, false), s) == Scan(d + Count(s, '{') - Count(s, '}'), false, false)
    decreases |s|
  {
    if s != "" {
      PlainDepth(ScanChar(Scan(d, false, false), s[0]).depth, s[1..]);
    }
  }

  /** Outside strings opening braces count up and closing ones down, and no other bracket
      counts; a string in between counts for nothing, whatever it holds. */
  lemma DepthExactly(a: string, held: string, b: string)
    requires forall i :: 0 <= i < |a| ==> a[i] != '"'
    requires forall i :: 0 <= i < |b| ==> b[i] != '"'
    ensures BraceDepth(a) == Count(a, '{') - Count(a, '}')
    ensures BraceDepth(a + Dump(held) + b) == Count(a, '{') - Count(a, '}') + Count(b, '{') - Count(b, '}')
  {
    hide ScanText, Dump, Neutral;
    PlainDepth(0, a);
    var d := BraceDepth(a);
    ScanAppend(Scan(0, false, false), a + Dump(held), b);
    ScanAppend(Scan(0, false, false), a, Dump(held));
    assert ScanText(Scan(d, false, false), Dump(held)) == Scan(d, false, false) by { DumpPassed(d, held); }
    PlainDepth(d, b);
  }

  lemma DumpPassed(d: int, held: string)
    ensures ScanText(Scan(d, false, false), Dump(held)) == Scan(d, false, false)
  {
    hide ScanText, Dump;
    DumpNeutral(held);
  }

  /** How a character is dumped: quote, backslash and five control characters by their letters,
      the other control characters by two hexadecimal digits, and any other as it is. */
  lemma EscapesSpelled(c: char)
    ensures Dump([c]) ==
            match c
            case '"' => "\"\\\"\""
            case '\\' => "\"\\\\\""
            case '\n' => "\"\\n\""
            case '\t' => "\"\\t\""
            case '\r' => "\"\\r\""
            case _ =>
              if c as int == 8 then "\"\\b\""
              else if c as int == 12 then "\"\\f\""
              else if c as int < 32 then
                "\"\\u00" + ["0123456789abcdef"[c as int / 16], "0123456789abcdef"[c as int % 16]] + "\""
              else ['"', c, '"']
  {
    assert [c][1..] == "";
    assert EscapeInner([c]) == EscapeChar(c) + "" == EscapeChar(c);
  }
}
