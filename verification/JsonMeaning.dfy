/** What value trees mean: the JSON text a tree is normalized to reads back as the value its
    Python text denotes exactly when every string literal is spelled alike in both languages. */
module JsonMeaning {
  import opened Wrappers
  import opened Ascii
  import opened QuoteNormalizer
  import opened QuoteMeaning
  import opened QuoteLiterals
  import opened JsonStrings
  import opened JsonReader

  // ---- Meanings ---------------------------------------------------------------------

  /** What a literal denotes in a dialect; JSON reads the rewritten literal. */
  function LiteralValue(d: Dialect, l: Literal): Option<Units> {
    if d == Python then PyRead(Spell(l.body)) else JsonRead(Spell(JsonBody(l.quote, l.body)))
  }

  function Meaning(d: Dialect, v: Value): Option<JsonValue>
    requires WellFormed(v)
    decreases v, 1
  {
    match v
    case Nil => Some(JNull)
    case Bool(b) => Some(JBool(b))
    case Num(text) => Some(JNum(text))
    case Str(l) => if LiteralValue(d, l).Some? then Some(JStr(LiteralValue(d, l).value)) else None
    case List(_, items) =>
      var m := ItemsMeaning(d, items);
      if m.Some? then Some(JArr(m.value)) else None
    case Dict(_, keys, values) =>
      var m := EntriesMeaning(d, keys, values);
      if m.Some? then Some(JObj(m.value)) else None
    case Padded(_, inner, _) => Meaning(d, inner)
  }

  function ItemsMeaning(d: Dialect, items: seq<Value>): Option<seq<JsonValue>>
    requires forall i :: 0 <= i < |items| ==> WellFormed(items[i])
    decreases items, 0
  {
    if items == [] then Some([])
    else
      var m, rest := Meaning(d, items[0]), ItemsMeaning(d, items[1..]);
      if m.Some? && rest.Some? then Some([m.value] + rest.value) else None
  }

  function EntryMeaning(d: Dialect, key: Key, value: Value): Option<Member>
    requires WellFormed(value)
    decreases value, 2
  {
    var k, m := LiteralValue(d, key.lit), Meaning(d, value);
    if k.Some? && m.Some? then Some(Member(k.value, m.value)) else None
  }

  function EntriesMeaning(d: Dialect, keys: seq<Key>, values: seq<Value>): Option<seq<Member>>
    requires |keys| == |values|
    requires forall i :: 0 <= i < |values| ==> WellFormed(values[i])
    decreases values, 0
  {
    if keys == [] then Some([])
    else
      var m, rest := EntryMeaning(d, keys[0], values[0]), EntriesMeaning(d, keys[1..], values[1..]);
      if m.Some? && rest.Some? then Some([m.value] + rest.value) else None
  }

  /** The numbers of the tree are written as JSON writes numbers. */
  predicate JsonNumbers(v: Value) {
    match v
    case Num(text) => JsonNumber(text)
    case List(_, items) => forall i :: 0 <= i < |items| ==> JsonNumbers(items[i])
    case Dict(_, keys, values) => forall i :: 0 <= i < |values| ==> JsonNumbers(values[i])
    case Padded(_, inner, _) => JsonNumbers(inner)
    case _ => true
  }

  predicate SharedLiteral(l: Literal) {
    Shared(l.quote, l.body)
  }

  /** Every literal of the tree uses the spellings both languages read alike. */
  predicate AllShared(v: Value) {
    match v
    case Str(l) => SharedLiteral(l)
    case List(_, items) => forall i :: 0 <= i < |items| ==> AllShared(items[i])
    case Dict(_, keys, values) =>
      && (forall i :: 0 <= i < |keys| ==> SharedLiteral(keys[i].lit))
      && (forall i :: 0 <= i < |values| ==> AllShared(values[i]))
    case Padded(_, inner, _) => AllShared(inner)
    case _ => true
  }

  // ---- Reading the text of a tree ---------------------------------------------------

  /** In front of `rest`, `t` reads as `m`, up to white space, or not at all. */
  predicate ReadsAs(t: string, m: Option<JsonValue>, rest: string) {
    var r := ReadValue(SkipBlank(t + rest));
    if m.Some? then r.Read? && r.value == m.value && SkipBlank(r.rest) == SkipBlank(rest) else r.NotJson?
  }

  lemma {:induction false} BlankSkipped(blank: string, s: string)
    requires Blank(blank)
    ensures SkipBlank(blank + s) == SkipBlank(s)
    decreases |blank|
  {
    if blank == "" {
      assert blank + s == s;
    } else {
      assert (blank + s)[1..] == blank[1..] + s;
      BlankSkipped(blank[1..], s);
    }
  }

  lemma {:induction false} SpelledEnd(body: seq<Atom>, rest: string)
    requires WellSpelled(DoubleQuote, body)
    ensures BodyEnd(Spell(body) + ("\"" + rest)) == |Spell(body)|
    decreases |body|
  {
    if body == [] {
      assert Spell(body) + ("\"" + rest) == "\"" + rest;
    } else {
      var a, tail := SpellAtom(body[0]), Spell(body[1..]) + ("\"" + rest);
      SpelledEnd(body[1..], rest);
      assert Spell(body) + ("\"" + rest) == a + tail;
      assert (a + tail)[|a|..] == tail;
    }
  }

  lemma LiteralRead(l: Literal, rest: string)
    requires WellSpelled(l.quote, l.body)
    ensures var s, v := LiteralText(Json, l) + rest, LiteralValue(Json, l);
            && s != "" && s[0] == '"'
            && ReadString(s) == if v.Some? then Read(v.value, rest) else NotJson
  {
    hide JsonRead, BodyEnd, Spell;
    var body := JsonBody(l.quote, l.body);
    var s := LiteralText(Json, l) + rest;
    var t := Spell(body);
    SpelledEnd(body, rest);
    assert s[1..] == t + ("\"" + rest);
    assert s[1..][..|t|] == t && s[1..][|t| + 1..] == rest;
  }

  lemma WordReads(t: string, m: JsonValue, rest: string)
    requires t != "" && (forall i :: 0 <= i < |t| ==> IsWordLike(t[i])) && WordValue(t) == Some(m) && Stops(rest)
    ensures ReadsAs(t, Some(m), rest)
  {
    hide WordValue;
    var s := t + rest;
    RunIs(t, rest);
    assert s[..|t|] == t && s[|t|..] == rest;
    assert s[0] == t[0];
  }

  lemma {:induction false} RunIs(t: string, rest: string)
    requires (forall i :: 0 <= i < |t| ==> IsWordLike(t[i])) && Stops(rest)
    ensures RunLen(t + rest) == |t|
    decreases |t|
  {
    if t == "" {
      assert t + rest == rest;
    } else {
      assert (t + rest)[1..] == t[1..] + rest;
      RunIs(t[1..], rest);
    }
  }

  lemma NumberReads(text: string, rest: string)
    requires JsonNumber(text) && Stops(rest)
    ensures ReadsAs(text, Some(JNum(text)), rest)
  {
    hide JsonNumber, ReadsAs;
    NumberHasLetters(text);
    assert !NumberLetters("null") && !NumberLetters("true") && !NumberLetters("false") by {
      assert "null"[0] == 'n' && "true"[0] == 't' && "false"[0] == 'f';
    }
    WordReads(text, JNum(text), rest);
  }

  lemma StringReads(l: Literal, rest: string)
    requires WellSpelled(l.quote, l.body)
    ensures ReadsAs(LiteralText(Json, l), Meaning(Json, Str(l)), rest)
  {
    hide ReadString, LiteralText, LiteralValue;
    LiteralRead(l, rest);
    var s := LiteralText(Json, l) + rest;
    assert !IsBlank(s[0]) && SkipBlank(s) == s;
  }

  lemma PaddedReads(before: string, t: string, m: Option<JsonValue>, after: string, rest: string)
    requires Blank(before) && Blank(after) && ReadsAs(t, m, after + rest)
    ensures ReadsAs(before + t + after, m, rest)
  {
    hide ReadValue;
    BlankSkipped(before, t + (after + rest));
    assert before + t + after + rest == before + (t + (after + rest));
    BlankSkipped(after, rest);
  }

  /** The JSON text of every tree reads as the tree's JSON meaning, and not at all if a literal
      is none in JSON. */
  lemma {:induction false} TreeReads(v: Value, rest: string)
    requires WellFormed(v) && JsonNumbers(v) && Stops(rest)
    ensures ReadsAs(Text(Json, v), Meaning(Json, v), rest)
    decreases v, 1
  {
    hide ReadsAs, LiteralText, LiteralValue, JsonNumber, Stops;
    match v
    case Nil => WordReads("null", JNull, rest);
    case Bool(b) => WordReads(Keyword(Json, v), JBool(b), rest);
    case Num(text) => NumberReads(text, rest);
    case Str(l) => StringReads(l, rest);
    case List(blank, items) => ListReads(blank, items, rest);
    case Dict(blank, keys, values) => DictReads(blank, keys, values, rest);
    case Padded(before, inner, after) =>
      StopsBehind(after, rest);
      TreeReads(inner, after + rest);
      PaddedReads(before, Text(Json, inner), Meaning(Json, inner), after, rest);
  }

  lemma StopsBehind(blank: string, rest: string)
    requires Blank(blank) && Stops(rest)
    ensures Stops(blank + rest)
  {
    if blank == "" {
      assert blank + rest == rest;
    }
  }

  lemma {:induction false} ListReads(blank: string, items: seq<Value>, rest: string)
    requires Blank(blank) && forall i :: 0 <= i < |items| ==> WellFormed(items[i]) && JsonNumbers(items[i])
    ensures ReadsAs(("[" + blank) + ItemsText(Json, items) + "]",
                    if ItemsMeaning(Json, items).Some? then Some(JArr(ItemsMeaning(Json, items).value)) else None, rest)
    decreases items, 1
  {
    var t := ItemsText(Json, items) + ("]" + rest);
    OpenBracket("[", blank, ItemsText(Json, items), "]", rest);
    if items == [] {
      assert t == "]" + rest && SkipBlank(t) == t && t[1..] == rest;
    } else {
      hide ReadItems, ItemsMeaning, ItemsText;
      ItemsRead(items, rest);
      ItemsStart(items, rest);
    }
  }

  lemma OpenBracket(open: string, blank: string, body: string, close: string, rest: string)
    requires (open == "[" || open == "{") && Blank(blank)
    ensures var s := (open + blank) + body + close + rest;
            && s != "" && s[0] == open[0] && SkipBlank(s) == s
            && SkipBlank(s[1..]) == SkipBlank(body + (close + rest))
  {
    Regrouped(open, blank, body, close, rest);
    BlankSkipped(blank, body + (close + rest));
  }

  lemma Regrouped(open: string, a: string, b: string, c: string, d: string)
    requires |open| == 1
    ensures var s := (open + a) + b + c + d;
            s != "" && s[0] == open[0] && s[1..] == a + (b + (c + d))
  {
  }

  /** Items are not taken for an empty list. */
  lemma {:induction false} ItemsStart(items: seq<Value>, rest: string)
    requires items != [] && forall i :: 0 <= i < |items| ==> WellFormed(items[i]) && JsonNumbers(items[i])
    ensures var t := SkipBlank(ItemsText(Json, items) + ("]" + rest));
            t != "" && t[0] != ']'
    decreases items, 0
  {
    hide ItemsText, LiteralText;
    var more := ItemsFront(items) + ("]" + rest);
    ItemsSplit(items);
    assert ItemsText(Json, items) + ("]" + rest) == Text(Json, items[0]) + more;
    TreeStart(items[0], more);
  }

  /** The text behind the first item. */
  function ItemsFront(items: seq<Value>): string
    requires items != [] && forall i :: 0 <= i < |items| ==> WellFormed(items[i])
  {
    if |items| == 1 then "" else "," + ItemsText(Json, items[1..])
  }

  lemma ItemsSplit(items: seq<Value>)
    requires items != [] && forall i :: 0 <= i < |items| ==> WellFormed(items[i])
    ensures ItemsText(Json, items) == Text(Json, items[0]) + ItemsFront(items)
  {
  }

  /** The text of a tree starts, behind white space, with no closing bracket. */
  lemma {:induction false} TreeStart(v: Value, rest: string)
    requires WellFormed(v) && JsonNumbers(v)
    ensures var t := SkipBlank(Text(Json, v) + rest);
            t != "" && t[0] != ']' && t[0] != '}'
    decreases v
  {
    match v
    case Nil => StartsWith("null", rest);
    case Bool(b) => StartsWith(Keyword(Json, v), rest);
    case Num(text) => NumberHasLetters(text); StartsWith(text, rest);
    case Str(l) => QuoteFirst(l, rest);
    case List(blank, items) =>
      hide ItemsText;
      StartsWith(Text(Json, v), rest);
    case Dict(blank, keys, values) =>
      hide EntriesText;
      StartsWith(Text(Json, v), rest);
    case Padded(before, inner, after) =>
      PaddedStart(before, Text(Json, inner), after, rest);
      TreeStart(inner, after + rest);
  }

  lemma StartsWith(t: string, rest: string)
    requires t != "" && !IsBlank(t[0])
    ensures SkipBlank(t + rest) == t + rest && (t + rest)[0] == t[0]
  {
  }

  lemma PaddedStart(before: string, t: string, after: string, rest: string)
    requires Blank(before)
    ensures SkipBlank(before + t + after + rest) == SkipBlank(t + (after + rest))
  {
    BlankSkipped(before, t + (after + rest));
    assert before + t + after + rest == before + (t + (after + rest));
  }

  predicate ItemsReadAs(t: string, m: Option<seq<JsonValue>>, rest: string) {
    ReadItems(SkipBlank(t)) == if m.Some? then Read(m.value, rest) else NotJson
  }

  lemma {:induction false} ItemsRead(items: seq<Value>, rest: string)
    requires items != [] && forall i :: 0 <= i < |items| ==> WellFormed(items[i]) && JsonNumbers(items[i])
    ensures ItemsReadAs(ItemsText(Json, items) + ("]" + rest), ItemsMeaning(Json, items), rest)
    decreases items, 0
  {
    hide Text, Meaning, ReadValue, WellFormed, JsonNumbers;
    var more := ItemsFront(items) + ("]" + rest);
    ItemsSplit(items);
    assert ItemsText(Json, items) + ("]" + rest) == Text(Json, items[0]) + more;
    TreeReads(items[0], more);
    if |items| == 1 {
      assert more == "]" + rest && SkipBlank(more) == more && more[1..] == rest;
      OneItem(items);
    } else {
      var tail := ItemsText(Json, items[1..]) + ("]" + rest);
      assert more == "," + tail && SkipBlank(more) == more && more[1..] == tail;
      ItemsRead(items[1..], rest);
    }
  }

  lemma OneItem(items: seq<Value>)
    requires |items| == 1 && WellFormed(items[0])
    ensures var m := Meaning(Json, items[0]);
            ItemsMeaning(Json, items) == if m.Some? then Some([m.value]) else None
  {
    hide Meaning;
    var m := Meaning(Json, items[0]);
    assert m.Some? ==> [m.value] + [] == [m.value];
  }

  lemma OneEntry(keys: seq<Key>, values: seq<Value>)
    requires |keys| == |values| == 1 && WellFormed(values[0])
    ensures var m := EntryMeaning(Json, keys[0], values[0]);
            EntriesMeaning(Json, keys, values) == if m.Some? then Some([m.value]) else None
  {
    hide EntryMeaning;
    var m := EntryMeaning(Json, keys[0], values[0]);
    assert m.Some? ==> [m.value] + [] == [m.value];
  }

  lemma {:induction false} DictReads(blank: string, keys: seq<Key>, values: seq<Value>, rest: string)
    requires Blank(blank) && |keys| == |values| && forall i :: 0 <= i < |keys| ==> GoodKey(keys[i])
    requires forall i :: 0 <= i < |values| ==> WellFormed(values[i]) && JsonNumbers(values[i])
    ensures var m := EntriesMeaning(Json, keys, values);
            ReadsAs(("{" + blank) + EntriesText(Json, keys, values) + "}",
                    if m.Some? then Some(JObj(m.value)) else None, rest)
    decreases values, 1
  {
    var t := EntriesText(Json, keys, values) + ("}" + rest);
    OpenBracket("{", blank, EntriesText(Json, keys, values), "}", rest);
    if keys == [] {
      assert t == "}" + rest && SkipBlank(t) == t && t[1..] == rest;
    } else {
      hide ReadMembers, EntriesMeaning, EntriesText;
      EntriesRead(keys, values, rest);
      EntriesStart(keys, values, rest);
    }
  }

  function EntriesFront(keys: seq<Key>, values: seq<Value>): string
    requires keys != [] && |keys| == |values| && forall i :: 0 <= i < |values| ==> WellFormed(values[i])
  {
    if |keys| == 1 then "" else "," + EntriesText(Json, keys[1..], values[1..])
  }

  lemma EntriesSplit(keys: seq<Key>, values: seq<Value>)
    requires keys != [] && |keys| == |values| && forall i :: 0 <= i < |values| ==> WellFormed(values[i])
    ensures EntriesText(Json, keys, values) == EntryText(Json, keys[0], values[0]) + EntriesFront(keys, values)
  {
  }

  lemma KeyStart(key: Key, s: string)
    requires GoodKey(key)
    ensures SkipBlank(KeyText(Json, key) + s) == LiteralText(Json, key.lit) + (key.after + s)
  {
    var t := LiteralText(Json, key.lit) + (key.after + s);
    assert KeyText(Json, key) + s == key.before + t;
    BlankSkipped(key.before, t);
  }

  lemma {:induction false} EntriesStart(keys: seq<Key>, values: seq<Value>, rest: string)
    requires keys != [] && |keys| == |values| && GoodKey(keys[0])
    requires forall i :: 0 <= i < |values| ==> WellFormed(values[i])
    ensures var t := SkipBlank(EntriesText(Json, keys, values) + ("}" + rest));
            t != "" && t[0] != '}'
  {
    hide EntriesText, LiteralText, Text;
    EntriesSplit(keys, values);
    var s := ":" + Text(Json, values[0]) + EntriesFront(keys, values) + ("}" + rest);
    assert EntriesText(Json, keys, values) + ("}" + rest) == KeyText(Json, keys[0]) + s;
    KeyStart(keys[0], s);
    QuoteFirst(keys[0].lit, keys[0].after + s);
  }

  lemma QuoteFirst(l: Literal, s: string)
    ensures LiteralText(Json, l) + s != "" && (LiteralText(Json, l) + s)[0] == '"'
  {
  }

  predicate MemberReadAs(t: string, m: Option<Member>, rest: string) {
    var r := ReadMember(SkipBlank(t + rest));
    if m.Some? then r.Read? && r.value == m.value && SkipBlank(r.rest) == SkipBlank(rest) else r.NotJson?
  }

  lemma {:induction false} EntryRead(key: Key, value: Value, rest: string)
    requires GoodKey(key) && WellFormed(value) && JsonNumbers(value) && Stops(rest)
    ensures MemberReadAs(EntryText(Json, key, value), EntryMeaning(Json, key, value), rest)
    decreases value, 2
  {
    hide Text, Meaning, ReadValue, WellFormed, JsonNumbers, LiteralText, LiteralValue, ReadString, Stops;
    var t := Text(Json, value) + rest;
    var s := ":" + t;
    assert EntryText(Json, key, value) + rest == KeyText(Json, key) + s;
    KeyStart(key, s);
    LiteralRead(key.lit, key.after + s);
    BlankSkipped(key.after, s);
    assert SkipBlank(s) == s && s[1..] == t;
    TreeReads(value, rest);
  }

  predicate MembersReadAs(t: string, m: Option<seq<Member>>, rest: string) {
    ReadMembers(SkipBlank(t)) == if m.Some? then Read(m.value, rest) else NotJson
  }

  lemma {:induction false} EntriesRead(keys: seq<Key>, values: seq<Value>, rest: string)
    requires keys != [] && |keys| == |values| && forall i :: 0 <= i < |keys| ==> GoodKey(keys[i])
    requires forall i :: 0 <= i < |values| ==> WellFormed(values[i]) && JsonNumbers(values[i])
    ensures MembersReadAs(EntriesText(Json, keys, values) + ("}" + rest), EntriesMeaning(Json, keys, values), rest)
    decreases values, 0
  {
    hide Text, EntryText, EntryMeaning, ReadMember, WellFormed, JsonNumbers, GoodKey;
    var more := EntriesFront(keys, values) + ("}" + rest);
    EntriesSplit(keys, values);
    assert EntriesText(Json, keys, values) + ("}" + rest) == EntryText(Json, keys[0], values[0]) + more;
    EntryRead(keys[0], values[0], more);
    if |keys| == 1 {
      assert more == "}" + rest && SkipBlank(more) == more && more[1..] == rest;
      OneEntry(keys, values);
    } else {
      var tail := EntriesText(Json, keys[1..], values[1..]) + ("}" + rest);
      assert more == "," + tail && SkipBlank(more) == more && more[1..] == tail;
      EntriesRead(keys[1..], values[1..], rest);
    }
  }

  lemma TreeTextRead(v: Value)
    requires WellFormed(v) && JsonNumbers(v)
    ensures ReadText(Text(Json, v)) == Meaning(Json, v)
  {
    hide Text, Meaning, WellFormed, JsonNumbers, ReadValue;
    TreeReads(v, "");
    assert Text(Json, v) + "" == Text(Json, v);
  }

  // ---- Equal meanings ---------------------------------------------------------------

  /** The JSON side denotes something, and the same as the Python side. */
  predicate Same<T(==)>(py: Option<T>, js: Option<T>) {
    js.Some? && py == js
  }

  lemma {:induction false} SameMeaningExactly(v: Value)
    requires WellFormed(v)
    ensures Same(Meaning(Python, v), Meaning(Json, v)) <==> AllShared(v)
    decreases v, 1
  {
    hide LiteralValue, SharedLiteral;
    match v
    case Str(l) => SameLiteralExactly(l);
    case List(_, items) => SameItemsExactly(items);
    case Dict(_, keys, values) => SameEntriesExactly(keys, values);
    case Padded(_, inner, _) => SameMeaningExactly(inner);
    case _ =>
  }

  lemma SameLiteralExactly(l: Literal)
    requires WellSpelled(l.quote, l.body)
    ensures Same(LiteralValue(Python, l), LiteralValue(Json, l)) <==> SharedLiteral(l)
  {
    hide PyRead, JsonRead, Shared, Spell, JsonBody;
    LiteralMeaningExactly(l.quote, l.body);
  }

  lemma {:induction false} SameItemsExactly(items: seq<Value>)
    requires forall i :: 0 <= i < |items| ==> WellFormed(items[i])
    ensures Same(ItemsMeaning(Python, items), ItemsMeaning(Json, items)) <==>
            forall i :: 0 <= i < |items| ==> AllShared(items[i])
    decreases items, 0
  {
    hide Meaning, AllShared;
    if items != [] {
      SameMeaningExactly(items[0]);
      SameItemsExactly(items[1..]);
      assert forall i :: 1 <= i < |items| ==> items[i] == items[1..][i - 1];
      SameCons(Meaning(Python, items[0]), Meaning(Json, items[0]),
                ItemsMeaning(Python, items[1..]), ItemsMeaning(Json, items[1..]));
    }
  }

  /** A list in front of which one part stands. */
  function Cons<T>(m: Option<T>, rest: Option<seq<T>>): Option<seq<T>> {
    if m.Some? && rest.Some? then Some([m.value] + rest.value) else None
  }

  lemma SameCons<T>(a: Option<T>, b: Option<T>, s: Option<seq<T>>, t: Option<seq<T>>)
    ensures Same(Cons(a, s), Cons(b, t)) <==> Same(a, b) && Same(s, t)
  {
    if Same(Cons(a, s), Cons(b, t)) {
      assert ([a.value] + s.value)[0] == ([b.value] + t.value)[0];
      assert s.value == ([a.value] + s.value)[1..] && t.value == ([b.value] + t.value)[1..];
    }
  }

  lemma {:induction false} SameEntryExactly(key: Key, value: Value)
    requires GoodKey(key) && WellFormed(value)
    ensures Same(EntryMeaning(Python, key, value), EntryMeaning(Json, key, value)) <==>
            SharedLiteral(key.lit) && AllShared(value)
    decreases value, 2
  {
    hide LiteralValue, Meaning, SharedLiteral, AllShared;
    SameLiteralExactly(key.lit);
    SameMeaningExactly(value);
  }

  lemma {:induction false} SameEntriesExactly(keys: seq<Key>, values: seq<Value>)
    requires |keys| == |values| && forall i :: 0 <= i < |keys| ==> GoodKey(keys[i])
    requires forall i :: 0 <= i < |values| ==> WellFormed(values[i])
    ensures Same(EntriesMeaning(Python, keys, values), EntriesMeaning(Json, keys, values)) <==>
            (forall i :: 0 <= i < |keys| ==> SharedLiteral(keys[i].lit)) &&
            (forall i :: 0 <= i < |values| ==> AllShared(values[i]))
    decreases values, 0
  {
    hide EntryMeaning, SharedLiteral, AllShared;
    if keys != [] {
      SameEntryExactly(keys[0], values[0]);
      SameEntriesExactly(keys[1..], values[1..]);
      assert forall i :: 1 <= i < |keys| ==> keys[i] == keys[1..][i - 1];
      assert forall i :: 1 <= i < |values| ==> values[i] == values[1..][i - 1];
      SameCons(EntryMeaning(Python, keys[0], values[0]), EntryMeaning(Json, keys[0], values[0]),
                EntriesMeaning(Python, keys[1..], values[1..]), EntriesMeaning(Json, keys[1..], values[1..]));
    }
  }

  /** The normalized Python text of a tree is a JSON text for the value the tree denotes in
      Python exactly when all its literals use spellings both languages read alike. */
  lemma TreeMeaningExactly(v: Value)
    requires WellFormed(v) && JsonNumbers(v)
    ensures Same(Meaning(Python, v), ReadText(Normalize(Text(Python, v)))) <==> AllShared(v)
  {
    hide Text, Meaning, WellFormed, JsonNumbers, ReadText, Normalize, AllShared;
    MeaningPreserved(Python, v);
    TreeTextRead(v);
    SameMeaningExactly(v);
  }

  // ---- Dumped strings ---------------------------------------------------------------

  function Codes(s: string): Units {
    if s == "" then [] else [s[0] as int] + Codes(s[1..])
  }

  lemma EscapeFront(c: char, t: string)
    ensures var s := EscapeChar(c) + t;
            s != "" && JsonFront(s) == Front([c as int], |EscapeChar(c)|)
  {
    var e := EscapeChar(c);
    var s := e + t;
    if c as int < 32 && e[1] == 'u' {
      HexEscape(c, t);
    } else {
      assert s[0] == e[0] && (|e| > 1 ==> s[1] == e[1]);
    }
  }

  lemma HexEscape(c: char, t: string)
    requires c as int < 32 && EscapeChar(c)[1] == 'u'
    ensures JsonFront(EscapeChar(c) + t) == Front([c as int], 6)
  {
    var e := EscapeChar(c);
    var s := e + t;
    DigitRead(c as int / 16);
    DigitRead(c as int % 16);
    assert s[0] == '\\' && s[1] == 'u';
    assert s[2..][0] == '0' && s[2..][1] == '0' && s[2..][2] == e[4] && s[2..][3] == e[5];
  }

  lemma DigitRead(n: int)
    requires 0 <= n < 16
    ensures HexValue(HexDigit(n)) == Some(n)
  {
  }

  /** A dumped string reads back as its characters. */
  lemma {:induction false} EscapedReadsBack(s: string)
    ensures JsonRead(EscapeInner(s)) == Some(Codes(s))
    decreases |s|
  {
    hide EscapeChar, JsonFront;
    if s != "" {
      var e, t := EscapeChar(s[0]), EscapeInner(s[1..]);
      EscapeFront(s[0], t);
      EscapedReadsBack(s[1..]);
      assert (e + t)[|e|..] == t;
    }
  }

  lemma {:induction false} EscapedEnd(s: string, rest: string)
    ensures BodyEnd(EscapeInner(s) + ("\"" + rest)) == |EscapeInner(s)|
    decreases |s|
  {
    hide EscapeChar;
    if s == "" {
      assert EscapeInner(s) + ("\"" + rest) == "\"" + rest;
    } else {
      var tail := EscapeInner(s[1..]) + ("\"" + rest);
      EscapedEnd(s[1..], rest);
      assert EscapeInner(s) + ("\"" + rest) == EscapeChar(s[0]) + tail;
      EscapeCharEnd(s[0], tail);
    }
  }

  lemma EscapeCharEnd(c: char, tail: string)
    ensures BodyEnd(EscapeChar(c) + tail) == |EscapeChar(c)| + BodyEnd(tail)
  {
    var e := EscapeChar(c);
    if |e| == 1 {
      assert (e + tail)[1..] == tail;
    } else if |e| == 2 {
      assert (e + tail)[2..] == tail;
    } else {
      assert |e| == 6;
      HexEnd(e, tail);
    }
  }

  lemma HexEnd(e: string, tail: string)
    requires |e| == 6 && e[0] == '\\' && forall i :: 2 <= i < 6 ==> e[i] != '"' && e[i] != '\\'
    ensures BodyEnd(e + tail) == 6 + BodyEnd(tail)
  {
    var t5 := [e[5]] + tail;
    var t4 := [e[4]] + t5;
    var t3 := [e[3]] + t4;
    var t2 := [e[2]] + t3;
    PlainEnd(e[5], tail);
    PlainEnd(e[4], t5);
    PlainEnd(e[3], t4);
    PlainEnd(e[2], t3);
    assert (e + tail)[2..] == t2;
    hide BodyEnd;
    BackslashEnd(e + tail);
  }

  lemma BackslashEnd(s: string)
    requires |s| > 1 && s[0] == '\\'
    ensures BodyEnd(s) == 2 + BodyEnd(s[2..])
  {
  }

  lemma PlainEnd(c: char, tail: string)
    requires c != '"' && c != '\\'
    ensures BodyEnd([c] + tail) == 1 + BodyEnd(tail)
  {
    assert ([c] + tail)[1..] == tail;
  }

  /** In front of any text a dumped string reads as the string it was made from. */
  lemma DumpRead(s: string, rest: string)
    ensures var t := Dump(s) + rest;
            t != "" && t[0] == '"' && ReadString(t) == Read(Codes(s), rest)
  {
    hide EscapeInner, BodyEnd, JsonRead;
    var e := EscapeInner(s);
    var t := Dump(s) + rest;
    EscapedEnd(s, rest);
    EscapedReadsBack(s);
    assert t[1..] == e + ("\"" + rest);
    assert t[1..][..|e|] == e && t[1..][|e| + 1..] == rest;
  }
}
