/** Python value trees, their Python and their JSON text, and what the normalizer does to
    them: it turns the one text into the other, it leaves JSON text alone, and it keeps what
    a string literal denotes exactly when the literal uses the escapes both languages share. */
module QuoteMeaning {
  import opened Wrappers
  import opened QuoteNormalizer

  /** One character of a string literal as spelled: itself, or a backslash and a character. */
  datatype Atom = Raw(c: char) | Esc(c: char)

  datatype Quote = SingleQuote | DoubleQuote

  datatype Literal = Literal(quote: Quote, body: seq<Atom>)

  /** A dict key with the white space around it. */
  datatype Key = Key(before: string, lit: Literal, after: string)

  /** A value tree with its white space: around any value and key, and behind an opening bracket. */
  datatype Value =
    | Nil
    | Bool(b: bool)
    | Num(text: string)
    | Str(lit: Literal)
    | List(blank: string, items: seq<Value>)
    | Dict(blank: string, keys: seq<Key>, values: seq<Value>)
    | Padded(before: string, inner: Value, after: string)

  function QuoteChar(q: Quote): char {
    if q == SingleQuote then '\'' else '"'
  }

  function QuoteMode(q: Quote): Mode {
    if q == SingleQuote then Single else Double
  }

  function SpellAtom(a: Atom): string {
    match a
    case Raw(c) => [c]
    case Esc(c) => ['\\', c]
  }

  function Spell(body: seq<Atom>): string {
    if body == [] then "" else SpellAtom(body[0]) + Spell(body[1..])
  }

  /** The spelling as the tokens of a literal: no bare backslash, no bare closing quote. */
  predicate WellSpelled(q: Quote, body: seq<Atom>) {
    forall i :: 0 <= i < |body| && body[i].Raw? ==> body[i].c != '\\' && body[i].c != QuoteChar(q)
  }

  /** The same character inside a JSON string: only a bare `"` and an escaped `'` of a
      single-quoted literal are respelled. */
  function JsonAtom(q: Quote, a: Atom): Atom {
    if q == SingleQuote && a == Raw('"') then Esc('"')
    else if q == SingleQuote && a == Esc('\'') then Raw('\'')
    else a
  }

  function JsonBody(q: Quote, body: seq<Atom>): (r: seq<Atom>)
    ensures |r| == |body|
  {
    seq(|body|, i requires 0 <= i < |body| => JsonAtom(q, body[i]))
  }

  datatype Dialect = Python | Json

  /** The literal as the dialect spells it. */
  function In(d: Dialect, l: Literal): Literal {
    if d == Python then l else Literal(DoubleQuote, JsonBody(l.quote, l.body))
  }

  function LiteralText(d: Dialect, l: Literal): string {
    var l' := In(d, l);
    [QuoteChar(l'.quote)] + Spell(l'.body) + [QuoteChar(l'.quote)]
  }

  predicate PlainChar(c: char) {
    c != '\'' && c != '"' && c != '\\' && !StartsLiteral(c)
  }

  predicate Plain(s: string) {
    forall i :: 0 <= i < |s| ==> PlainChar(s[i])
  }

  predicate NumberChar(c: char) {
    (IsWordChar(c) && !StartsLiteral(c)) || c == '+' || c == '-' || c == '.'
  }

  /** White space as section 2 of RFC 8259 has it. */
  predicate Blank(s: string) {
    forall i :: 0 <= i < |s| ==> s[i] == ' ' || s[i] == '\t' || s[i] == '\n' || s[i] == '\r'
  }

  predicate GoodKey(key: Key) {
    Blank(key.before) && WellSpelled(key.lit.quote, key.lit.body) && Blank(key.after)
  }

  predicate WellFormed(v: Value) {
    match v
    case Nil => true
    case Bool(_) => true
    case Num(text) => forall i :: 0 <= i < |text| ==> NumberChar(text[i])
    case Str(l) => WellSpelled(l.quote, l.body)
    case List(blank, items) => Blank(blank) && forall i :: 0 <= i < |items| ==> WellFormed(items[i])
    case Dict(blank, keys, values) =>
      && Blank(blank) && |keys| == |values|
      && (forall i :: 0 <= i < |keys| ==> GoodKey(keys[i]))
      && (forall i :: 0 <= i < |values| ==> WellFormed(values[i]))
    case Padded(before, inner, after) => Blank(before) && Blank(after) && WellFormed(inner)
  }

  function Keyword(d: Dialect, v: Value): string
    requires v.Nil? || v.Bool?
  {
    match (d, v)
    case (Python, Bool(b)) => if b then "True" else "False"
    case (Json, Bool(b)) => if b then "true" else "false"
    case (Python, _) => "None"
    case (Json, _) => "null"
  }

  /** The text of a tree. */
  function Text(d: Dialect, v: Value): string
    requires WellFormed(v)
    decreases v, 1
  {
    match v
    case Num(text) => text
    case Str(l) => LiteralText(d, l)
    case List(blank, items) => ("[" + blank) + ItemsText(d, items) + "]"
    case Dict(blank, keys, values) => ("{" + blank) + EntriesText(d, keys, values) + "}"
    case Padded(before, inner, after) => before + Text(d, inner) + after
    case _ => Keyword(d, v)
  }

  function ItemsText(d: Dialect, items: seq<Value>): string
    requires forall i :: 0 <= i < |items| ==> WellFormed(items[i])
    decreases items, 0
  {
    if items == [] then ""
    else if |items| == 1 then Text(d, items[0])
    else Text(d, items[0]) + "," + ItemsText(d, items[1..])
  }

  function KeyText(d: Dialect, key: Key): string {
    key.before + LiteralText(d, key.lit) + key.after
  }

  function EntryText(d: Dialect, key: Key, value: Value): string
    requires WellFormed(value)
    decreases value, 2
  {
    KeyText(d, key) + ":" + Text(d, value)
  }

  function EntriesText(d: Dialect, keys: seq<Key>, values: seq<Value>): string
    requires |keys| == |values|
    requires forall i :: 0 <= i < |values| ==> WellFormed(values[i])
    decreases values, 0
  {
    if keys == [] then ""
    else if |keys| == 1 then EntryText(d, keys[0], values[0])
    else EntryText(d, keys[0], values[0]) + "," + EntriesText(d, keys[1..], values[1..])
  }

  // ---- Pieces of text -------------------------------------------------------------

  /** Whether the scanner stands right behind a word character after reading `t`. */
  function Behind(prevWord: bool, t: string): bool {
    if t == "" then prevWord else IsWordChar(t[|t| - 1])
  }

  /** `t` in front of any text is rewritten to `j`, and the scan goes on outside strings. */
  ghost predicate Rewrites(prevWord: bool, t: string, j: string, rest: string) {
    Norm(Outside, prevWord, t + rest) == j + Norm(Outside, Behind(prevWord, t), rest)
  }

  predicate WordEnds(rest: string) {
    rest == "" || !IsWordChar(rest[0])
  }

  /** One round that reads `t` and writes `j`, followed by the rest of the scan. */
  lemma OneRound(mode: Mode, prevWord: bool, t: string, j: string, next: Mode, rest: string)
    requires t != "" && Step(mode, prevWord, t + rest) == Move(j, |t|, next)
    ensures Norm(mode, prevWord, t + rest) == j + Norm(next, IsWordChar(t[|t| - 1]), rest)
  {
    hide Step, Norm;
    NormUnfolds(mode, prevWord, t + rest);
    assert (t + rest)[|t|..] == rest && (t + rest)[|t| - 1] == t[|t| - 1];
  }

  lemma {:induction false} PlainCopied(prevWord: bool, t: string, rest: string)
    requires Plain(t)
    ensures Rewrites(prevWord, t, t, rest)
    decreases |t|
  {
    hide Norm;
    if t == "" {
      assert t + rest == rest;
    } else {
      assert t + rest == [t[0]] + (t[1..] + rest);
      OneRound(Outside, prevWord, [t[0]], [t[0]], Outside, t[1..] + rest);
      PlainCopied(IsWordChar(t[0]), t[1..], rest);
      assert Behind(IsWordChar(t[0]), t[1..]) == Behind(prevWord, t);
      var tail := Norm(Outside, Behind(prevWord, t), rest);
      assert [t[0]] + (t[1..] + tail) == t + tail;
    }
  }

  lemma WordLenExact(t: string, rest: string)
    requires forall i :: 0 <= i < |t| ==> IsWordChar(t[i])
    requires WordEnds(rest)
    ensures WordLen(t + rest) == |t|
  {
    var n := WordLen(t + rest);
    assert forall i :: 0 <= i < |t| ==> (t + rest)[i] == t[i];
    assert rest != "" ==> (t + rest)[|t|] == rest[0];
  }

  lemma KeywordRewritten(t: string, j: string, rest: string)
    requires (t == "True" && j == "true") || (t == "False" && j == "false") || (t == "None" && j == "null")
    requires WordEnds(rest)
    ensures Rewrites(false, t, j, rest)
  {
    hide Norm;
    WordLenExact(t, rest);
    var s := t + rest;
    assert s[..|t|] == t;
    assert s[0] == t[0] && StartsLiteral(t[0]);
    assert j[..|t|] == j;
    assert Translate(t) == Some(j);
    OneRound(Outside, false, t, j, Outside, rest);
  }

  /** Inside a literal each atom is read in one round. */
  lemma AtomRound(q: Quote, a: Atom, prevWord: bool, rest: string)
    requires WellSpelled(q, [a]) && rest != ""
    ensures Step(QuoteMode(q), prevWord, SpellAtom(a) + rest)
         == Move(SpellAtom(JsonAtom(q, a)), |SpellAtom(a)|, QuoteMode(q))
  {
    assert [a][0] == a;
    var s := SpellAtom(a) + rest;
    match a
    case Raw(c) => assert s[0] == c;
    case Esc(c) => assert s[0] == '\\' && s[1] == c;
  }

  lemma {:induction false} BodyRewritten(q: Quote, body: seq<Atom>, prevWord: bool, rest: string)
    requires WellSpelled(q, body)
    ensures Norm(QuoteMode(q), prevWord, Spell(body) + ([QuoteChar(q)] + rest))
         == Spell(JsonBody(q, body)) + ("\"" + Norm(Outside, false, rest))
    decreases |body|
  {
    hide Norm, Spell, SpellAtom, JsonBody;
    var close := [QuoteChar(q)] + rest;
    if body == [] {
      assert Spell(body) == "" && Spell(JsonBody(q, body)) == "" by { SpellNothing(q); }
      assert Spell(body) + close == close;
      OneRound(QuoteMode(q), prevWord, [QuoteChar(q)], "\"", Outside, rest);
    } else {
      AtomThenBody(q, body, prevWord, rest);
      BodyRewritten(q, body[1..], IsWordChar(body[0].c), rest);
      SpellJsonCons(q, body);
      var j, js := SpellAtom(JsonAtom(q, body[0])), Spell(JsonBody(q, body[1..]));
      var tail := "\"" + Norm(Outside, false, rest);
      assert j + (js + tail) == (j + js) + tail;
    }
  }

  lemma AtomThenBody(q: Quote, body: seq<Atom>, prevWord: bool, rest: string)
    requires WellSpelled(q, body) && body != []
    ensures Norm(QuoteMode(q), prevWord, Spell(body) + ([QuoteChar(q)] + rest))
         == SpellAtom(JsonAtom(q, body[0])) +
            Norm(QuoteMode(q), IsWordChar(body[0].c), Spell(body[1..]) + ([QuoteChar(q)] + rest))
  {
    hide Norm;
    var a, t := SpellAtom(body[0]), Spell(body[1..]) + ([QuoteChar(q)] + rest);
    assert Spell(body) + ([QuoteChar(q)] + rest) == a + t;
    AtomRound(q, body[0], prevWord, t);
    OneRound(QuoteMode(q), prevWord, a, SpellAtom(JsonAtom(q, body[0])), QuoteMode(q), t);
  }

  lemma SpellNothing(q: Quote)
    ensures Spell([]) == "" && Spell(JsonBody(q, [])) == ""
  {
  }

  lemma SpellJsonCons(q: Quote, body: seq<Atom>)
    requires body != []
    ensures Spell(JsonBody(q, body)) == SpellAtom(JsonAtom(q, body[0])) + Spell(JsonBody(q, body[1..]))
  {
    assert JsonBody(q, body)[1..] == JsonBody(q, body[1..]);
  }

  lemma LiteralRewritten(d: Dialect, prevWord: bool, lit: Literal, rest: string)
    requires WellSpelled(lit.quote, lit.body)
    ensures Rewrites(prevWord, LiteralText(d, lit), LiteralText(Json, lit), rest)
  {
    hide Norm;
    var l := In(d, lit);
    assert JsonBody(l.quote, l.body) == JsonBody(lit.quote, lit.body);
    var open, t := [QuoteChar(l.quote)], Spell(l.body) + ([QuoteChar(l.quote)] + rest);
    assert LiteralText(d, lit) + rest == open + t;
    OneRound(Outside, prevWord, open, "\"", QuoteMode(l.quote), t);
    BodyRewritten(l.quote, l.body, false, rest);
    var tail := Norm(Outside, false, rest);
    var body := Spell(JsonBody(l.quote, l.body));
    assert "\"" + (body + ("\"" + tail)) == ("\"" + body + "\"") + tail;
  }

  lemma RewritesAppend(prevWord: bool, t1: string, j1: string, t2: string, j2: string, rest: string)
    requires Rewrites(prevWord, t1, j1, t2 + rest)
    requires Rewrites(Behind(prevWord, t1), t2, j2, rest)
    ensures Rewrites(prevWord, t1 + t2, j1 + j2, rest)
  {
    hide Norm;
    assert t1 + (t2 + rest) == (t1 + t2) + rest;
    assert Behind(Behind(prevWord, t1), t2) == Behind(prevWord, t1 + t2);
    var tail := Norm(Outside, Behind(prevWord, t1 + t2), rest);
    assert j1 + (j2 + tail) == (j1 + j2) + tail;
  }

  // ---- Trees ----------------------------------------------------------------------

  lemma KeywordCopied(d: Dialect, v: Value, rest: string)
    requires v.Nil? || v.Bool?
    requires WordEnds(rest)
    ensures Rewrites(false, Keyword(d, v), Keyword(Json, v), rest)
  {
    if d == Python {
      KeywordRewritten(Keyword(d, v), Keyword(Json, v), rest);
    } else {
      PlainCopied(false, Keyword(d, v), rest);
    }
  }

  /** Inside any surrounding text, after a non-word character and before one (or the end),
      the text of a tree in either dialect becomes its JSON text. */
  lemma {:induction false} TreeRewritten(d: Dialect, v: Value, rest: string)
    requires WellFormed(v) && WordEnds(rest)
    ensures Rewrites(false, Text(d, v), Text(Json, v), rest)
    decreases v, 1
  {
    hide Norm, Rewrites;
    match v
    case Nil => KeywordCopied(d, v, rest);
    case Bool(_) => KeywordCopied(d, v, rest);
    case Num(text) => PlainCopied(false, text, rest);
    case Str(l) => LiteralRewritten(d, false, l, rest);
    case List(blank, items) =>
      ItemsRewritten(d, items, "]" + rest);
      Enclosed("[" + blank, ItemsText(d, items), ItemsText(Json, items), "]", rest);
    case Dict(blank, keys, values) =>
      EntriesRewritten(d, keys, values, "}" + rest);
      Enclosed("{" + blank, EntriesText(d, keys, values), EntriesText(Json, keys, values), "}", rest);
    case Padded(before, inner, after) =>
      TreeRewritten(d, inner, after + rest);
      Enclosed(before, Text(d, inner), Text(Json, inner), after, rest);
  }

  /** Between texts that are copied, the last character of the first being no word character. */
  lemma Enclosed(open: string, t: string, j: string, close: string, rest: string)
    requires Plain(open) && Plain(close) && !Behind(false, open)
    requires Rewrites(false, t, j, close + rest)
    ensures Rewrites(false, open + t + close, open + j + close, rest)
  {
    hide Norm, Rewrites;
    PlainCopied(false, open, t + (close + rest));
    RewritesAppend(false, open, open, t, j, close + rest);
    PlainCopied(Behind(false, open + t), close, rest);
    RewritesAppend(false, open + t, open + j, close, close, rest);
  }

  /** Two parts with a comma or a colon between them. */
  lemma Separated(t1: string, j1: string, sep: string, t2: string, j2: string, rest: string)
    requires sep == "," || sep == ":"
    requires Rewrites(false, t1, j1, sep + (t2 + rest))
    requires Rewrites(false, t2, j2, rest)
    ensures Rewrites(false, t1 + sep + t2, j1 + sep + j2, rest)
  {
    hide Norm, Rewrites;
    PlainCopied(Behind(false, t1), sep, t2 + rest);
    RewritesAppend(false, t1, j1, sep, sep, t2 + rest);
    RewritesAppend(false, t1 + sep, j1 + sep, t2, j2, rest);
  }

  lemma {:induction false} ItemsRewritten(d: Dialect, items: seq<Value>, rest: string)
    requires forall i :: 0 <= i < |items| ==> WellFormed(items[i])
    requires WordEnds(rest)
    ensures Rewrites(false, ItemsText(d, items), ItemsText(Json, items), rest)
    decreases items, 0
  {
    hide Norm, Rewrites;
    if items == [] {
      PlainCopied(false, "", rest);
    } else if |items| == 1 {
      TreeRewritten(d, items[0], rest);
    } else {
      var t2, j2 := ItemsText(d, items[1..]), ItemsText(Json, items[1..]);
      TreeRewritten(d, items[0], "," + (t2 + rest));
      ItemsRewritten(d, items[1..], rest);
      Separated(Text(d, items[0]), Text(Json, items[0]), ",", t2, j2, rest);
    }
  }

  lemma {:induction false} EntryRewritten(d: Dialect, key: Key, value: Value, rest: string)
    requires GoodKey(key) && WellFormed(value)
    requires WordEnds(rest)
    ensures Rewrites(false, EntryText(d, key, value), EntryText(Json, key, value), rest)
    decreases value, 2
  {
    hide Norm, Rewrites, LiteralText;
    var t, j := Text(d, value), Text(Json, value);
    LiteralRewritten(d, false, key.lit, key.after + (":" + (t + rest)));
    Enclosed(key.before, LiteralText(d, key.lit), LiteralText(Json, key.lit), key.after, ":" + (t + rest));
    TreeRewritten(d, value, rest);
    Separated(KeyText(d, key), KeyText(Json, key), ":", t, j, rest);
  }

  lemma {:induction false} EntriesRewritten(d: Dialect, keys: seq<Key>, values: seq<Value>, rest: string)
    requires |keys| == |values|
    requires forall i :: 0 <= i < |keys| ==> GoodKey(keys[i])
    requires forall i :: 0 <= i < |values| ==> WellFormed(values[i])
    requires WordEnds(rest)
    ensures Rewrites(false, EntriesText(d, keys, values), EntriesText(Json, keys, values), rest)
    decreases values, 0
  {
    hide Norm, Rewrites;
    if keys == [] {
      PlainCopied(false, "", rest);
    } else if |keys| == 1 {
      EntryRewritten(d, keys[0], values[0], rest);
    } else {
      var t2, j2 := EntriesText(d, keys[1..], values[1..]), EntriesText(Json, keys[1..], values[1..]);
      EntryRewritten(d, keys[0], values[0], "," + (t2 + rest));
      EntriesRewritten(d, keys[1..], values[1..], rest);
      Separated(EntryText(d, keys[0], values[0]), EntryText(Json, keys[0], values[0]), ",", t2, j2, rest);
    }
  }

  /** Meaning preservation: the Python text of every value tree is normalized to the JSON text
      of the same tree, and JSON text is left as it is. */
  lemma MeaningPreserved(d: Dialect, v: Value)
    requires WellFormed(v)
    ensures Normalize(Text(d, v)) == Text(Json, v)
  {
    TreeRewritten(d, v, "");
    assert Text(d, v) + "" == Text(d, v);
    assert Norm(Outside, Behind(false, Text(d, v)), "") == "";
  }

  // ---- Texts the normalizer leaves alone --------------------------------------------

  /** Scanning JSON tokens only: no single quote and no Python keyword (or the start of one)
      outside a double-quoted string. */
  predicate NoPython(inString: bool, prevWord: bool, s: string)
    decreases |s|
  {
    if s == "" then true
    else if inString then
      if s[0] == '\\' && |s| > 1 then NoPython(true, IsWordChar(s[1]), s[2..])
      else NoPython(s[0] != '"', IsWordChar(s[0]), s[1..])
    else
      && s[0] != '\''
      && !(StartsLiteral(s[0]) && !prevWord && Translate(s[..WordLen(s)]).Some?)
      && NoPython(s[0] == '"', IsWordChar(s[0]), s[1..])
  }

  function ScanMode(inString: bool): Mode {
    if inString then Double else Outside
  }

  /** A round either copies what it reads and the scan for Python syntax goes on behind it,
      or it meets Python syntax and writes a different first character. */
  lemma RoundCopiesOrDiffers(inString: bool, prevWord: bool, s: string)
    requires s != ""
    ensures var m := Step(ScanMode(inString), prevWord, s);
            if m.out == s[..m.eaten] then
              && m.mode != Single
              && (NoPython(inString, prevWord, s)
                  <==> NoPython(m.mode == Double, IsWordChar(s[m.eaten - 1]), s[m.eaten..]))
            else
              m.out != "" && m.out[0] != s[0] && !NoPython(inString, prevWord, s)
  {
    var m := Step(ScanMode(inString), prevWord, s);
    if !inString && StartsLiteral(s[0]) && !prevWord {
      assert WordLen(s) >= 1;
      assert s[..WordLen(s)][0] == s[0];
    } else if inString && s[0] == '\\' && |s| > 1 {
      assert s[..2] == [s[0], s[1]];
    } else {
      assert s[..1] == [s[0]];
    }
  }

  lemma {:induction false} IdentityScan(inString: bool, prevWord: bool, s: string)
    ensures Norm(ScanMode(inString), prevWord, s) == s <==> NoPython(inString, prevWord, s)
    decreases |s|
  {
    hide Norm, Step, NoPython;
    if s == "" {
      NormEnds(ScanMode(inString), prevWord);
      EmptyHasNoPython(inString, prevWord);
    } else {
      NormUnfolds(ScanMode(inString), prevWord, s);
      RoundCopiesOrDiffers(inString, prevWord, s);
      var m := Step(ScanMode(inString), prevWord, s);
      var next := IsWordChar(s[m.eaten - 1]);
      var tail := Norm(m.mode, next, s[m.eaten..]);
      if m.out == s[..m.eaten] {
        IdentityScan(m.mode == Double, next, s[m.eaten..]);
        SameTail(s, m.eaten, tail);
      } else {
        assert (m.out + tail)[0] == m.out[0];
      }
    }
  }

  lemma SameTail(s: string, n: nat, t: string)
    requires n <= |s|
    ensures s[..n] + t == s <==> t == s[n..]
  {
    assert (s[..n] + t)[n..] == t;
    assert s[..n] + s[n..] == s;
  }

  lemma EmptyHasNoPython(inString: bool, prevWord: bool)
    ensures NoPython(inString, prevWord, "")
  {
  }

  /** The normalizer is the identity exactly on the texts without Python syntax. */
  lemma IdentityExactly(s: string)
    ensures Normalize(s) == s <==> NoPython(false, false, s)
  {
    IdentityScan(false, false, s);
  }
}
