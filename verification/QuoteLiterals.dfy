/** What a string literal denotes: readers for Python and for JSON string bodies, and the
    exact condition under which the normalizer keeps the denoted string. */
module QuoteLiterals {
  import opened Wrappers
  import opened Ascii
  import opened QuoteNormalizer
  import opened QuoteMeaning

  /** Denoted strings are sequences of code points. Python strings may hold surrogates. */
  type Units = seq<int>

  predicate HexQuad(t: string) {
    |t| >= 4 && forall i :: 0 <= i < 4 ==> HexValue(t[i]).Some?
  }

  function QuadValue(t: string): int
    requires HexQuad(t)
  {
    ((HexValue(t[0]).value * 16 + HexValue(t[1]).value) * 16 + HexValue(t[2]).value) * 16 + HexValue(t[3]).value
  }

  /** The escapes that mean the same one character in both languages. */
  function CommonEscape(c: char): Option<int> {
    match c
    case 'n' => Some(10)
    case 't' => Some(9)
    case 'r' => Some(13)
    case 'b' => Some(8)
    case 'f' => Some(12)
    case '\\' => Some('\\' as int)
    case '"' => Some('"' as int)
    case _ => None
  }

  predicate IsHigh(u: int) {
    0xD800 <= u < 0xDC00
  }

  predicate IsLow(u: int) {
    0xDC00 <= u < 0xE000
  }

  /** The low half of a surrogate pair whose high half ends in front of `t`. */
  predicate LowFollows(t: string) {
    |t| >= 6 && t[0] == '\\' && t[1] == 'u' && HexQuad(t[2..]) && IsLow(QuadValue(t[2..]))
  }

  /** The characters the front of a string body stands for, and how many characters spell them. */
  datatype Front = Bad | Front(units: Units, eaten: nat)

  /** `\uXXXX` with its four digits in front of `t`: two of them spell one character beyond
      0xFFFF. An unpaired surrogate is grammatical, but no character (section 8.2 of RFC 8259);
      it is read as a number below zero, which no Python string holds. */
  function JsonQuad(t: string): (f: Front)
    requires HexQuad(t)
    ensures f.Front? && 6 <= f.eaten <= |t| + 2 && f.units != []
    ensures var u := QuadValue(t);
            if IsHigh(u) || IsLow(u) then f.units[0] != u else f == Front([u], 6)
  {
    var u := QuadValue(t);
    if IsHigh(u) && LowFollows(t[4..]) then
      Front([0x10000 + (u - 0xD800) * 0x400 + (QuadValue(t[6..]) - 0xDC00)], 12)
    else Front([if IsHigh(u) || IsLow(u) then -u else u], 6)
  }

  /** Section 7 of RFC 8259: no unescaped quote or control character, and a fixed set of escapes. */
  function JsonFront(t: string): (f: Front)
    requires t != ""
    ensures f.Front? ==> 1 <= f.eaten <= |t|
  {
    if t[0] == '\\' then
      if |t| < 2 then Bad
      else if t[1] == 'u' then
        if HexQuad(t[2..]) then JsonQuad(t[2..]) else Bad
      else if t[1] == '/' then Front(['/' as int], 2)
      else if CommonEscape(t[1]).Some? then Front([CommonEscape(t[1]).value], 2)
      else Bad
    else if t[0] == '"' || t[0] < ' ' then Bad
    else Front([t[0] as int], 1)
  }

  function JsonRead(t: string): Option<Units>
    decreases |t|
  {
    if t == "" then Some([])
    else
      var f := JsonFront(t);
      if f.Bad? then None else Prepend(f.units, JsonRead(t[f.eaten..]))
  }

  function Prepend(u: Units, rest: Option<Units>): Option<Units> {
    if rest.Some? then Some(u + rest.value) else None
  }

  /** The escapes of Python literals this reader does not follow; none of them is JSON. */
  predicate OtherPythonEscape(c: char) {
    c == 'x' || c == 'N' || c == 'U' || '0' <= c <= '7' || c == '\n'
  }

  /** The body of a Python (Unicode) literal: an unknown escape stands for both characters. */
  function PyFront(t: string): (f: Front)
    requires t != ""
    ensures f.Front? ==> 1 <= f.eaten <= |t|
  {
    if t[0] == '\\' then
      if |t| < 2 || OtherPythonEscape(t[1]) then Bad
      else if t[1] == 'u' then
        if HexQuad(t[2..]) then Front([QuadValue(t[2..])], 6) else Bad
      else if CommonEscape(t[1]).Some? then Front([CommonEscape(t[1]).value], 2)
      else if t[1] == '\'' then Front(['\'' as int], 2)
      else if t[1] == 'a' then Front([7], 2)
      else if t[1] == 'v' then Front([11], 2)
      else Front(['\\' as int, t[1] as int], 2)
    else if t[0] == '\n' || t[0] == '\r' then Bad
    else Front([t[0] as int], 1)
  }

  function PyRead(t: string): Option<Units>
    decreases |t|
  {
    if t == "" then Some([])
    else
      var f := PyFront(t);
      if f.Bad? then None else Prepend(f.units, PyRead(t[f.eaten..]))
  }

  predicate HexAtoms(body: seq<Atom>) {
    |body| >= 4 && forall i :: 0 <= i < 4 ==> body[i].Raw? && HexValue(body[i].c).Some?
  }

  /** How many atoms the front of the body takes. */
  function Atoms(body: seq<Atom>): (n: nat)
    requires body != []
    ensures 1 <= n <= |body|
  {
    if body[0] == Esc('u') && HexAtoms(body[1..]) then 5 else 1
  }

  function Digit(a: Atom): int
    requires a.Raw? && HexValue(a.c).Some?
  {
    HexValue(a.c).value
  }

  /** Four digits that do not spell a surrogate. */
  predicate CharacterAtoms(body: seq<Atom>) {
    HexAtoms(body) && !(Digit(body[0]) == 13 && Digit(body[1]) >= 8)
  }

  predicate SharedFront(q: Quote, body: seq<Atom>)
    requires body != []
  {
    match body[0]
    case Raw(c) => c >= ' '
    case Esc(c) =>
      if c == 'u' then CharacterAtoms(body[1..]) else CommonEscape(c).Some? || (c == '\'' && q == SingleQuote)
  }

  /** The literal uses only spellings both languages share: no control characters, and of the
      escapes only the common ones, `\uXXXX` for other characters than surrogates, and `\'` in a
      single-quoted literal. */
  predicate Shared(q: Quote, body: seq<Atom>)
    decreases |body|
  {
    body == [] || (SharedFront(q, body) && Shared(q, body[Atoms(body)..]))
  }

  ghost predicate KeepsMeaning(q: Quote, body: seq<Atom>) {
    var py, js := PyRead(Spell(body)), JsonRead(Spell(JsonBody(q, body)));
    js.Some? && py == js
  }

  /** A literal that is not shared: one language rejects it, or they read different strings. */
  ghost predicate LosesMeaning(q: Quote, body: seq<Atom>) {
    var py, js := PyRead(Spell(body)), JsonRead(Spell(JsonBody(q, body)));
    js.Some? && py.Some? ==> py.value != js.value
  }

  lemma {:induction false} SpellRaws(body: seq<Atom>, n: nat)
    requires n <= |body| && forall i :: 0 <= i < n ==> body[i].Raw?
    ensures |Spell(body)| >= n && Spell(body)[n..] == Spell(body[n..])
    ensures forall i :: 0 <= i < n ==> Spell(body)[i] == body[i].c
  {
    if n > 0 {
      SpellRaws(body[1..], n - 1);
      assert body[1..][n - 1..] == body[n..];
      assert Spell(body) == [body[0].c] + Spell(body[1..]);
    }
  }

  predicate HexText(t: string, n: nat) {
    |t| >= n && forall i :: 0 <= i < n ==> HexValue(t[i]).Some?
  }

  /** Hexadecimal digits are spelled as themselves, one atom each. */
  lemma {:induction false} HexSpelling(body: seq<Atom>, n: nat)
    requires HexText(Spell(body), n)
    ensures |body| >= n && forall i :: 0 <= i < n ==> body[i].Raw?
  {
    if n > 0 {
      var s, t := Spell(body), Spell(body[1..]);
      assert s == SpellAtom(body[0]) + t;
      assert HexValue(s[0]).Some?;
      assert s == [body[0].c] + t;
      assert forall i :: 0 <= i < n - 1 ==> t[i] == s[i + 1];
      HexSpelling(body[1..], n - 1);
      assert forall i :: 1 <= i < n ==> body[i] == body[1..][i - 1];
    }
  }

  lemma HexBoth(body: seq<Atom>)
    ensures HexQuad(Spell(body)) <==> HexAtoms(body)
    ensures HexAtoms(body) ==> |Spell(body)| >= 4 && Spell(body)[4..] == Spell(body[4..])
  {
    if HexQuad(Spell(body)) {
      HexSpelling(body, 4);
      SpellRaws(body, 4);
    } else if HexAtoms(body) {
      SpellRaws(body, 4);
    }
  }

  /** Both readers read the same characters from the front of the literal. */
  ghost predicate SameFront(q: Quote, body: seq<Atom>)
    requires body != []
  {
    var s, j := Spell(body), Spell(JsonBody(q, body));
    s != "" && j != "" &&
    var p, f, n := PyFront(s), JsonFront(j), Atoms(body);
    && p.Front? && f.Front? && p.units == f.units
    && s[p.eaten..] == Spell(body[n..]) && j[f.eaten..] == Spell(JsonBody(q, body[n..]))
  }

  /** One of them rejects the front, or they already part there. */
  ghost predicate DifferentFront(q: Quote, body: seq<Atom>)
    requires body != []
  {
    var s, j := Spell(body), Spell(JsonBody(q, body));
    s != "" && j != "" &&
    var p, f := PyFront(s), JsonFront(j);
    p.Bad? || f.Bad? || (p.units != [] && f.units != [] && p.units[0] != f.units[0])
  }

  /** `\uXXXX`: both readers take the same character, or both reject it, or it is a surrogate. */
  lemma UnicodeFront(q: Quote, body: seq<Atom>)
    requires WellSpelled(q, body) && body != [] && body[0] == Esc('u')
    ensures if CharacterAtoms(body[1..]) then SameFront(q, body) else DifferentFront(q, body)
  {
    hide Spell, HexQuad, QuadValue, HexAtoms, JsonQuad, IsHigh, IsLow, CharacterAtoms;
    var rest := body[1..];
    var jrest := JsonBody(q, rest);
    var s, j := Spell(body), Spell(JsonBody(q, body));
    SpellJsonCons(q, body);
    SpellCons(body);
    assert s[2..] == Spell(rest) && j[2..] == Spell(jrest);
    HexBoth(rest);
    HexBoth(jrest);
    JsonHexAtoms(q, rest);
    CharacterHex(rest);
    if HexAtoms(rest) {
      assert |rest| >= 4 by { FourAtoms(rest); }
      assert jrest[4..] == JsonBody(q, rest[4..]) && rest[4..] == body[5..];
      SameQuad(q, rest);
      SurrogateExactly(rest);
      assert s[6..] == s[2..][4..] && j[6..] == j[2..][4..];
    }
  }

  lemma CharacterHex(body: seq<Atom>)
    ensures CharacterAtoms(body) ==> HexAtoms(body)
  {
  }

  /** The digits of a surrogate start with D8 to DF. */
  lemma SurrogateExactly(body: seq<Atom>)
    requires HexAtoms(body)
    ensures HexQuad(Spell(body))
    ensures var u := QuadValue(Spell(body));
            u >= 0 && (IsHigh(u) || IsLow(u) <==> !CharacterAtoms(body))
  {
    hide Spell;
    SpellRaws(body, 4);
    HexRange(body[0].c);
    HexRange(body[1].c);
    HexRange(body[2].c);
    HexRange(body[3].c);
  }

  lemma HexRange(c: char)
    ensures HexValue(c).Some? ==> 0 <= HexValue(c).value < 16
  {
  }

  lemma FourAtoms(body: seq<Atom>)
    requires HexAtoms(body)
    ensures |body| >= 4
  {
  }

  lemma SpellCons(body: seq<Atom>)
    requires body != []
    ensures Spell(body) == SpellAtom(body[0]) + Spell(body[1..])
  {
  }

  lemma JsonHexAtoms(q: Quote, body: seq<Atom>)
    ensures HexAtoms(JsonBody(q, body)) <==> HexAtoms(body)
  {
    var j := JsonBody(q, body);
    if |body| >= 4 {
      assert forall i :: 0 <= i < 4 ==> j[i] == JsonAtom(q, body[i]);
      assert forall i :: 0 <= i < 4 ==>
          ((j[i].Raw? && HexValue(j[i].c).Some?) <==> (body[i].Raw? && HexValue(body[i].c).Some?));
    }
  }

  lemma SameQuad(q: Quote, body: seq<Atom>)
    requires HexAtoms(body)
    ensures HexQuad(Spell(body)) && HexQuad(Spell(JsonBody(q, body)))
    ensures QuadValue(Spell(body)) == QuadValue(Spell(JsonBody(q, body)))
  {
    hide Spell;
    var j := JsonBody(q, body);
    assert forall i :: 0 <= i < 4 ==> j[i] == body[i];
    SpellRaws(body, 4);
    SpellRaws(j, 4);
  }

  /** Any other atom. */
  lemma AtomFront(q: Quote, body: seq<Atom>)
    requires WellSpelled(q, body) && body != [] && body[0] != Esc('u')
    ensures if SharedFront(q, body) then SameFront(q, body) else DifferentFront(q, body)
  {
    hide Spell, HexQuad;
    SpellJsonCons(q, body);
    SpellCons(body);
    var a, b := SpellAtom(body[0]), SpellAtom(JsonAtom(q, body[0]));
    var s, j := Spell(body), Spell(JsonBody(q, body));
    assert s[0] == a[0] && j[0] == b[0];
    assert s[|a|..] == Spell(body[1..]) && j[|b|..] == Spell(JsonBody(q, body[1..]));
    if body[0].Esc? {
      assert s[1] == body[0].c;
      if !(q == SingleQuote && body[0].c == '\'') {
        assert j[1] == body[0].c;
      }
    }
  }

  lemma ReadersUnfold(q: Quote, body: seq<Atom>)
    requires body != [] && Spell(body) != "" && Spell(JsonBody(q, body)) != ""
    ensures var s, f := Spell(body), PyFront(Spell(body));
            PyRead(s) == if f.Bad? then None else Prepend(f.units, PyRead(s[f.eaten..]))
    ensures var j, f := Spell(JsonBody(q, body)), JsonFront(Spell(JsonBody(q, body)));
            JsonRead(j) == if f.Bad? then None else Prepend(f.units, JsonRead(j[f.eaten..]))
  {
    hide PyFront, JsonFront, Spell, JsonBody;
  }

  lemma {:induction false} SharedOrLost(q: Quote, body: seq<Atom>)
    requires WellSpelled(q, body)
    ensures if Shared(q, body) then KeepsMeaning(q, body) else LosesMeaning(q, body)
    decreases |body|
  {
    hide PyFront, JsonFront, PyRead, JsonRead, CharacterAtoms, JsonBody, Spell, Atoms, SharedFront;
    if body == [] {
      NothingRead(q);
    } else {
      if body[0] == Esc('u') {
        UnicodeFront(q, body);
        assert SharedFront(q, body) <==> CharacterAtoms(body[1..]) by { SharedUnicode(q, body); }
      } else {
        AtomFront(q, body);
      }
      ReadersUnfold(q, body);
      if SharedFront(q, body) {
        SharedOrLost(q, body[Atoms(body)..]);
        SameFrontCarries(q, body);
      } else {
        PartedFronts(q, body);
      }
    }
  }

  lemma SamePrepended(u: Units, a: Option<Units>, b: Option<Units>)
    ensures Prepend(u, a) == Prepend(u, b) <==> a == b
    ensures Prepend(u, a).Some? <==> a.Some?
  {
    if a.Some? && b.Some? && u + a.value == u + b.value {
      assert a.value == (u + a.value)[|u|..] && b.value == (u + b.value)[|u|..];
    }
  }

  lemma SameFrontCarries(q: Quote, body: seq<Atom>)
    requires body != [] && SameFront(q, body)
    ensures KeepsMeaning(q, body) <==> KeepsMeaning(q, body[Atoms(body)..])
    ensures LosesMeaning(q, body) <==> LosesMeaning(q, body[Atoms(body)..])
  {
    hide PyFront, JsonFront, PyRead, JsonRead, JsonBody, Spell, Atoms, Prepend;
    ReadersUnfold(q, body);
    var rest := body[Atoms(body)..];
    SamePrepended(PyFront(Spell(body)).units, PyRead(Spell(rest)), JsonRead(Spell(JsonBody(q, rest))));
    SamePrepended(PyFront(Spell(body)).units, JsonRead(Spell(JsonBody(q, rest))), PyRead(Spell(rest)));
  }

  lemma PartedFronts(q: Quote, body: seq<Atom>)
    requires body != [] && DifferentFront(q, body)
    ensures LosesMeaning(q, body)
  {
    hide PyFront, JsonFront, PyRead, JsonRead, JsonBody, Spell;
    ReadersUnfold(q, body);
    var py, js := PyRead(Spell(body)), JsonRead(Spell(JsonBody(q, body)));
    if py.Some? && js.Some? {
      assert py.value[0] == PyFront(Spell(body)).units[0];
      assert js.value[0] == JsonFront(Spell(JsonBody(q, body))).units[0];
    }
  }

  lemma SharedUnicode(q: Quote, body: seq<Atom>)
    requires body != [] && body[0] == Esc('u')
    ensures SharedFront(q, body) <==> CharacterAtoms(body[1..])
  {
  }

  lemma NothingRead(q: Quote)
    ensures KeepsMeaning(q, [])
  {
    assert JsonBody(q, []) == [];
  }

  /** The JSON string literal written for a Python literal denotes the string Python reads
      exactly when the literal uses only the shared spellings. */
  lemma LiteralMeaningExactly(q: Quote, body: seq<Atom>)
    requires WellSpelled(q, body)
    ensures KeepsMeaning(q, body) <==> Shared(q, body)
  {
    SharedOrLost(q, body);
  }

  /** `"\'"` is Python for an apostrophe, but the text written for it is not JSON. */
  lemma DoubleQuotedApostropheLost()
    ensures var l := Literal(DoubleQuote, [Esc('\'')]);
            && WellSpelled(l.quote, l.body)
            && Normalize(LiteralText(Python, l)) == LiteralText(Json, l)
            && PyRead(Spell(l.body)) == Some(['\'' as int])
            && !KeepsMeaning(l.quote, l.body)
  {
    hide Normalize, LiteralText, JsonRead, JsonBody;
    var body := [Esc('\'')];
    NormalizedLiteral(Literal(DoubleQuote, body));
    LiteralMeaningExactly(DoubleQuote, body);
    assert body[1..] == [];
    var s := Spell(body);
    assert s == ['\\', '\''];
    assert s[2..] == "" && PyRead(s[2..]) == Some([]);
    assert ['\'' as int] + [] == ['\'' as int];
  }

  /** The body of the literal `'\ud83d\ude00'`, as in both languages. */
  const PAIR := [Esc('u'), Raw('d'), Raw('8'), Raw('3'), Raw('d'), Esc('u'), Raw('d'), Raw('e'), Raw('0'), Raw('0')]

  /** Python reads two surrogates, and JSON one character. */
  lemma SurrogatePairJoined()
    ensures var l := Literal(SingleQuote, PAIR);
            && WellSpelled(l.quote, l.body)
            && Normalize(LiteralText(Python, l)) == LiteralText(Json, l)
            && PyRead(Spell(l.body)) == Some([0xD83D, 0xDE00])
            && JsonRead(Spell(JsonBody(l.quote, l.body))) == Some([0x1F600])
            && !KeepsMeaning(l.quote, l.body)
  {
    hide Normalize, LiteralText;
    NormalizedLiteral(Literal(SingleQuote, PAIR));
    PairSpelled();
    PairSame();
    PairRead();
  }

  lemma PairRead()
    ensures PyRead("\\ud83d\\ude00") == Some([0xD83D, 0xDE00]) && JsonRead("\\ud83d\\ude00") == Some([0x1F600])
  {
    hide PyRead, JsonRead, PyFront, JsonFront;
    var s, low := "\\ud83d\\ude00", "\\ude00";
    PairFronts();
    OneRead(s);
    OneRead(low);
    NothingLeft();
    assert s[6..] == low && s[12..] == "" && low[6..] == "";
    assert [0xD83D] + [0xDE00] == [0xD83D, 0xDE00];
    assert [0xDE00] + [] == [0xDE00] && [0x1F600] + [] == [0x1F600];
  }

  lemma OneRead(s: string)
    requires s != ""
    ensures var f := PyFront(s);
            PyRead(s) == if f.Bad? then None else Prepend(f.units, PyRead(s[f.eaten..]))
    ensures var f := JsonFront(s);
            JsonRead(s) == if f.Bad? then None else Prepend(f.units, JsonRead(s[f.eaten..]))
  {
  }

  lemma NothingLeft()
    ensures PyRead("") == Some([]) && JsonRead("") == Some([])
  {
  }

  lemma PairFronts()
    ensures var s, low := "\\ud83d\\ude00", "\\ude00";
            && PyFront(s) == Front([0xD83D], 6) && PyFront(low) == Front([0xDE00], 6)
            && JsonFront(s) == Front([0x1F600], 12)
  {
    var s, low := "\\ud83d\\ude00", "\\ude00";
    assert s[2..] == "d83d\\ude00" && low[2..] == "de00";
    assert s[2..][4..] == low && s[2..][6..] == "de00";
    Quads("\\ude00");
  }

  lemma Quads(rest: string)
    ensures HexQuad("d83d" + rest) && QuadValue("d83d" + rest) == 0xD83D
    ensures HexQuad("de00") && QuadValue("de00") == 0xDE00
  {
  }

  lemma QuadSpelled(body: seq<Atom>, digits: string, rest: string)
    requires |body| >= 5 && body[0] == Esc('u') && |digits| == 4 && Spell(body[5..]) == rest
    requires forall i :: 0 <= i < 4 ==> body[i + 1] == Raw(digits[i])
    ensures Spell(body) == ['\\', 'u'] + digits + rest
  {
    hide Spell;
    SpellCons(body);
    assert forall i :: 0 <= i < 4 ==> body[1..][i] == body[i + 1] == Raw(digits[i]);
    SpellRaws(body[1..], 4);
    assert body[1..][4..] == body[5..];
    var t := Spell(body[1..]);
    assert t == t[..4] + t[4..] && t[..4] == digits;
  }

  lemma PairSpelled()
    ensures Spell(PAIR) == "\\ud83d\\ude00"
  {
    QuadSpelled(PAIR[5..], "de00", "");
    QuadSpelled(PAIR, "d83d", "\\ude00");
  }

  lemma PairSame()
    ensures JsonBody(SingleQuote, PAIR) == PAIR && WellSpelled(SingleQuote, PAIR)
  {
  }

  lemma NormalizedLiteral(l: Literal)
    requires WellSpelled(l.quote, l.body)
    ensures Normalize(LiteralText(Python, l)) == LiteralText(Json, l)
  {
    hide Normalize;
    MeaningPreserved(Python, Str(l));
  }
}
