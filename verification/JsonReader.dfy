/** Reading JSON texts (RFC 8259): values, white space (section 2), numbers (section 6) and
    strings (section 7). What the reader accepts the normalizer leaves alone and the brace
    counter finds balanced. */
module JsonReader {
  import opened Wrappers
  import opened QuoteNormalizer
  import opened QuoteMeaning
  import opened QuoteLiterals
  import opened JsonStrings

  datatype JsonValue =
    | JNull
    | JBool(b: bool)
    | JNum(text: string)
    | JStr(units: Units)
    | JArr(items: seq<JsonValue>)
    | JObj(members: seq<Member>)

  datatype Member = Member(key: Units, value: JsonValue)

  /** A value and the text behind it. */
  datatype Read<T> = Read(value: T, rest: string) | NotJson

  // ---- Tokens -----------------------------------------------------------------------

  predicate IsBlank(c: char) {
    c == ' ' || c == '\t' || c == '\n' || c == '\r'
  }

  function SkipBlank(s: string): (r: string)
    ensures |r| <= |s| && (r != "" ==> !IsBlank(r[0]))
  {
    if s != "" && IsBlank(s[0]) then SkipBlank(s[1..]) else s
  }

  /** Where the string whose opening quote stands in front of `s` ends. */
  function BodyEnd(s: string): (n: nat)
    ensures n <= |s| && (n < |s| ==> s[n] == '"')
  {
    if s == "" || s[0] == '"' then 0
    else if s[0] == '\\' && |s| > 1 then 2 + BodyEnd(s[2..])
    else 1 + BodyEnd(s[1..])
  }

  function ReadString(s: string): (r: Read<Units>)
    requires s != "" && s[0] == '"'
    ensures r.Read? ==> |r.rest| < |s|
  {
    var t := s[1..];
    var n := BodyEnd(t);
    if n == |t| || JsonRead(t[..n]).None? then NotJson else Read(JsonRead(t[..n]).value, t[n + 1..])
  }

  predicate IsWordLike(c: char) {
    IsWordChar(c) || c == '+' || c == '-' || c == '.'
  }

  /** The length of the number or literal name at the front. */
  function RunLen(s: string): (n: nat)
    ensures n <= |s| && (n < |s| ==> !IsWordLike(s[n]))
    ensures forall i :: 0 <= i < n ==> IsWordLike(s[i])
  {
    if s != "" && IsWordLike(s[0]) then 1 + RunLen(s[1..]) else 0
  }

  predicate IsDigit(c: char) {
    '0' <= c <= '9'
  }

  function DigitsLen(s: string): (n: nat)
    ensures n <= |s| && forall i :: 0 <= i < n ==> IsDigit(s[i])
  {
    if s != "" && IsDigit(s[0]) then 1 + DigitsLen(s[1..]) else 0
  }

  predicate JsonNumber(t: string) {
    IntPart(if t != "" && t[0] == '-' then t[1..] else t)
  }

  predicate IntPart(t: string) {
    var n := DigitsLen(t);
    n >= 1 && (t[0] == '0' ==> n == 1) && FracPart(t[n..])
  }

  predicate FracPart(t: string) {
    if t != "" && t[0] == '.' then var n := DigitsLen(t[1..]); n >= 1 && ExpPart(t[1 + n..]) else ExpPart(t)
  }

  predicate ExpPart(t: string) {
    t == "" ||
    ((t[0] == 'e' || t[0] == 'E') &&
     var u := if |t| > 1 && (t[1] == '+' || t[1] == '-') then t[2..] else t[1..];
     u != "" && DigitsLen(u) == |u|)
  }

  function WordValue(t: string): Option<JsonValue> {
    if t == "null" then Some(JNull)
    else if t == "true" then Some(JBool(true))
    else if t == "false" then Some(JBool(false))
    else if JsonNumber(t) then Some(JNum(t))
    else None
  }

  function ReadWord(s: string): (r: Read<JsonValue>)
    ensures r.Read? ==> |r.rest| < |s|
  {
    var n := RunLen(s);
    if n == 0 || WordValue(s[..n]).None? then NotJson else Read(WordValue(s[..n]).value, s[n..])
  }

  // ---- Values -----------------------------------------------------------------------

  function ReadValue(s: string): (r: Read<JsonValue>)
    ensures r.Read? ==> |r.rest| < |s|
    decreases |s|, 0
  {
    if s == "" then NotJson
    else if s[0] == '"' then
      var r := ReadString(s);
      if r.NotJson? then NotJson else Read(JStr(r.value), r.rest)
    else if s[0] == '[' then
      var t := SkipBlank(s[1..]);
      if t != "" && t[0] == ']' then Read(JArr([]), t[1..])
      else
        var r := ReadItems(t);
        if r.NotJson? then NotJson else Read(JArr(r.value), r.rest)
    else if s[0] == '{' then
      var t := SkipBlank(s[1..]);
      if t != "" && t[0] == '}' then Read(JObj([]), t[1..])
      else
        var r := ReadMembers(t);
        if r.NotJson? then NotJson else Read(JObj(r.value), r.rest)
    else ReadWord(s)
  }

  /** Items up to the closing bracket. */
  function ReadItems(s: string): (r: Read<seq<JsonValue>>)
    ensures r.Read? ==> |r.rest| < |s|
    decreases |s|, 1
  {
    var v := ReadValue(s);
    if v.NotJson? then NotJson
    else
      var t := SkipBlank(v.rest);
      if t == "" then NotJson
      else if t[0] == ']' then Read([v.value], t[1..])
      else if t[0] == ',' then
        var more := ReadItems(SkipBlank(t[1..]));
        if more.NotJson? then NotJson else Read([v.value] + more.value, more.rest)
      else NotJson
  }

  /** A member: its key, a colon and its value. */
  function ReadMember(s: string): (r: Read<Member>)
    ensures r.Read? ==> |r.rest| < |s|
    decreases |s|, 1
  {
    if s == "" || s[0] != '"' || ReadString(s).NotJson? then NotJson
    else
      var k := ReadString(s);
      var c := SkipBlank(k.rest);
      if c == "" || c[0] != ':' then NotJson
      else
        var v := ReadValue(SkipBlank(c[1..]));
        if v.NotJson? then NotJson else Read(Member(k.value, v.value), v.rest)
  }

  /** Members up to the closing brace. */
  function ReadMembers(s: string): (r: Read<seq<Member>>)
    ensures r.Read? ==> |r.rest| < |s|
    decreases |s|, 2
  {
    var m := ReadMember(s);
    if m.NotJson? then NotJson
    else
      var t := SkipBlank(m.rest);
      if t == "" then NotJson
      else if t[0] == '}' then Read([m.value], t[1..])
      else if t[0] == ',' then
        var more := ReadMembers(SkipBlank(t[1..]));
        if more.NotJson? then NotJson else Read([m.value] + more.value, more.rest)
      else NotJson
  }

  /** A whole text: one value with white space around it. */
  function ReadText(s: string): Option<JsonValue> {
    var v := ReadValue(SkipBlank(s));
    if v.Read? && SkipBlank(v.rest) == "" then Some(v.value) else None
  }

  // ---- JSON texts are left alone ----------------------------------------------------

  /** Outside strings, whatever stands in front, there is nothing the normalizer would change. */
  ghost predicate Sound(s: string) {
    forall prevWord :: NoPython(false, prevWord, s)
  }

  lemma {:induction false} BlankSound(s: string)
    requires Sound(SkipBlank(s))
    ensures Sound(s)
    decreases |s|
  {
    if s != "" && IsBlank(s[0]) {
      BlankSound(s[1..]);
      forall prevWord ensures NoPython(false, prevWord, s) {
        assert NoPython(false, IsWordChar(s[0]), s[1..]);
      }
    }
  }

  lemma CharSound(s: string)
    requires s != "" && Sound(s[1..])
    requires s[0] != '\'' && s[0] != '"' && !StartsLiteral(s[0])
    ensures Sound(s)
  {
    forall prevWord ensures NoPython(false, prevWord, s) {
      assert NoPython(false, IsWordChar(s[0]), s[1..]);
    }
  }

  lemma {:induction false} BodySound(prevWord: bool, t: string)
    requires BodyEnd(t) < |t| && NoPython(false, false, t[BodyEnd(t) + 1..])
    ensures NoPython(true, prevWord, t)
    decreases |t|
  {
    if t[0] == '"' {
      assert !IsWordChar(t[0]);
    } else if t[0] == '\\' && |t| > 1 {
      assert t[2..][BodyEnd(t[2..]) + 1..] == t[BodyEnd(t) + 1..];
      BodySound(IsWordChar(t[1]), t[2..]);
    } else {
      assert t[1..][BodyEnd(t[1..]) + 1..] == t[BodyEnd(t) + 1..];
      BodySound(IsWordChar(t[0]), t[1..]);
    }
  }

  lemma StringSound(s: string)
    requires s != "" && s[0] == '"' && ReadString(s).Read? && Sound(ReadString(s).rest)
    ensures Sound(s)
  {
    forall prevWord ensures NoPython(false, prevWord, s) {
      BodySound(IsWordChar(s[0]), s[1..]);
    }
  }

  lemma {:induction false} RunSound(s: string, n: nat)
    requires n <= |s| && Sound(s[n..])
    requires forall i :: 0 <= i < n ==> s[i] != '\'' && s[i] != '"' && !StartsLiteral(s[i])
    ensures Sound(s)
    decreases n
  {
    hide Sound;
    if n == 0 {
      assert s[0..] == s;
    } else {
      assert s[1..][n - 1..] == s[n..];
      RunSound(s[1..], n - 1);
      CharSound(s);
    }
  }

  predicate NumberLetter(c: char) {
    IsDigit(c) || c == '+' || c == '-' || c == '.' || c == 'e' || c == 'E'
  }

  predicate NumberLetters(t: string) {
    forall i :: 0 <= i < |t| ==> NumberLetter(t[i])
  }

  lemma LettersAppend(t: string, n: nat)
    requires n <= |t| && (forall i :: 0 <= i < n ==> NumberLetter(t[i])) && NumberLetters(t[n..])
    ensures NumberLetters(t)
  {
    forall i | n <= i < |t| ensures NumberLetter(t[i]) {
      assert t[i] == t[n..][i - n];
    }
  }

  lemma NumberHasLetters(t: string)
    requires JsonNumber(t)
    ensures NumberLetters(t) && t != ""
  {
    if t != "" && t[0] == '-' {
      IntLetters(t[1..]);
      LettersAppend(t, 1);
    } else {
      IntLetters(t);
    }
  }

  lemma IntLetters(t: string)
    requires IntPart(t)
    ensures NumberLetters(t) && t != ""
  {
    var n := DigitsLen(t);
    var u := t[n..];
    if u != "" && u[0] == '.' {
      var m := DigitsLen(u[1..]);
      ExpLetters(u[1 + m..]);
      assert forall i :: 1 <= i < 1 + m ==> u[i] == u[1..][i - 1];
      LettersAppend(u, 1 + m);
    } else {
      ExpLetters(u);
    }
    LettersAppend(t, n);
  }

  lemma ExpLetters(t: string)
    requires ExpPart(t)
    ensures NumberLetters(t)
  {
    if t != "" {
      var k := if |t| > 1 && (t[1] == '+' || t[1] == '-') then 2 else 1;
      assert NumberLetters(t[k..]);
      LettersAppend(t, k);
    }
  }

  lemma WordIsPlain(t: string)
    requires WordValue(t).Some?
    ensures forall i :: 0 <= i < |t| ==> t[i] != '\'' && t[i] != '"' && !StartsLiteral(t[i])
    ensures forall i :: 0 <= i < |t| ==> t[i] != '{' && t[i] != '}'
  {
    hide JsonNumber;
    if t != "null" && t != "true" && t != "false" {
      NumberHasLetters(t);
    }
  }

  lemma WordSound(s: string)
    requires ReadWord(s).Read? && Sound(ReadWord(s).rest)
    ensures Sound(s)
  {
    hide Sound, WordValue;
    var n := RunLen(s);
    WordIsPlain(s[..n]);
    assert forall i :: 0 <= i < n ==> s[i] == s[..n][i];
    RunSound(s, n);
  }

  lemma {:induction false} ValueSound(s: string)
    requires ReadValue(s).Read? && Sound(ReadValue(s).rest)
    ensures Sound(s)
    decreases |s|, 0
  {
    hide Sound, ReadWord, ReadString;
    if s[0] == '"' {
      StringSound(s);
    } else if s[0] == '[' || s[0] == '{' {
      var t := SkipBlank(s[1..]);
      if t != "" && (t[0] == ']' || t[0] == '}') && ReadValue(s).rest == t[1..] {
        CharSound(t);
      } else if s[0] == '[' {
        ItemsSound(t);
      } else {
        MembersSound(t);
      }
      BlankSound(s[1..]);
      CharSound(s);
    } else {
      WordSound(s);
    }
  }

  lemma {:induction false} ItemsSound(s: string)
    requires ReadItems(s).Read? && Sound(ReadItems(s).rest)
    ensures Sound(s)
    decreases |s|, 1
  {
    hide Sound, ReadValue;
    var v := ReadValue(s);
    var t := SkipBlank(v.rest);
    if t[0] == ',' {
      ItemsSound(SkipBlank(t[1..]));
      BlankSound(t[1..]);
    }
    CharSound(t);
    BlankSound(v.rest);
    ValueSound(s);
  }

  lemma {:induction false} MemberSound(s: string)
    requires ReadMember(s).Read? && Sound(ReadMember(s).rest)
    ensures Sound(s)
    decreases |s|, 1
  {
    hide Sound, ReadValue, ReadString;
    var c := SkipBlank(ReadString(s).rest);
    ValueSound(SkipBlank(c[1..]));
    BlankSound(c[1..]);
    CharSound(c);
    BlankSound(ReadString(s).rest);
    StringSound(s);
  }

  lemma {:induction false} MembersSound(s: string)
    requires ReadMembers(s).Read? && Sound(ReadMembers(s).rest)
    ensures Sound(s)
    decreases |s|, 2
  {
    hide Sound, ReadMember;
    var m := ReadMember(s);
    var t := SkipBlank(m.rest);
    if t[0] == ',' {
      MembersSound(SkipBlank(t[1..]));
      BlankSound(t[1..]);
    }
    CharSound(t);
    BlankSound(m.rest);
    MemberSound(s);
  }

  /** Every JSON text, with white space wherever JSON allows it, is left as it is. */
  lemma JsonTextUnchanged(s: string)
    requires ReadText(s).Some?
    ensures Normalize(s) == s
  {
    hide ReadValue, Normalize, NoPython;
    var t := SkipBlank(s);
    var v := ReadValue(t);
    assert Sound("") by { NothingSound(); }
    BlankSound(v.rest);
    ValueSound(t);
    BlankSound(s);
    IdentityExactly(s);
  }

  lemma NothingSound()
    ensures Sound("")
  {
  }

  // ---- JSON texts are balanced ------------------------------------------------------

  /** Reading from `s` to `rest` closes `k` braces more than it opens, and ends outside strings. */
  ghost predicate Closes(s: string, rest: string, k: int) {
    forall d :: ScanText(Scan(d + k, false, false), s) == ScanText(Scan(d, false, false), rest)
  }

  lemma ClosesThen(a: string, b: string, c: string, j: int, k: int)
    requires Closes(a, b, j) && Closes(b, c, k)
    ensures Closes(a, c, j + k)
  {
    forall d ensures ScanText(Scan(d + (j + k), false, false), a) == ScanText(Scan(d, false, false), c) {
      assert ScanText(Scan(d + k + j, false, false), a) == ScanText(Scan(d + k, false, false), b);
    }
  }

  lemma CharCloses(s: string)
    requires s != "" && s[0] != '"'
    ensures Closes(s, s[1..], if s[0] == '}' then 1 else if s[0] == '{' then -1 else 0)
  {
    hide ScanText;
    var k := if s[0] == '}' then 1 else if s[0] == '{' then -1 else 0;
    forall d ensures ScanText(Scan(d + k, false, false), s) == ScanText(Scan(d, false, false), s[1..]) {
      ScanFront(Scan(d + k, false, false), s);
    }
  }

  lemma ScanFront(st: Scan, s: string)
    requires s != ""
    ensures ScanText(st, s) == ScanText(ScanChar(st, s[0]), s[1..])
  {
  }

  lemma {:induction false} BlankCloses(s: string)
    ensures Closes(s, SkipBlank(s), 0)
    decreases |s|
  {
    hide Closes;
    if s != "" && IsBlank(s[0]) {
      CharCloses(s);
      BlankCloses(s[1..]);
      ClosesThen(s, s[1..], SkipBlank(s), 0, 0);
    } else {
      SameCloses(s);
    }
  }

  lemma SameCloses(s: string)
    ensures Closes(s, s, 0)
  {
  }

  lemma {:induction false} RunCloses(s: string, n: nat)
    requires n <= |s| && forall i :: 0 <= i < n ==> s[i] != '"' && s[i] != '{' && s[i] != '}'
    ensures Closes(s, s[n..], 0)
    decreases n
  {
    hide Closes;
    if n == 0 {
      assert s[0..] == s;
      SameCloses(s);
    } else {
      CharCloses(s);
      RunCloses(s[1..], n - 1);
      assert s[1..][n - 1..] == s[n..];
      ClosesThen(s, s[1..], s[n..], 0, 0);
    }
  }

  lemma {:induction false} BodyCloses(d: int, t: string)
    requires BodyEnd(t) < |t|
    ensures ScanText(Scan(d, true, false), t) == ScanText(Scan(d, false, false), t[BodyEnd(t) + 1..])
    decreases |t|
  {
    if t[0] == '"' {
    } else if t[0] == '\\' && |t| > 1 {
      assert t[2..][BodyEnd(t[2..]) + 1..] == t[BodyEnd(t) + 1..];
      assert t[1..][1..] == t[2..];
      BodyCloses(d, t[2..]);
    } else {
      assert t[1..][BodyEnd(t[1..]) + 1..] == t[BodyEnd(t) + 1..];
      BodyCloses(d, t[1..]);
    }
  }

  lemma StringCloses(s: string)
    requires s != "" && s[0] == '"' && ReadString(s).Read?
    ensures Closes(s, ReadString(s).rest, 0)
  {
    forall d ensures ScanText(Scan(d, false, false), s) == ScanText(Scan(d, false, false), ReadString(s).rest) {
      BodyCloses(d, s[1..]);
    }
  }

  lemma WordCloses(s: string)
    requires ReadWord(s).Read?
    ensures Closes(s, ReadWord(s).rest, 0)
  {
    hide Closes, WordValue;
    var n := RunLen(s);
    WordIsPlain(s[..n]);
    assert forall i :: 0 <= i < n ==> s[i] == s[..n][i];
    RunCloses(s, n);
  }

  lemma {:induction false} ValueCloses(s: string)
    requires ReadValue(s).Read?
    ensures Closes(s, ReadValue(s).rest, 0)
    decreases |s|, 0
  {
    hide Closes, ReadWord, ReadString;
    var rest := ReadValue(s).rest;
    if s[0] == '"' {
      StringCloses(s);
    } else if s[0] == '[' || s[0] == '{' {
      var k := if s[0] == '{' then 1 else 0;
      var t := SkipBlank(s[1..]);
      if t != "" && t[0] == (if s[0] == '{' then '}' else ']') {
        CharCloses(t);
      } else if s[0] == '[' {
        ItemsClose(t);
      } else {
        MembersClose(t);
      }
      CharCloses(s);
      BlankCloses(s[1..]);
      ClosesThen(s, s[1..], t, -k, 0);
      ClosesThen(s, t, rest, -k, k);
    } else {
      WordCloses(s);
    }
  }

  lemma {:induction false} ItemsClose(s: string)
    requires ReadItems(s).Read?
    ensures Closes(s, ReadItems(s).rest, 0)
    decreases |s|, 1
  {
    hide Closes, ReadValue;
    var v := ReadValue(s);
    var t := SkipBlank(v.rest);
    ValueCloses(s);
    BlankCloses(v.rest);
    ClosesThen(s, v.rest, t, 0, 0);
    CharCloses(t);
    ClosesThen(s, t, t[1..], 0, 0);
    if t[0] == ',' {
      var u := SkipBlank(t[1..]);
      BlankCloses(t[1..]);
      ClosesThen(s, t[1..], u, 0, 0);
      ItemsClose(u);
      ClosesThen(s, u, ReadItems(u).rest, 0, 0);
    }
  }

  lemma {:induction false} MemberCloses(s: string)
    requires ReadMember(s).Read?
    ensures Closes(s, ReadMember(s).rest, 0)
    decreases |s|, 1
  {
    hide Closes, ReadValue, ReadString;
    var k := ReadString(s).rest;
    var c := SkipBlank(k);
    var u := SkipBlank(c[1..]);
    StringCloses(s);
    BlankCloses(k);
    ClosesThen(s, k, c, 0, 0);
    CharCloses(c);
    ClosesThen(s, c, c[1..], 0, 0);
    BlankCloses(c[1..]);
    ClosesThen(s, c[1..], u, 0, 0);
    ValueCloses(u);
    ClosesThen(s, u, ReadValue(u).rest, 0, 0);
  }

  lemma {:induction false} MembersClose(s: string)
    requires ReadMembers(s).Read?
    ensures Closes(s, ReadMembers(s).rest, 1)
    decreases |s|, 2
  {
    hide Closes, ReadMember;
    var m := ReadMember(s);
    var t := SkipBlank(m.rest);
    MemberCloses(s);
    BlankCloses(m.rest);
    ClosesThen(s, m.rest, t, 0, 0);
    CharCloses(t);
    if t[0] == ',' {
      var u := SkipBlank(t[1..]);
      ClosesThen(s, t, t[1..], 0, 0);
      BlankCloses(t[1..]);
      ClosesThen(s, t[1..], u, 0, 0);
      MembersClose(u);
      ClosesThen(s, u, ReadMembers(u).rest, 0, 1);
    } else {
      ClosesThen(s, t, t[1..], 0, 1);
    }
  }

  /** Every JSON text leaves the brace counter as it found it. */
  lemma JsonTextNeutral(s: string)
    requires ReadText(s).Some?
    ensures Neutral(s)
  {
    hide ReadValue, Closes;
    var t := SkipBlank(s);
    var v := ReadValue(t);
    BlankCloses(s);
    ValueCloses(t);
    ClosesThen(s, t, v.rest, 0, 0);
    BlankCloses(v.rest);
    ClosesThen(s, v.rest, "", 0, 0);
    ClosesAll(s);
  }

  lemma ClosesAll(s: string)
    requires Closes(s, "", 0)
    ensures Neutral(s)
  {
    forall d ensures ScanText(Scan(d, false, false), s) == Scan(d, false, false) {
      assert ScanText(Scan(d + 0, false, false), s) == ScanText(Scan(d, false, false), "");
    }
  }

  // ---- Reading goes on behind a text ------------------------------------------------

  /** What may follow a value without becoming part of it. */
  predicate Stops(x: string) {
    x == "" || !IsWordLike(x[0])
  }

  lemma {:induction false} BlankThen(s: string, x: string)
    ensures SkipBlank(s) != "" ==> SkipBlank(s + x) == SkipBlank(s) + x
    ensures SkipBlank(s) == "" ==> SkipBlank(s + x) == SkipBlank(x)
    decreases |s|
  {
    if s == "" {
      assert s + x == x;
    } else if IsBlank(s[0]) {
      assert (s + x)[1..] == s[1..] + x;
      BlankThen(s[1..], x);
    }
  }

  lemma {:induction false} BodyThen(t: string, x: string)
    requires BodyEnd(t) < |t|
    ensures BodyEnd(t + x) == BodyEnd(t)
    decreases |t|
  {
    if t[0] == '"' {
    } else if t[0] == '\\' && |t| > 1 {
      assert (t + x)[2..] == t[2..] + x;
      BodyThen(t[2..], x);
    } else {
      assert (t + x)[1..] == t[1..] + x;
      BodyThen(t[1..], x);
    }
  }

  lemma StringThen(s: string, x: string)
    requires s != "" && s[0] == '"' && ReadString(s).Read?
    ensures ReadString(s + x) == Read(ReadString(s).value, ReadString(s).rest + x)
  {
    hide JsonRead;
    var t := s[1..];
    var n := BodyEnd(t);
    BodyThen(t, x);
    assert (s + x)[1..] == t + x;
    assert (t + x)[..n] == t[..n] && (t + x)[n + 1..] == t[n + 1..] + x;
  }

  lemma {:induction false} RunThen(s: string, x: string)
    requires Stops(x)
    ensures RunLen(s + x) == RunLen(s)
    decreases |s|
  {
    if s == "" {
      assert s + x == x;
    } else {
      assert (s + x)[1..] == s[1..] + x;
      RunThen(s[1..], x);
    }
  }

  lemma WordThen(s: string, x: string)
    requires Stops(x) && ReadWord(s).Read?
    ensures ReadWord(s + x) == Read(ReadWord(s).value, ReadWord(s).rest + x)
  {
    hide WordValue;
    var n := RunLen(s);
    RunThen(s, x);
    assert (s + x)[..n] == s[..n] && (s + x)[n..] == s[n..] + x;
  }

  /** A value that is read is read the same way in front of more text. */
  lemma {:induction false} ValueThen(s: string, x: string)
    requires Stops(x) && ReadValue(s).Read?
    ensures ReadValue(s + x) == Read(ReadValue(s).value, ReadValue(s).rest + x)
    decreases |s|, 0
  {
    hide ReadString, ReadWord;
    assert (s + x)[0] == s[0] && (s + x)[1..] == s[1..] + x;
    if s[0] == '"' {
      StringThen(s, x);
    } else if s[0] == '[' || s[0] == '{' {
      var t := SkipBlank(s[1..]);
      BlankThen(s[1..], x);
      if t != "" && t[0] == (if s[0] == '{' then '}' else ']') {
        assert (t + x)[1..] == t[1..] + x;
      } else if s[0] == '[' {
        ItemsThen(t, x);
      } else {
        MembersThen(t, x);
      }
    } else {
      WordThen(s, x);
    }
  }

  lemma {:induction false} ItemsThen(s: string, x: string)
    requires Stops(x) && ReadItems(s).Read?
    ensures s != "" && ReadItems(s + x) == Read(ReadItems(s).value, ReadItems(s).rest + x)
    decreases |s|, 1
  {
    hide ReadValue;
    var v := ReadValue(s);
    var t := SkipBlank(v.rest);
    ValueThen(s, x);
    BlankThen(v.rest, x);
    assert (t + x)[0] == t[0] && (t + x)[1..] == t[1..] + x;
    if t[0] == ',' {
      BlankThen(t[1..], x);
      ItemsThen(SkipBlank(t[1..]), x);
    }
  }

  lemma {:induction false} MemberThen(s: string, x: string)
    requires Stops(x) && ReadMember(s).Read?
    ensures ReadMember(s + x) == Read(ReadMember(s).value, ReadMember(s).rest + x)
    decreases |s|, 1
  {
    hide ReadValue, ReadString;
    var k := ReadString(s).rest;
    var c := SkipBlank(k);
    assert (s + x)[0] == s[0];
    StringThen(s, x);
    BlankThen(k, x);
    assert (c + x)[0] == c[0] && (c + x)[1..] == c[1..] + x;
    BlankThen(c[1..], x);
    ValueThen(SkipBlank(c[1..]), x);
  }

  lemma {:induction false} MembersThen(s: string, x: string)
    requires Stops(x) && ReadMembers(s).Read?
    ensures s != "" && ReadMembers(s + x) == Read(ReadMembers(s).value, ReadMembers(s).rest + x)
    decreases |s|, 2
  {
    hide ReadMember;
    var m := ReadMember(s);
    var t := SkipBlank(m.rest);
    MemberThen(s, x);
    BlankThen(m.rest, x);
    assert (t + x)[0] == t[0] && (t + x)[1..] == t[1..] + x;
    if t[0] == ',' {
      BlankThen(t[1..], x);
      MembersThen(SkipBlank(t[1..]), x);
    }
  }

  /** A JSON text in front of more text reads as its value, up to white space. */
  lemma TextThen(s: string, x: string)
    requires Stops(x) && ReadText(s).Some?
    ensures var v := ReadValue(SkipBlank(s + x));
            v.Read? && v.value == ReadText(s).value && SkipBlank(v.rest) == SkipBlank(x)
  {
    hide ReadValue;
    var t := SkipBlank(s);
    assert t != "" by { NoEmptyValue(); }
    BlankThen(s, x);
    ValueThen(t, x);
    BlankThen(ReadValue(t).rest, x);
  }

  lemma NoEmptyValue()
    ensures ReadValue("").NotJson?
  {
  }
}
