/** The glob matcher (`glob_match`, `glob_class_match`), proved against the language of the
    tokenised pattern. Text and pattern are C strings: their end stands for the NUL byte. */
module Glob {
  datatype Item = One(c: char) | Span(lo: char, hi: char)

  datatype Token =
    | Star
    | DoubleStar
    | AnyChar
    | Class(negated: bool, items: seq<Item>)
    | Lit(c: char)

  // ---- The language -----------------------------------------------------------------

  predicate InItem(c: char, item: Item) {
    match item
    case One(d) => c == d
    case Span(lo, hi) => lo <= c <= hi
  }

  predicate InItems(c: char, items: seq<Item>) {
    exists i :: 0 <= i < |items| && InItem(c, items[i])
  }

  predicate SingleChar(t: Token) {
    !t.Star? && !t.DoubleStar?
  }

  predicate AcceptsChar(t: Token, c: char)
    requires SingleChar(t)
  {
    match t
    case AnyChar => c != '/'
    case Class(negated, items) => InItems(c, items) != negated
    case Lit(d) => c == d
  }

  predicate Accepts(t: Token, s: string) {
    match t
    case Star => forall i :: 0 <= i < |s| ==> s[i] != '/'
    case DoubleStar => true
    case _ => |s| == 1 && AcceptsChar(t, s[0])
  }

  /** The text is a concatenation of parts the tokens accept, one after the other. */
  predicate InLanguage(ts: seq<Token>, s: string)
    decreases |ts|
  {
    if ts == [] then s == ""
    else exists k :: 0 <= k <= |s| && Accepts(ts[0], s[..k]) && InLanguage(ts[1..], s[k..])
  }

  // ---- Tokens of a pattern ----------------------------------------------------------

  /** The first `]` at or after `i`, or the end of the pattern. */
  function Closer(p: string, i: nat): (r: nat)
    requires i <= |p|
    ensures i <= r <= |p| && (r < |p| ==> p[r] == ']')
    ensures forall k :: i <= k < r ==> p[k] != ']'
    decreases |p| - i
  {
    if i == |p| || p[i] == ']' then i else Closer(p, i + 1)
  }

  /** Where the class that starts at the front of `p` ends; a first `]` or `-` is literal. */
  function ClassEnd(p: string): (r: nat)
    requires p != "" && p[0] == '['
    ensures 1 <= r <= |p| && (r < |p| ==> p[r] == ']')
  {
    Closer(p, if |p| > 1 && (p[1] == ']' || p[1] == '-') then 2 else 1)
  }

  function Items(body: string): seq<Item> {
    if body == "" then []
    else if |body| > 2 && body[1] == '-' && body[2] != ']' then [Span(body[0], body[2])] + Items(body[3..])
    else [One(body[0])] + Items(body[1..])
  }

  /** A first `]` or `-` is literal; the rest are ranges and single characters. */
  function ClassItems(body: string): seq<Item> {
    if body != "" && (body[0] == ']' || body[0] == '-') then [One(body[0])] + Items(body[1..]) else Items(body)
  }

  function ClassToken(body: string): (t: Token)
    ensures t.Class?
  {
    if body != "" && body[0] == '!' then Class(true, ClassItems(body[1..])) else Class(false, ClassItems(body))
  }

  function Tokens(p: string): seq<Token>
    decreases |p|
  {
    if p == "" then []
    else if p[0] == '*' then
      if |p| > 1 && p[1] == '*' then [DoubleStar] + Tokens(p[2..]) else [Star] + Tokens(p[1..])
    else if p[0] == '?' then [AnyChar] + Tokens(p[1..])
    else if p[0] == '[' && ClassEnd(p) < |p| then
      [ClassToken(p[1..ClassEnd(p)])] + Tokens(p[ClassEnd(p) + 1..])
    else [Lit(p[0])] + Tokens(p[1..])
  }

  // ---- How the language unfolds -----------------------------------------------------

  lemma CharFirst(t: Token, ts: seq<Token>, s: string)
    requires SingleChar(t)
    ensures InLanguage([t] + ts, s) <==> s != "" && AcceptsChar(t, s[0]) && InLanguage(ts, s[1..])
  {
    hide AcceptsChar;
    assert ([t] + ts)[1..] == ts;
    if s != "" && AcceptsChar(t, s[0]) && InLanguage(ts, s[1..]) {
      assert |s[..1]| == 1 && s[..1][0] == s[0];
      assert Accepts(t, s[..1]);
    }
  }

  lemma DoubleStarFirst(ts: seq<Token>, s: string)
    ensures InLanguage([DoubleStar] + ts, s) <==>
            InLanguage(ts, s) || (s != "" && InLanguage([DoubleStar] + ts, s[1..]))
  {
    assert ([DoubleStar] + ts)[1..] == ts;
    if InLanguage([DoubleStar] + ts, s) {
      var k :| 0 <= k <= |s| && InLanguage(ts, s[k..]);
      if k == 0 {
        assert s[0..] == s;
      } else {
        assert s[1..][k - 1..] == s[k..] && Accepts(DoubleStar, s[1..][..k - 1]);
      }
    }
    if InLanguage(ts, s) {
      assert s[0..] == s && Accepts(DoubleStar, s[..0]);
    }
    if s != "" && InLanguage([DoubleStar] + ts, s[1..]) {
      var k :| 0 <= k <= |s[1..]| && InLanguage(ts, s[1..][k..]);
      assert s[1..][k..] == s[k + 1..] && Accepts(DoubleStar, s[..k + 1]);
    }
  }

  predicate NoSlash(s: string, n: nat)
    requires n <= |s|
  {
    forall i :: 0 <= i < n ==> s[i] != '/'
  }

  lemma StarFirst(ts: seq<Token>, s: string)
    ensures InLanguage([Star] + ts, s) <==> exists k :: 0 <= k <= |s| && NoSlash(s, k) && InLanguage(ts, s[k..])
  {
    assert ([Star] + ts)[1..] == ts;
    forall k | 0 <= k <= |s| ensures Accepts(Star, s[..k]) <==> NoSlash(s, k) {
      assert forall i :: 0 <= i < k ==> s[..k][i] == s[i];
    }
  }

  // ---- The matchers -----------------------------------------------------------------

  /** Matches `c` against the class between `start` and `classEnd`, where the pattern has `]`. */
  method GlobClassMatch(c: char, pattern: string, start: nat, classEnd: nat) returns (r: bool)
    requires start <= classEnd < |pattern| && pattern[classEnd] == ']'
    ensures r == AcceptsChar(ClassToken(pattern[start..classEnd]), c)
  {
    ghost var body := pattern[start..classEnd];
    var i := start;
    var negated := false;
    if pattern[i] == '!' {
      negated := true;
      i := i + 1;
    }
    ghost var rest := if negated then body[1..] else body;
    assert rest == if i <= classEnd then pattern[i..classEnd] else "";
    ghost var first := i;
    if pattern[i] == ']' || pattern[i] == '-' {
      if i < classEnd && pattern[i] == c {
        assert rest[0] == c && ClassItems(rest)[0] == One(c);
        return !negated;
      }
      i := i + 1;
    }
    ghost var items := if i <= classEnd then Items(pattern[i..classEnd]) else [];
    ClassItemsTail(c, rest, pattern, first, i, classEnd);
    var matched := MatchItems(c, pattern, i, classEnd);
    return if negated then !matched else matched;
  }

  /** What a literal first `]` or `-` that did not match leaves over. */
  lemma ClassItemsTail(c: char, rest: string, pattern: string, first: nat, i: nat, classEnd: nat)
    requires first <= classEnd < |pattern| && pattern[classEnd] == ']' && rest == pattern[first..classEnd]
    requires if pattern[first] == ']' || pattern[first] == '-'
             then i == first + 1 && (first < classEnd ==> pattern[first] != c)
             else i == first
    ensures InItems(c, ClassItems(rest)) <==> i <= classEnd && InItems(c, Items(pattern[i..classEnd]))
  {
    if first < classEnd && i == first + 1 {
      assert rest[0] == pattern[first] && rest[1..] == pattern[i..classEnd];
      InItemsCons(c, One(rest[0]), Items(rest[1..]));
    }
  }

  lemma InItemsCons(c: char, item: Item, items: seq<Item>)
    ensures InItems(c, [item] + items) <==> InItem(c, item) || InItems(c, items)
  {
    if InItem(c, item) {
      assert ([item] + items)[0] == item;
    }
    if InItems(c, items) {
      var i :| 0 <= i < |items| && InItem(c, items[i]);
      assert ([item] + items)[i + 1] == items[i];
    }
  }

  method MatchItems(c: char, pattern: string, start: nat, classEnd: nat) returns (matched: bool)
    requires start <= classEnd + 1 && classEnd < |pattern|
    ensures matched <==> start <= classEnd && InItems(c, Items(pattern[start..classEnd]))
  {
    hide InItems;
    matched := false;
    var i := start;
    if start > classEnd {
      return;
    }
    while i < classEnd
      invariant start <= i <= classEnd
      invariant InItems(c, Items(pattern[start..classEnd])) <==> InItems(c, Items(pattern[i..classEnd]))
    {
      ghost var body := pattern[i..classEnd];
      if i + 2 < classEnd && pattern[i + 1] == '-' && pattern[i + 2] != ']' {
        assert body[3..] == pattern[i + 3..classEnd];
        InItemsCons(c, Span(pattern[i], pattern[i + 2]), Items(body[3..]));
        if c >= pattern[i] && c <= pattern[i + 2] {
          return true;
        }
        i := i + 3;
      } else {
        assert body[1..] == pattern[i + 1..classEnd];
        InItemsCons(c, One(pattern[i]), Items(body[1..]));
        if pattern[i] == c {
          return true;
        }
        i := i + 1;
      }
    }
    assert pattern[i..classEnd] == "";
    NoItems(c);
  }

  lemma NoItems(c: char)
    ensures !InItems(c, Items(""))
  {
  }

  /** The recursive matcher decides the language of the pattern's tokens. */
  method GlobMatch(pattern: string, str: string) returns (r: bool)
    ensures r == InLanguage(Tokens(pattern), str)
    decreases |pattern|, |str|, 1
  {
    hide InLanguage, AcceptsChar, Tokens, ClassToken;
    TokensUnfold(pattern);
    if pattern == "" {
      EmptyPattern(str);
      return str == "";
    }
    if pattern[0] == '*' && |pattern| > 1 && pattern[1] == '*' {
      DoubleStarFirst(Tokens(pattern[2..]), str);
      r := GlobMatch(pattern[2..], str);
      if r {
        return;
      }
      if str != "" {
        r := GlobMatch(pattern, str[1..]);
      }
      return;
    }
    if pattern[0] == '*' {
      r := MatchStar(pattern, str);
      return;
    }
    if pattern[0] == '?' && str != "" && str[0] != '/' {
      CharFirst(AnyChar, Tokens(pattern[1..]), str);
      AnyAccepts(str[0]);
      r := GlobMatch(pattern[1..], str[1..]);
      return;
    }
    if pattern[0] == '[' {
      var classEnd := 1;
      if classEnd < |pattern| && (pattern[classEnd] == ']' || pattern[classEnd] == '-') {
        classEnd := classEnd + 1;
      }
      while classEnd < |pattern| && pattern[classEnd] != ']'
        invariant 1 <= classEnd <= |pattern|
        invariant Closer(pattern, classEnd) == ClassEnd(pattern)
      {
        classEnd := classEnd + 1;
      }
      if classEnd < |pattern| {
        CharFirst(ClassToken(pattern[1..classEnd]), Tokens(pattern[classEnd + 1..]), str);
        if str == "" {
          return false;
        }
        var matched := GlobClassMatch(str[0], pattern, 1, classEnd);
        if matched {
          r := GlobMatch(pattern[classEnd + 1..], str[1..]);
          return;
        }
        return false;
      } else {
        CharFirst(Lit('['), Tokens(pattern[1..]), str);
        LitAccepts('[', str);
        if str != "" && str[0] == '[' {
          r := GlobMatch(pattern[1..], str[1..]);
          return;
        }
        return false;
      }
    }
    if pattern[0] == '?' {
      CharFirst(AnyChar, Tokens(pattern[1..]), str);
      if str != "" { AnyAccepts(str[0]); }
    } else {
      CharFirst(Lit(pattern[0]), Tokens(pattern[1..]), str);
      LitAccepts(pattern[0], str);
    }
    if str != "" && pattern[0] == str[0] {
      r := GlobMatch(pattern[1..], str[1..]);
      return;
    }
    return false;
  }

  lemma TokensUnfold(p: string)
    ensures Tokens(p) ==
            if p == "" then []
            else if p[0] == '*' then
              if |p| > 1 && p[1] == '*' then [DoubleStar] + Tokens(p[2..]) else [Star] + Tokens(p[1..])
            else if p[0] == '?' then [AnyChar] + Tokens(p[1..])
            else if p[0] == '[' && ClassEnd(p) < |p| then
              [ClassToken(p[1..ClassEnd(p)])] + Tokens(p[ClassEnd(p) + 1..])
            else [Lit(p[0])] + Tokens(p[1..])
  {
  }

  lemma EmptyPattern(s: string)
    ensures InLanguage([], s) <==> s == ""
  {
  }

  lemma AnyAccepts(c: char)
    ensures AcceptsChar(AnyChar, c) <==> c != '/'
  {
  }

  lemma LitAccepts(d: char, s: string)
    ensures s != "" ==> (AcceptsChar(Lit(d), s[0]) <==> s[0] == d)
  {
  }

  /** The loop for a single star: every slash-free start is tried. */
  method MatchStar(pattern: string, str: string) returns (r: bool)
    requires pattern != "" && pattern[0] == '*' && !(|pattern| > 1 && pattern[1] == '*')
    ensures r == InLanguage(Tokens(pattern), str)
    decreases |pattern|, |str|, 0
  {
    hide InLanguage, Tokens;
    TokensUnfold(pattern);
    ghost var ts := Tokens(pattern[1..]);
    StarFirst(ts, str);
    var i := 0;
    while i < |str| && str[i] != '/'
      invariant 0 <= i <= |str| && NoSlash(str, i)
      invariant forall k :: 0 <= k < i ==> !InLanguage(ts, str[k..])
    {
      r := GlobMatch(pattern[1..], str[i..]);
      if r {
        return true;
      }
      i := i + 1;
    }
    r := GlobMatch(pattern[1..], str[i..]);
  }

  // ---- The wrapper over std::string -------------------------------------------------

  /** What `c_str()` shows of a string: everything before its first NUL. */
  function CString(s: string): (r: string)
    ensures r <= s && '\0' !in r
    ensures |r| < |s| ==> s[|r|] == '\0'
  {
    if s == "" || s[0] == '\0' then "" else [s[0]] + CString(s[1..])
  }

  method GlobMatchStrings(pattern: string, str: string) returns (r: bool)
    ensures r == InLanguage(Tokens(CString(pattern)), CString(str))
  {
    r := GlobMatch(CString(pattern), CString(str));
  }

  // ---- What the language is for -----------------------------------------------------

  /** A pattern without special characters matches itself and nothing else. */
  lemma {:induction false} PlainPattern(p: string, s: string)
    requires forall i :: 0 <= i < |p| ==> p[i] != '*' && p[i] != '?' && p[i] != '['
    ensures InLanguage(Tokens(p), s) <==> s == p
    decreases |p|
  {
    if p != "" {
      CharFirst(Lit(p[0]), Tokens(p[1..]), s);
      if s != "" {
        PlainPattern(p[1..], s[1..]);
        assert s == [s[0]] + s[1..] && p == [p[0]] + p[1..];
      }
    }
  }

  // A plain prefix, a slash and two stars match exactly what starts with the prefix and a slash.
  lemma {:induction false} DirectoryPattern(p: string, s: string)
    requires forall i :: 0 <= i < |p| ==> p[i] != '*' && p[i] != '?' && p[i] != '['
    ensures InLanguage(Tokens(p + "/**"), s) <==> p + "/" <= s
    decreases |p|
  {
    hide InLanguage, Tokens;
    TokensUnfold(p + "/**");
    if p == "" {
      assert (p + "/**")[1..] == "**";
      CharFirst(Lit('/'), Tokens("**"), s);
      if s != "" {
        EverythingPattern(s[1..]);
      }
    } else {
      assert (p + "/**")[1..] == p[1..] + "/**";
      CharFirst(Lit(p[0]), Tokens(p[1..] + "/**"), s);
      if s != "" {
        DirectoryPattern(p[1..], s[1..]);
        assert p + "/" == [p[0]] + (p[1..] + "/");
        PrefixCons(p[0], p[1..] + "/", s);
      }
    }
  }

  lemma PrefixCons(c: char, p: string, s: string)
    requires s != ""
    ensures [c] + p <= s <==> s[0] == c && p <= s[1..]
  {
    if [c] + p <= s {
      assert s[..|p| + 1] == [c] + p;
      assert s[1..][..|p|] == s[..|p| + 1][1..];
    }
    if s[0] == c && p <= s[1..] {
      assert s == [s[0]] + s[1..];
    }
  }

  lemma EverythingPattern(s: string)
    ensures InLanguage(Tokens("**"), s)
  {
    hide InLanguage, Tokens;
    TokensUnfold("**");
    assert "**"[2..] == "";
    TokensUnfold("");
    NothingLeft(s);
  }

  lemma {:induction false} NothingLeft(s: string)
    ensures InLanguage([DoubleStar] + [], s)
    decreases |s|
  {
    hide InLanguage;
    DoubleStarFirst([], s);
    if s == "" {
      EmptyPattern(s);
    } else {
      NothingLeft(s[1..]);
    }
  }
}
