/** What glob patterns match, sign by sign: each law says what a pattern matches in terms of what
    the pattern behind its first sign matches. */
module GlobLaws {
  import opened Glob

  ghost predicate Fits(p: string, s: string) {
    InLanguage(Tokens(p), s)
  }

  // ---- Single characters ------------------------------------------------------------

  lemma EmptyFits(s: string)
    ensures Fits("", s) <==> s == ""
  {
  }

  /** A character that is no sign matches itself. */
  lemma LiteralFits(c: char, p: string, s: string)
    requires c != '*' && c != '?' && c != '['
    ensures Fits([c] + p, s) <==> s != "" && s[0] == c && Fits(p, s[1..])
  {
    hide InLanguage, Tokens;
    TokensUnfold([c] + p);
    assert ([c] + p)[1..] == p;
    CharFirst(Lit(c), Tokens(p), s);
    LitAccepts(c, s);
  }

  /** A question mark matches one character that is no slash. */
  lemma QuestionMarkFits(p: string, s: string)
    ensures Fits("?" + p, s) <==> s != "" && s[0] != '/' && Fits(p, s[1..])
  {
    hide InLanguage, Tokens;
    TokensUnfold("?" + p);
    assert ("?" + p)[1..] == p;
    CharFirst(AnyChar, Tokens(p), s);
    if s != "" {
      AnyAccepts(s[0]);
    }
  }

  // ---- Stars ------------------------------------------------------------------------

  /** One star matches any text without a slash. */
  lemma StarFits(p: string, s: string)
    requires p == "" || p[0] != '*'
    ensures Fits("*" + p, s) <==>
            exists k :: 0 <= k <= |s| && (forall i :: 0 <= i < k ==> s[i] != '/') && Fits(p, s[k..])
  {
    hide InLanguage, Tokens;
    TokensUnfold("*" + p);
    assert ("*" + p)[1..] == p;
    StarFirst(Tokens(p), s);
    forall k | 0 <= k <= |s| ensures NoSlash(s, k) <==> forall i :: 0 <= i < k ==> s[i] != '/' {
    }
    forall k | 0 <= k <= |s| ensures Fits(p, s[k..]) <==> InLanguage(Tokens(p), s[k..]) {
    }
  }

  /** A star alone matches exactly the texts without a slash. */
  lemma StarAlone(s: string)
    ensures Fits("*", s) <==> forall i :: 0 <= i < |s| ==> s[i] != '/'
  {
    hide InLanguage, Tokens;
    assert "*" + "" == "*";
    StarFits("", s);
    forall k | 0 <= k <= |s| ensures Fits("", s[k..]) <==> k == |s| {
      EmptyFits(s[k..]);
    }
    if forall i :: 0 <= i < |s| ==> s[i] != '/' {
      assert Fits("", s[|s|..]);
    }
  }

  /** Two stars match any text. */
  lemma {:induction false} StarsFit(p: string, s: string)
    ensures Fits("**" + p, s) <==> exists k :: 0 <= k <= |s| && Fits(p, s[k..])
    decreases |s|
  {
    hide InLanguage, Tokens;
    TokensUnfold("**" + p);
    assert ("**" + p)[2..] == p;
    DoubleStarFirst(Tokens(p), s);
    assert s[0..] == s;
    if s != "" {
      StarsFit(p, s[1..]);
      forall k | 0 <= k <= |s[1..]| ensures s[1..][k..] == s[k + 1..] {
      }
      if Fits("**" + p, s[1..]) {
        var k :| 0 <= k <= |s[1..]| && Fits(p, s[1..][k..]);
        assert Fits(p, s[k + 1..]);
      }
      if exists k :: 0 <= k <= |s| && Fits(p, s[k..]) {
        var k :| 0 <= k <= |s| && Fits(p, s[k..]);
        assert k > 0 ==> s[1..][k - 1..] == s[k..];
      }
    }
  }

  // ---- Classes ----------------------------------------------------------------------

  function SpellItem(item: Item): string {
    match item
    case One(c) => [c]
    case Span(lo, hi) => [lo, '-', hi]
  }

  /** The inside of a class: characters and ranges, one after the other. */
  function SpellItems(items: seq<Item>): string {
    if items == [] then "" else SpellItem(items[0]) + SpellItems(items[1..])
  }

  /** Characters that stand for themselves anywhere in a class. */
  predicate PlainItem(item: Item) {
    match item
    case One(c) => c != ']' && c != '-' && c != '!'
    case Span(lo, hi) => lo != ']' && lo != '-' && lo != '!' && hi != ']'
  }

  predicate PlainItems(items: seq<Item>) {
    forall i :: 0 <= i < |items| ==> PlainItem(items[i])
  }

  /** The character is listed, or lies in a range. */
  predicate Listed(c: char, items: seq<Item>) {
    exists i :: 0 <= i < |items| &&
      match items[i]
      case One(d) => d == c
      case Span(lo, hi) => lo <= c && c <= hi
  }

  lemma {:induction false} ItemsSpelled(items: seq<Item>)
    requires PlainItems(items)
    ensures Items(SpellItems(items)) == items
    ensures forall k :: 0 <= k < |SpellItems(items)| ==> SpellItems(items)[k] != ']'
    ensures items != [] ==> SpellItems(items) != "" && SpellItems(items)[0] != '-' && SpellItems(items)[0] != '!'
  {
    if items != [] {
      ItemsSpelled(items[1..]);
      var t := SpellItems(items);
      assert PlainItem(items[0]);
      var n := |SpellItem(items[0])|;
      assert t[n..] == SpellItems(items[1..]);
      assert items == [items[0]] + items[1..];
    }
  }

  lemma ListedExactly(c: char, items: seq<Item>)
    ensures Listed(c, items) <==> InItems(c, items)
  {
    if Listed(c, items) {
      var i :| 0 <= i < |items| &&
        match items[i]
        case One(d) => d == c
        case Span(lo, hi) => lo <= c && c <= hi;
      assert InItem(c, items[i]);
    }
    if InItems(c, items) {
      var i :| 0 <= i < |items| && InItem(c, items[i]);
      assert match items[i]
             case One(d) => d == c
             case Span(lo, hi) => lo <= c && c <= hi;
    }
  }

  /** The class between the brackets, in front of any pattern. */
  lemma ClassFirst(body: string, p: string, s: string)
    requires body != "" && forall k :: 1 <= k < |body| ==> body[k] != ']'
    ensures var t := "[" + body + "]" + p;
            Tokens(t) == [ClassToken(body)] + Tokens(p)
  {
    var t := "[" + body + "]" + p;
    var n := |body| + 1;
    assert t[n] == ']' && forall k :: 2 <= k < n ==> t[k] == body[k - 1];
    assert t[1] == body[0];
    assert t[1..n] == body && t[n + 1..] == p;
    hide Tokens, ClassToken;
    TokensUnfold(t);
  }

  /** A class matches one character, in front of any pattern: one it lists, or with an exclamation
      mark one it does not list. */
  lemma ClassFits(negated: bool, items: seq<Item>, p: string, s: string)
    requires items != [] && PlainItems(items)
    ensures Fits("[" + ((if negated then "!" else "") + SpellItems(items)) + "]" + p, s) <==>
            s != "" && Listed(s[0], items) != negated && Fits(p, s[1..])
  {
    hide InLanguage, Tokens, SpellItems, Items, Listed, InItems;
    var t := SpellItems(items);
    var body := (if negated then "!" else "") + t;
    ItemsSpelled(items);
    ClassFirst(body, p, s);
    assert negated ==> body[1..] == t;
    assert !negated ==> body == t;
    assert ClassToken(body) == Class(negated, items);
    CharFirst(ClassToken(body), Tokens(p), s);
    if s != "" {
      ListedExactly(s[0], items);
    }
  }

  /** A closing bracket or a dash that comes first in a class is one of its characters. */
  lemma FirstSignFits(c: char, items: seq<Item>, p: string, s: string)
    requires (c == ']' || c == '-') && PlainItems(items)
    ensures Fits("[" + ([c] + SpellItems(items)) + "]" + p, s) <==>
            s != "" && (s[0] == c || Listed(s[0], items)) && Fits(p, s[1..])
  {
    hide InLanguage, Tokens, SpellItems, Items, Listed, InItems;
    var t := SpellItems(items);
    ItemsSpelled(items);
    ClassFirst([c] + t, p, s);
    assert ([c] + t)[1..] == t;
    assert ClassToken([c] + t) == Class(false, [One(c)] + items);
    CharFirst(ClassToken([c] + t), Tokens(p), s);
    if s != "" {
      ListedExactly(s[0], items);
      InItemsCons(s[0], One(c), items);
    }
  }

  /** An exclamation mark alone lists nothing, so any character matches. */
  lemma NothingExcluded(p: string, s: string)
    ensures Fits("[" + "!" + "]" + p, s) <==> s != "" && Fits(p, s[1..])
  {
    hide InLanguage, Tokens;
    ClassFirst("!", p, s);
    assert "!"[1..] == "";
    CharFirst(ClassToken("!"), Tokens(p), s);
    if s != "" {
      NoItems(s[0]);
    }
  }

  /** A bracket that nothing closes matches itself. */
  lemma OpenBracketFits(p: string, s: string)
    requires forall i :: (if p != "" && p[0] == ']' then 1 else 0) <= i < |p| ==> p[i] != ']'
    ensures Fits("[" + p, s) <==> s != "" && s[0] == '[' && Fits(p, s[1..])
  {
    hide InLanguage, Tokens;
    var t := "[" + p;
    TokensUnfold(t);
    assert t[1..] == p && forall k :: 2 <= k < |t| ==> t[k] == p[k - 1];
    assert |t| > 1 ==> t[1] == p[0];
    CharFirst(Lit('['), Tokens(p), s);
    LitAccepts('[', s);
  }

  /** A range, a list and an excluded character alone. */
  lemma ClassesAlone(x: char, y: char, s: string)
    requires PlainItem(One(x)) && PlainItem(One(y))
    ensures Fits("[" + [x, '-', y] + "]", s) <==> |s| == 1 && x <= s[0] <= y
    ensures Fits("[" + [x, y] + "]", s) <==> |s| == 1 && (s[0] == x || s[0] == y)
    ensures Fits("[" + ['!', x] + "]", s) <==> |s| == 1 && s[0] != x
  {
    hide InLanguage, Tokens;
    OneItem(Span(x, y));
    OneItem(One(x));
    TwoItems(x, y);
    ClassFits(false, [Span(x, y)], "", s);
    ClassFits(false, [One(x), One(y)], "", s);
    ClassFits(true, [One(x)], "", s);
    assert "!" + [x] == ['!', x];
    assert "[" + ("" + [x, '-', y]) + "]" + "" == "[" + [x, '-', y] + "]";
    assert "[" + ("" + [x, y]) + "]" + "" == "[" + [x, y] + "]";
    assert "[" + ['!', x] + "]" + "" == "[" + ['!', x] + "]";
    if s != "" {
      EmptyFits(s[1..]);
      ListedThere(s[0], x, y);
    }
  }

  lemma OneItem(item: Item)
    ensures SpellItems([item]) == SpellItem(item)
  {
    assert [item][1..] == [];
  }

  lemma TwoItems(x: char, y: char)
    ensures SpellItems([One(x), One(y)]) == [x, y]
  {
    assert [One(x), One(y)][1..] == [One(y)];
    OneItem(One(y));
  }

  lemma ListedThere(c: char, x: char, y: char)
    ensures Listed(c, [Span(x, y)]) <==> x <= c <= y
    ensures Listed(c, [One(x), One(y)]) <==> c == x || c == y
    ensures Listed(c, [One(x)]) <==> c == x
  {
    assert [Span(x, y)][0] == Span(x, y) && [One(x)][0] == One(x);
    assert [One(x), One(y)][0] == One(x) && [One(x), One(y)][1] == One(y);
  }

  /** A dash that comes last in a class is one of its characters. */
  lemma LastDashFits(x: char, p: string, s: string)
    requires PlainItem(One(x))
    ensures Fits("[" + [x, '-'] + "]" + p, s) <==> s != "" && (s[0] == x || s[0] == '-') && Fits(p, s[1..])
  {
    hide InLanguage, Tokens;
    ClassFirst([x, '-'], p, s);
    assert [x, '-'][1..] == "-" && "-"[1..] == "";
    assert Items("-") == [One('-')] && Items([x, '-']) == [One(x)] + [One('-')];
    assert ClassToken([x, '-']) == Class(false, [One(x), One('-')]);
    CharFirst(ClassToken([x, '-']), Tokens(p), s);
    if s != "" {
      ListedExactly(s[0], [One(x), One('-')]);
      ListedThere(s[0], x, '-');
    }
  }
}
