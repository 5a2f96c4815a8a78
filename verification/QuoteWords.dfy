/** Bare words: which characters make up a word, which words are copied and which translated. */
module QuoteWords {
  import opened QuoteNormalizer
  import opened QuoteMeaning

  /** A letter, a digit or an underscore. */
  predicate Joins(c: char) {
    'A' <= c <= 'Z' || 'a' <= c <= 'z' || '0' <= c <= '9' || c == '_'
  }

  predicate NoQuotes(s: string) {
    forall i :: 0 <= i < |s| ==> s[i] != '\'' && s[i] != '"'
  }

  /** `w` is a whole word between `a` and `b`, and no string literal is open in front of it. */
  predicate WholeWord(a: string, w: string, b: string) {
    && NoQuotes(a) && w != "" && (forall i :: 0 <= i < |w| ==> Joins(w[i]))
    && (a != "" ==> !Joins(a[|a| - 1])) && (b != "" ==> !Joins(b[0]))
  }

  lemma {:induction false} WordLenIs(w: string, b: string)
    requires (forall i :: 0 <= i < |w| ==> Joins(w[i])) && (b != "" ==> !Joins(b[0]))
    ensures WordLen(w + b) == |w|
    decreases |w|
  {
    if w == "" {
      assert w + b == b;
    } else {
      assert (w + b)[1..] == w[1..] + b;
      WordLenIs(w[1..], b);
    }
  }

  /** In front of text that starts no word it does not matter what stands before. */
  lemma NotInWord(b: string)
    requires b != "" ==> !Joins(b[0])
    ensures Norm(Outside, true, b) == Normalize(b)
  {
    hide Norm, Step;
    if b != "" {
      AnyStep(b);
      NormUnfolds(Outside, true, b);
      NormUnfolds(Outside, false, b);
    } else {
      NormEnds(Outside, true);
      NormEnds(Outside, false);
    }
  }

  lemma AnyStep(b: string)
    requires b != "" && !Joins(b[0])
    ensures Step(Outside, true, b) == Step(Outside, false, b)
  {
  }

  /** A word inside a text that ends with another character ends inside it. */
  lemma {:induction false} WordLenWithin(a: string, t: string)
    requires a != "" && !Joins(a[|a| - 1])
    ensures WordLen(a + t) == WordLen(a) < |a|
    decreases |a|
  {
    if IsWordChar(a[0]) {
      assert (a + t)[1..] == a[1..] + t;
      WordLenWithin(a[1..], t);
    }
  }

  /** Text without quotes, ending with a character that is in no word, is rewritten on its own. */
  lemma {:induction false} FrontAlone(prevWord: bool, a: string, t: string)
    requires NoQuotes(a) && (if a == "" then !prevWord else !Joins(a[|a| - 1]))
    ensures Norm(Outside, prevWord, a + t) == Norm(Outside, prevWord, a) + Norm(Outside, false, t)
    decreases |a|
  {
    hide Norm, Step;
    if a == "" {
      NormEnds(Outside, prevWord);
      assert a + t == t;
    } else {
      var s := a + t;
      WordLenWithin(a, t);
      SameStep(prevWord, a, t);
      var m := Step(Outside, prevWord, a);
      NormUnfolds(Outside, prevWord, s);
      NormUnfolds(Outside, prevWord, a);
      assert s[m.eaten..] == a[m.eaten..] + t && s[m.eaten - 1] == a[m.eaten - 1];
      FrontAlone(IsWordChar(a[m.eaten - 1]), a[m.eaten..], t);
      Grouped(m.out, Norm(Outside, IsWordChar(a[m.eaten - 1]), a[m.eaten..]), Norm(Outside, false, t));
    }
  }

  lemma Grouped(x: string, y: string, z: string)
    ensures x + (y + z) == x + y + z
  {
  }

  lemma SameStep(prevWord: bool, a: string, t: string)
    requires a != "" && a[0] != '\'' && a[0] != '"' && WordLen(a + t) == WordLen(a)
    ensures Step(Outside, prevWord, a + t) == Step(Outside, prevWord, a)
    ensures Step(Outside, prevWord, a).mode == Outside
  {
    var n := WordLen(a);
    assert (a + t)[0] == a[0] && (a + t)[..n] == a[..n];
  }

  lemma {:induction false} InsideCopied(w: string, b: string)
    requires (forall i :: 0 <= i < |w| ==> Joins(w[i])) && (b != "" ==> !Joins(b[0]))
    ensures Norm(Outside, true, w + b) == w + Normalize(b)
    decreases |w|
  {
    hide Norm;
    if w == "" {
      assert w + b == b;
      NotInWord(b);
    } else {
      var s := w + b;
      NormUnfolds(Outside, true, s);
      assert s[0] == w[0] && s[1..] == w[1..] + b;
      InsideCopied(w[1..], b);
      assert [w[0]] + (w[1..] + Normalize(b)) == w + Normalize(b);
    }
  }

  /** A beginning of a Python keyword becomes as much of its JSON spelling; other words stay. */
  function WordText(w: string): string {
    if w <= "True" then "true"[..|w|]
    else if w <= "False" then "false"[..|w|]
    else if w <= "None" then "null"[..|w|]
    else w
  }

  lemma KeywordStep(w: string, b: string)
    requires w != "" && (forall i :: 0 <= i < |w| ==> Joins(w[i])) && (b != "" ==> !Joins(b[0]))
    requires w <= "True" || w <= "False" || w <= "None"
    ensures Step(Outside, false, w + b) == Move(WordText(w), |w|, Outside)
  {
    WordLenIs(w, b);
    assert (w + b)[..|w|] == w && (w + b)[0] == w[0];
  }

  lemma OtherStep(w: string, b: string)
    requires w != "" && (forall i :: 0 <= i < |w| ==> Joins(w[i])) && (b != "" ==> !Joins(b[0]))
    requires !(w <= "True") && !(w <= "False") && !(w <= "None")
    ensures Step(Outside, false, w + b) == Move([w[0]], 1, Outside)
  {
    WordLenIs(w, b);
    assert (w + b)[..|w|] == w && (w + b)[0] == w[0];
  }

  lemma WordHere(w: string, b: string)
    requires w != "" && (forall i :: 0 <= i < |w| ==> Joins(w[i])) && (b != "" ==> !Joins(b[0]))
    ensures Norm(Outside, false, w + b) == WordText(w) + Normalize(b)
  {
    hide Norm, Step;
    var s := w + b;
    NormUnfolds(Outside, false, s);
    if w <= "True" || w <= "False" || w <= "None" {
      KeywordStep(w, b);
      assert s[|w|..] == b && s[|w| - 1] == w[|w| - 1];
      NotInWord(b);
    } else {
      OtherStep(w, b);
      assert s[0] == w[0] && s[1..] == w[1..] + b;
      InsideCopied(w[1..], b);
      FirstAndRest(w, Normalize(b));
    }
  }

  lemma FirstAndRest(w: string, b: string)
    requires w != ""
    ensures [w[0]] + (w[1..] + b) == w + b
  {
  }

  /** A whole word outside literals is rewritten on its own, whatever other character stands in
      front of it and whatever follows. */
  lemma WordRewritten(a: string, w: string, b: string)
    requires WholeWord(a, w, b)
    ensures Normalize(a + w + b) == Normalize(a) + WordText(w) + Normalize(b)
  {
    hide Norm, WordText;
    assert a + w + b == a + (w + b);
    FrontAlone(false, a, w + b);
    WordHere(w, b);
    Grouped(Normalize(a), WordText(w), Normalize(b));
  }

  /** So is a whole word right behind a literal. */
  lemma WordBehindLiteral(l: Literal, w: string, b: string)
    requires WellSpelled(l.quote, l.body) && WholeWord("", w, b)
    ensures Normalize(LiteralText(Python, l) + (w + b)) == LiteralText(Json, l) + (WordText(w) + Normalize(b))
  {
    hide Norm, WordText, LiteralText;
    LiteralRewritten(Python, false, l, w + b);
    NotInLiteral(l);
    WordHere(w, b);
  }

  lemma NotInLiteral(l: Literal)
    ensures !Behind(false, LiteralText(Python, l))
  {
  }
}
