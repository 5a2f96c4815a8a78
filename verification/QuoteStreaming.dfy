/** Streaming: normalizing a longer text extends what was already emitted, except at two kinds
    of cut, which are characterized exactly. */
module QuoteStreaming {
  import opened Wrappers
  import opened QuoteNormalizer

  /** The cut falls between a backslash and the single quote it escapes in a single-quoted
      string: the backslash is emitted first and withdrawn later. */
  predicate CutsEscapedQuote(mode: Mode, s: string, k: nat)
    requires k < |s|
  {
    mode == Single && k == 1 && s[0] == '\\' && s[1] == '\''
  }

  /** The cut falls inside a bare word whose part so far could still become a Python keyword
      although the whole word is not one: it is emitted in lower case first. */
  predicate CutsKeyword(mode: Mode, prevWord: bool, s: string, k: nat)
    requires 0 < k < |s|
  {
    mode == Outside && !prevWord && StartsLiteral(s[0]) && k < WordLen(s) &&
    Translate(s[..k]).Some? && Translate(s[..WordLen(s)]).None?
  }

  /** Whether cutting the text still to be read after `k` characters is harmless. */
  predicate SafeCut(mode: Mode, prevWord: bool, s: string, k: nat)
    requires k <= |s|
    decreases k
  {
    k == 0 || k == |s| ||
    (!CutsEscapedQuote(mode, s, k) && !CutsKeyword(mode, prevWord, s, k) &&
     var m := Step(mode, prevWord, s);
     k <= m.eaten || SafeCut(m.mode, IsWordChar(s[m.eaten - 1]), s[m.eaten..], k - m.eaten))
  }

  lemma WordLenCut(s: string, k: nat)
    requires k <= |s|
    ensures WordLen(s[..k]) == if WordLen(s) <= k then WordLen(s) else k
  {
    var n, m := WordLen(s), WordLen(s[..k]);
    if m < k { assert s[..k][m] == s[m]; }
    if n < k { assert s[..k][n] == s[n]; }
  }

  /** A round that ends before the cut, and is not misled by it, is the same round. */
  lemma SameRound(mode: Mode, prevWord: bool, s: string, k: nat)
    requires 0 < k < |s| && Step(mode, prevWord, s).eaten <= k
    requires !CutsKeyword(mode, prevWord, s, k)
    ensures Step(mode, prevWord, s[..k]) == Step(mode, prevWord, s)
  {
    WordLenCut(s, k);
    var n := WordLen(s);
    assert s[..k][0] == s[0];
    if k > 1 { assert s[..k][1] == s[1]; }
    if n <= k { assert s[..k][..n] == s[..n]; } else { assert s[..k][..k] == s[..k]; }
  }

  /** A round the cut interrupts: the output for the part read so far starts the output for
      the whole, unless an escaped quote was split. */
  lemma InterruptedRound(mode: Mode, prevWord: bool, s: string, k: nat)
    requires 0 < k < |s| && k < Step(mode, prevWord, s).eaten
    ensures var m, p := Step(mode, prevWord, s), Step(mode, prevWord, s[..k]);
            && p.eaten == k
            && (CutsEscapedQuote(mode, s, k) ==> m.out != "" && p.out != "" && m.out[0] != p.out[0])
            && (!CutsEscapedQuote(mode, s, k) ==> p.out <= m.out)
  {
    assert s[..k][0] == s[0];
    if s[0] != '\\' {
      InterruptedKeyword(mode, prevWord, s, k);
    }
  }

  lemma InterruptedKeyword(mode: Mode, prevWord: bool, s: string, k: nat)
    requires 0 < k < |s| && s[0] != '\\' && k < Step(mode, prevWord, s).eaten
    ensures var m, p := Step(mode, prevWord, s), Step(mode, prevWord, s[..k]);
            p.eaten == k && p.out <= m.out
  {
    var n := WordLen(s);
    assert s[..k][0] == s[0];
    WordLenCut(s, k);
    assert s[..k][..k] == s[..n][..k];
    TranslatePrefix(s[..n], k);
    hide Translate;
  }

  lemma TranslatePrefix(t: string, k: nat)
    requires 0 < k <= |t| && Translate(t).Some?
    ensures |Translate(t).value| == |t| && Translate(t[..k]) == Some(Translate(t).value[..k])
  {
    assert t[..k][0] == t[0];
    var (py, js) :=
      if t <= "True" then ("True", "true") else if t <= "False" then ("False", "false") else ("None", "null");
    assert t[0] == py[0];
    assert js[..|t|][..k] == js[..k];
    assert t[..k] <= py;
  }

  /** A cut inside a word that only looks like a keyword changes its first letter. */
  lemma MisledRound(mode: Mode, prevWord: bool, s: string, k: nat)
    requires 0 < k < |s| && CutsKeyword(mode, prevWord, s, k)
    ensures var m, p := Step(mode, prevWord, s), Step(mode, prevWord, s[..k]);
            m.out != "" && p.out != "" && m.out[0] != p.out[0]
  {
    WordLenCut(s, k);
    assert s[..k][..k] == s[..k];
    assert s[..k][0] == s[0];
  }

  /** Neither output is a prefix of the other. */
  predicate Apart(a: string, b: string) {
    !(a <= b) && !(b <= a)
  }

  lemma {:induction false} CutScan(mode: Mode, prevWord: bool, s: string, k: nat)
    requires k <= |s|
    ensures var part, whole := Norm(mode, prevWord, s[..k]), Norm(mode, prevWord, s);
            if SafeCut(mode, prevWord, s, k) then part <= whole else Apart(part, whole)
    decreases k
  {
    hide Norm, Step, CutsEscapedQuote, CutsKeyword, SafeCut;
    if k == 0 || k == |s| {
      NothingCut(mode, prevWord, s, k);
    } else if CutsKeyword(mode, prevWord, s, k) {
      MisledCut(mode, prevWord, s, k);
    } else {
      var m := Step(mode, prevWord, s);
      if m.eaten <= k {
        var after := IsWordChar(s[m.eaten - 1]);
        PassedRound(mode, prevWord, s, k);
        CutScan(m.mode, after, s[m.eaten..], k - m.eaten);
        var part, whole := Norm(m.mode, after, s[m.eaten..][..k - m.eaten]), Norm(m.mode, after, s[m.eaten..]);
        PrefixAppend(m.out, part, whole);
        PrefixAppend(m.out, whole, part);
      } else {
        InterruptedCut(mode, prevWord, s, k);
      }
    }
  }

  lemma NothingCut(mode: Mode, prevWord: bool, s: string, k: nat)
    requires k == 0 || k == |s|
    ensures SafeCut(mode, prevWord, s, k) && Norm(mode, prevWord, s[..k]) <= Norm(mode, prevWord, s)
  {
    hide Norm;
    NormEnds(mode, prevWord);
    assert k == |s| ==> s[..k] == s;
    assert k == 0 ==> s[..k] == "";
  }

  lemma MisledCut(mode: Mode, prevWord: bool, s: string, k: nat)
    requires 0 < k < |s| && CutsKeyword(mode, prevWord, s, k)
    ensures !SafeCut(mode, prevWord, s, k)
    ensures Apart(Norm(mode, prevWord, s[..k]), Norm(mode, prevWord, s))
  {
    MisledRound(mode, prevWord, s, k);
    hide Norm, Step, CutsEscapedQuote, CutsKeyword;
    NormUnfolds(mode, prevWord, s);
    NormUnfolds(mode, prevWord, s[..k]);
    var m, p := Step(mode, prevWord, s), Step(mode, prevWord, s[..k]);
    DifferentHeads(p.out, Norm(p.mode, IsWordChar(s[..k][p.eaten - 1]), s[..k][p.eaten..]),
                   m.out, Norm(m.mode, IsWordChar(s[m.eaten - 1]), s[m.eaten..]));
  }

  /** A round in front of the cut. */
  lemma PassedRound(mode: Mode, prevWord: bool, s: string, k: nat)
    requires 0 < k < |s| && Step(mode, prevWord, s).eaten <= k && !CutsKeyword(mode, prevWord, s, k)
    ensures var m := Step(mode, prevWord, s);
            var after, rest, n := IsWordChar(s[m.eaten - 1]), s[m.eaten..], k - m.eaten;
            && Norm(mode, prevWord, s) == m.out + Norm(m.mode, after, rest)
            && Norm(mode, prevWord, s[..k]) == m.out + Norm(m.mode, after, rest[..n])
            && (SafeCut(mode, prevWord, s, k) <==> SafeCut(m.mode, after, rest, n))
  {
    hide Norm, Step, CutsEscapedQuote, CutsKeyword;
    NormUnfolds(mode, prevWord, s);
    NormUnfolds(mode, prevWord, s[..k]);
    SameRound(mode, prevWord, s, k);
    NoSplitQuote(mode, prevWord, s, k);
    CutTail(s, k, Step(mode, prevWord, s).eaten);
  }

  lemma InterruptedCut(mode: Mode, prevWord: bool, s: string, k: nat)
    requires 0 < k < |s| && k < Step(mode, prevWord, s).eaten && !CutsKeyword(mode, prevWord, s, k)
    ensures SafeCut(mode, prevWord, s, k) <==> !CutsEscapedQuote(mode, s, k)
    ensures var part, whole := Norm(mode, prevWord, s[..k]), Norm(mode, prevWord, s);
            if CutsEscapedQuote(mode, s, k) then Apart(part, whole) else part <= whole
  {
    hide Norm, Step, CutsEscapedQuote, CutsKeyword;
    NormUnfolds(mode, prevWord, s);
    InterruptedRound(mode, prevWord, s, k);
    LastRound(mode, prevWord, s[..k]);
    var m, p := Step(mode, prevWord, s), Step(mode, prevWord, s[..k]);
    var tail := Norm(m.mode, IsWordChar(s[m.eaten - 1]), s[m.eaten..]);
    if CutsEscapedQuote(mode, s, k) {
      DifferentHeads(p.out, "", m.out, tail);
      assert p.out + "" == p.out;
    } else {
      PrefixGrows(p.out, m.out, tail);
    }
  }

  lemma CutTail(s: string, k: nat, n: nat)
    requires 1 <= n <= k <= |s|
    ensures s[..k][n..] == s[n..][..k - n] && s[..k][n - 1] == s[n - 1]
  {
  }

  lemma DifferentHeads(a: string, x: string, b: string, y: string)
    requires a != "" && b != "" && a[0] != b[0]
    ensures Apart(a + x, b + y)
  {
    assert (a + x)[0] == a[0] && (b + y)[0] == b[0];
  }

  lemma PrefixGrows(a: string, b: string, y: string)
    requires a <= b
    ensures a <= b + y
  {
  }

  lemma LastRound(mode: Mode, prevWord: bool, s: string)
    requires s != "" && Step(mode, prevWord, s).eaten == |s|
    ensures Norm(mode, prevWord, s) == Step(mode, prevWord, s).out
  {
    hide Step, Norm;
    NormUnfolds(mode, prevWord, s);
    var m := Step(mode, prevWord, s);
    NormEnds(m.mode, IsWordChar(s[|s| - 1]));
    assert s[|s|..] == "";
    assert m.out + "" == m.out;
  }

  lemma NoSplitQuote(mode: Mode, prevWord: bool, s: string, k: nat)
    requires 0 < k < |s| && Step(mode, prevWord, s).eaten <= k
    ensures !CutsEscapedQuote(mode, s, k)
  {
  }

  lemma PrefixAppend(a: string, b: string, c: string)
    ensures a + b <= a + c <==> b <= c
  {
    if a + b <= a + c {
      assert b == (a + b)[|a|..] && (a + c)[|a|..] == c;
      assert (a + c)[..|a| + |b|] == a + b;
      assert c[..|b|] == (a + c)[|a|..|a| + |b|];
    }
  }

  /** Streaming monotonicity, with its exact condition: after any cut the text emitted for the
      part read so far is a prefix of the text emitted for the whole exactly when the cut
      splits neither an escaped single quote nor a bare word that only starts like a keyword. */
  lemma MonotoneExactly(s: string, k: nat)
    requires k <= |s|
    ensures Normalize(s[..k]) <= Normalize(s) <==> SafeCut(Outside, false, s, k)
  {
    CutScan(Outside, false, s, k);
  }

  /** Behind an unsafe cut neither text is a prefix of the other. */
  lemma ComparableExactly(s: string, k: nat)
    requires k <= |s|
    ensures Normalize(s[..k]) <= Normalize(s) || Normalize(s) <= Normalize(s[..k])
       <==> SafeCut(Outside, false, s, k)
  {
    CutScan(Outside, false, s, k);
  }

  /** A safe cut is safe in every longer part of the text that ends in a safe cut, too. */
  lemma {:induction false} SafeCutWithin(mode: Mode, prevWord: bool, s: string, k: nat, n: nat)
    requires k <= n <= |s| && SafeCut(mode, prevWord, s, k) && SafeCut(mode, prevWord, s, n)
    ensures SafeCut(mode, prevWord, s[..n], k)
    decreases k
  {
    hide Norm, Step, CutsEscapedQuote, CutsKeyword, SafeCut;
    if n == |s| {
      assert s[..n] == s;
    } else if k == 0 || k == n {
      NothingCut(mode, prevWord, s[..n], k);
    } else {
      var m := Step(mode, prevWord, s);
      SafeMeans(mode, prevWord, s, k);
      SafeMeans(mode, prevWord, s, n);
      if m.eaten <= k {
        var rest, after := s[m.eaten..], IsWordChar(s[m.eaten - 1]);
        PassedRound(mode, prevWord, s, k);
        PassedRound(mode, prevWord, s, n);
        SafeCutWithin(m.mode, after, rest, k - m.eaten, n - m.eaten);
        SameRound(mode, prevWord, s, n);
        LaterCut(mode, prevWord, s, k, n);
        CutTail(s, n, m.eaten);
        PassedRound(mode, prevWord, s[..n], k);
      } else {
        InnerCut(mode, prevWord, s, k, n);
      }
    }
  }

  lemma SafeMeans(mode: Mode, prevWord: bool, s: string, k: nat)
    requires 0 < k < |s| && SafeCut(mode, prevWord, s, k)
    ensures !CutsEscapedQuote(mode, s, k) && !CutsKeyword(mode, prevWord, s, k)
  {
    hide Step, CutsEscapedQuote, CutsKeyword;
  }

  lemma LaterCut(mode: Mode, prevWord: bool, s: string, k: nat, n: nat)
    requires 0 < k < n < |s| && Step(mode, prevWord, s).eaten <= k
    requires !CutsKeyword(mode, prevWord, s, k)
    ensures !CutsEscapedQuote(mode, s[..n], k) && !CutsKeyword(mode, prevWord, s[..n], k)
  {
    var t := s[..n];
    WordLenCut(s, n);
    assert t[0] == s[0] && t[1] == s[1] && t[..k] == s[..k];
    NoSplitQuote(mode, prevWord, s, k);
    hide Translate;
  }

  lemma InnerCut(mode: Mode, prevWord: bool, s: string, k: nat, n: nat)
    requires 0 < k < n < |s| && k < Step(mode, prevWord, s).eaten && !CutsEscapedQuote(mode, s, k)
    ensures SafeCut(mode, prevWord, s[..n], k)
  {
    var t := s[..n];
    WordLenCut(s, n);
    assert t[0] == s[0] && t[1] == s[1];
    if s[0] != '\\' {
      var w := WordLen(s);
      var v := if w <= n then w else n;
      assert t[..v] == s[..w][..v];
      TranslatePrefix(s[..w], v);
      hide Translate;
    }
  }

  /** The two reported inputs: a word that looks like a keyword at first, and an escaped quote. */
  lemma WithdrawnOutput()
    ensures Normalize("Tr") == "tr" && Normalize("Trust") == "Trust" && !SafeCut(Outside, false, "Trust", 2)
    ensures Normalize("'\\") == "\"\\" && Normalize("'\\''") == "\"'\"" && !SafeCut(Outside, false, "'\\''", 2)
  {
    TrustWithdrawn();
    QuoteWithdrawn();
  }

  lemma TrustWithdrawn()
    ensures Normalize("Tr") == "tr" && Normalize("Trust") == "Trust" && !SafeCut(Outside, false, "Trust", 2)
  {
    hide Norm;
    WordIs("Tr");
    WordIs("Trust");
    assert "Tr"[..2] == "Tr" && "Trust"[..5] == "Trust" && "Trust"[..2] == "Tr" && "true"[..2] == "tr";
    assert "Trust"[3] != "True"[3];
    LastRound(Outside, false, "Tr");
    NormUnfolds(Outside, false, "Trust");
    assert "Trust"[1..] == "rust";
    WordRest("rust");
    assert "T" + "rust" == "Trust";
  }

  lemma {:induction false} WordIs(s: string)
    requires forall i :: 0 <= i < |s| ==> IsWordChar(s[i])
    ensures WordLen(s) == |s|
  {
  }

  /** Behind a word character, word characters are copied. */
  lemma {:induction false} WordRest(s: string)
    requires forall i :: 0 <= i < |s| ==> IsWordChar(s[i])
    ensures Norm(Outside, true, s) == s
    decreases |s|
  {
    if s != "" {
      WordRest(s[1..]);
    }
  }

  lemma QuoteWithdrawn()
    ensures Normalize("'\\") == "\"\\" && Normalize("'\\''") == "\"'\"" && !SafeCut(Outside, false, "'\\''", 2)
  {
    hide Norm;
    var cut, whole := "'\\", "'\\''";
    NormUnfolds(Outside, false, cut);
    assert cut[1..] == "\\";
    LastRound(Single, false, "\\");
    NormUnfolds(Outside, false, whole);
    assert whole[1..] == "\\''";
    NormUnfolds(Single, false, "\\''");
    assert "\\''"[2..] == "'";
    LastRound(Single, false, "'");
    assert CutsEscapedQuote(Single, "\\''", 1);
  }

  /** Every bare word that starts like a Python keyword is one, or the start of one. */
  predicate KeywordsOnly(mode: Mode, prevWord: bool, s: string)
    decreases |s|
  {
    s == "" ||
    ((mode == Outside && !prevWord && StartsLiteral(s[0]) ==> Translate(s[..WordLen(s)]).Some?) &&
     var m := Step(mode, prevWord, s);
     KeywordsOnly(m.mode, IsWordChar(s[m.eaten - 1]), s[m.eaten..]))
  }

  /** The text still to be read has a single-quoted string in which the cut separates a
      backslash from the single quote it escapes. */
  predicate SplitsEscapedQuote(mode: Mode, prevWord: bool, s: string, k: nat)
    requires k <= |s|
    decreases k
  {
    0 < k < |s| &&
    (CutsEscapedQuote(mode, s, k) ||
     (var m := Step(mode, prevWord, s);
      m.eaten < k && SplitsEscapedQuote(m.mode, IsWordChar(s[m.eaten - 1]), s[m.eaten..], k - m.eaten)))
  }

  lemma {:induction false} KeywordCutsAreSafe(mode: Mode, prevWord: bool, s: string, k: nat)
    requires k <= |s| && KeywordsOnly(mode, prevWord, s)
    ensures SafeCut(mode, prevWord, s, k) <==> !SplitsEscapedQuote(mode, prevWord, s, k)
    decreases k
  {
    hide Step;
    if 0 < k < |s| {
      var m := Step(mode, prevWord, s);
      if m.eaten < k {
        KeywordCutsAreSafe(m.mode, IsWordChar(s[m.eaten - 1]), s[m.eaten..], k - m.eaten);
      }
    }
  }

  /** For texts whose capitalized bare words are keywords, only a split `\'` withdraws output. */
  lemma KeywordTextsStream(s: string, k: nat)
    requires k <= |s| && KeywordsOnly(Outside, false, s)
    ensures Normalize(s[..k]) <= Normalize(s) <==> !SplitsEscapedQuote(Outside, false, s, k)
  {
    MonotoneExactly(s, k);
    KeywordCutsAreSafe(Outside, false, s, k);
  }
}
