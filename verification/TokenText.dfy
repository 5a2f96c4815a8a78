/** How the handed-out text relates to UTF-8 proper (section 4 of RFC 3629): the check of the
    token cache looks at lead and continuation bytes only. */
module TokenText {
  import opened Bytes
  import opened Sequences
  import opened TokenCache
  import opened TokenRuns
  import Utf8

  /** A Unicode scalar value: no surrogate. */
  predicate Scalar(cp: Utf8.CodePoint) {
    cp <= Utf8.MAX_CODE_POINT && !(0xD800 <= cp <= 0xDFFF)
  }

  predicate Scalars(text: Utf8.Text) {
    forall i :: 0 <= i < |text| ==> Scalar(text[i])
  }

  ghost predicate WellFormed(s: seq<Byte>) {
    exists text :: Scalars(text) && s == Utf8.Encode(text)
  }

  /** More bytes than the code point needs. */
  predicate Overlong(g: seq<Byte>) {
    (|g| == 2 && g[0] < 0xC2) || (|g| == 3 && g[0] == 0xE0 && g[1] < 0xA0) || (|g| == 4 && g[0] == 0xF0 && g[1] < 0x90)
  }

  predicate Surrogate(g: seq<Byte>) {
    |g| == 3 && g[0] == 0xED && g[1] >= 0xA0
  }

  /** Beyond 0x10FFFF. */
  predicate TooLarge(g: seq<Byte>) {
    |g| == 4 && (g[0] > 0xF4 || (g[0] == 0xF4 && g[1] >= 0x90))
  }

  predicate Proper(g: seq<Byte>) {
    !Overlong(g) && !Surrogate(g) && !TooLarge(g)
  }

  /** No group of the text is overlong, a surrogate or too large. */
  predicate AllProper(s: seq<Byte>)
    requires Valid(s)
    decreases |s|
  {
    s == [] || (var n := LeadLength(s[0]); Proper(s[..n]) && AllProper(s[n..]))
  }

  // ---- One group --------------------------------------------------------------------

  lemma EncodedGroup(cp: Utf8.CodePoint)
    requires Scalar(cp)
    ensures var g := Utf8.AppendUtf8(cp);
            g != [] && |g| == LeadLength(g[0]) && Sequence(g, |g|) && Proper(g)
  {
    hide Utf8.Head2, Utf8.Head3, Utf8.Head4, Utf8.Tail0, Utf8.Tail6, Utf8.Tail12;
    if cp <= 0x7F {
      Group1(cp);
    } else if cp <= 0x7FF {
      Group2(cp);
    } else if cp <= 0xFFFF {
      Group3(cp);
    } else {
      Group4(cp);
    }
  }

  lemma Group1(cp: Utf8.CodePoint)
    requires cp <= 0x7F
    ensures LeadLength(cp as Byte) == 1
  {
  }

  lemma Group2(cp: Utf8.CodePoint)
    requires 0x7F < cp <= 0x7FF
    ensures LeadLength(Utf8.Head2(cp)) == 2 && Utf8.Head2(cp) >= 0xC2 && IsTail(Utf8.Tail0(cp))
  {
  }

  lemma Group3(cp: Utf8.CodePoint)
    requires 0x7FF < cp <= 0xFFFF && Scalar(cp)
    ensures LeadLength(Utf8.Head3(cp)) == 3 && IsTail(Utf8.Tail6(cp)) && IsTail(Utf8.Tail0(cp))
    ensures Utf8.Head3(cp) == 0xE0 ==> Utf8.Tail6(cp) >= 0xA0
    ensures Utf8.Head3(cp) == 0xED ==> Utf8.Tail6(cp) < 0xA0
  {
  }

  lemma Group4(cp: Utf8.CodePoint)
    requires 0xFFFF < cp <= Utf8.MAX_CODE_POINT
    ensures LeadLength(Utf8.Head4(cp)) == 4
    ensures IsTail(Utf8.Tail12(cp)) && IsTail(Utf8.Tail6(cp)) && IsTail(Utf8.Tail0(cp))
    ensures Utf8.Head4(cp) == 0xF0 ==> Utf8.Tail12(cp) >= 0x90
    ensures Utf8.Head4(cp) <= 0xF4 && (Utf8.Head4(cp) == 0xF4 ==> Utf8.Tail12(cp) < 0x90)
  {
  }

  /** The code point a group stands for. */
  function GroupCode(g: seq<Byte>): Utf8.CodePoint
    requires 1 <= |g| <= 4
  {
    if |g| == 1 then g[0] as Utf8.CodePoint
    else if |g| == 2 then Utf8.Join2(g[0], g[1])
    else if |g| == 3 then Utf8.Join3(g[0], g[1], g[2])
    else Utf8.Join4(g[0], g[1], g[2], g[3])
  }

  lemma ProperGroup(g: seq<Byte>)
    requires g != [] && Sequence(g, |g|) && Proper(g)
    ensures Scalar(GroupCode(g)) && Utf8.AppendUtf8(GroupCode(g)) == g
  {
    hide Utf8.Join2, Utf8.Join3, Utf8.Join4, Utf8.Head2, Utf8.Head3, Utf8.Head4, Utf8.Tail0, Utf8.Tail6, Utf8.Tail12;
    if |g| == 1 {
      Code1(g[0]);
    } else if |g| == 2 {
      Code2(g[0], g[1]);
    } else if |g| == 3 {
      Code3(g[0], g[1], g[2]);
    } else {
      Code4(g[0], g[1], g[2], g[3]);
    }
  }

  lemma Code1(a: Byte)
    requires a < 0x80
    ensures (a as Utf8.CodePoint) <= 0x7F && (a as Utf8.CodePoint) as Byte == a
  {
  }

  lemma Code2(a: Byte, b: Byte)
    requires a >> 5 == 0x6 && IsTail(b) && a >= 0xC2
    ensures var cp := Utf8.Join2(a, b);
            0x7F < cp <= 0x7FF && Utf8.Head2(cp) == a && Utf8.Tail0(cp) == b
  {
  }

  lemma Code3(a: Byte, b: Byte, c: Byte)
    requires a >> 4 == 0xE && IsTail(b) && IsTail(c)
    requires (a == 0xE0 ==> b >= 0xA0) && (a == 0xED ==> b < 0xA0)
    ensures var cp := Utf8.Join3(a, b, c);
            && 0x7FF < cp <= 0xFFFF && Scalar(cp)
            && Utf8.Head3(cp) == a && Utf8.Tail6(cp) == b && Utf8.Tail0(cp) == c
  {
  }

  lemma Code4(a: Byte, b: Byte, c: Byte, d: Byte)
    requires a >> 3 == 0x1E && IsTail(b) && IsTail(c) && IsTail(d)
    requires (a == 0xF0 ==> b >= 0x90) && a <= 0xF4 && (a == 0xF4 ==> b < 0x90)
    ensures var cp := Utf8.Join4(a, b, c, d);
            && 0xFFFF < cp <= Utf8.MAX_CODE_POINT
            && Utf8.Head4(cp) == a && Utf8.Tail12(cp) == b && Utf8.Tail6(cp) == c && Utf8.Tail0(cp) == d
  {
  }

  // ---- Whole texts ------------------------------------------------------------------

  lemma {:induction false} EncodedProper(text: Utf8.Text)
    requires Scalars(text)
    ensures Valid(Utf8.Encode(text)) && AllProper(Utf8.Encode(text))
    decreases |text|
  {
    hide Scalar, LeadLength, IsTail, Proper, Utf8.AppendUtf8;
    if text != [] {
      var g, rest := Utf8.AppendUtf8(text[0]), Utf8.Encode(text[1..]);
      EncodedGroup(text[0]);
      EncodedProper(text[1..]);
      GroupThen(g, rest);
    }
  }

  lemma GroupThen(g: seq<Byte>, rest: seq<Byte>)
    requires g != [] && Sequence(g, |g|) && Valid(rest)
    ensures Valid(g + rest) && (AllProper(g + rest) <==> Proper(g) && AllProper(rest))
  {
    hide LeadLength, IsTail, Proper;
    var s, n := g + rest, |g|;
    assert s[0] == g[0] && s[..n] == g && s[n..] == rest;
    assert forall k :: 1 <= k < n ==> s[k] == g[k];
  }

  lemma {:induction false} ProperDecodes(s: seq<Byte>) returns (text: Utf8.Text)
    requires Valid(s) && AllProper(s)
    ensures Scalars(text) && s == Utf8.Encode(text)
    decreases |s|
  {
    hide Scalar, LeadLength, IsTail, Proper, Utf8.AppendUtf8, GroupCode;
    if s == [] {
      text := [];
    } else {
      var n := LeadLength(s[0]);
      var g := s[..n];
      assert g[0] == s[0] && forall k :: 1 <= k < n ==> g[k] == s[k];
      ProperGroup(g);
      var rest := ProperDecodes(s[n..]);
      text := [GroupCode(g)] + rest;
      assert text[1..] == rest && s == g + s[n..];
    }
  }

  /** Bytes are UTF-8 exactly when `is_valid_utf8` accepts them and no group is overlong, a
      surrogate or beyond the last code point. */
  lemma WellFormedExactly(s: seq<Byte>)
    ensures WellFormed(s) <==> Valid(s) && AllProper(s)
  {
    hide Valid, AllProper, Scalars, Utf8.Encode;
    if WellFormed(s) {
      var text :| Scalars(text) && s == Utf8.Encode(text);
      EncodedProper(text);
    }
    if Valid(s) && AllProper(s) {
      var text := ProperDecodes(s);
    }
  }

  /** An overlong NUL, a surrogate and a code point that does not exist are accepted. */
  lemma AcceptedAnyway()
    ensures Valid([0xC0, 0x80]) && Valid([0xED, 0xA0, 0x80]) && Valid([0xF4, 0x90, 0x80, 0x80])
    ensures !WellFormed([0xC0, 0x80]) && !WellFormed([0xED, 0xA0, 0x80]) && !WellFormed([0xF4, 0x90, 0x80, 0x80])
  {
    hide WellFormed;
    OneGroup([0xC0, 0x80]);
    OneGroup([0xED, 0xA0, 0x80]);
    OneGroup([0xF4, 0x90, 0x80, 0x80]);
  }

  lemma OneGroup(g: seq<Byte>)
    requires g != [] && Sequence(g, |g|) && !Proper(g)
    ensures Valid(g) && !WellFormed(g)
  {
    hide LeadLength, IsTail, Proper, WellFormed;
    GroupThen(g, []);
    assert g + [] == g;
    WellFormedExactly(g);
  }

  /** The strings of a run that are UTF-8: all but those whose bytes, since the last complete
      text and up to the first NUL, hold an improper group. */
  lemma OutputWellFormedExactly(pieces: seq<seq<Byte>>, i: nat)
    requires i < |pieces|
    ensures var chunk := CString(Flatten(pieces[LastCut(pieces, i)..i + 1]));
            && (Valid(Flatten(pieces[..i + 1])) ==> Valid(chunk))
            && (WellFormed(After([], pieces).outs[i]) <==>
                (Valid(Flatten(pieces[..i + 1])) ==> AllProper(chunk)))
  {
    hide Valid, AllProper, CString, Flatten, WellFormed, LastCut;
    OutputExactly(pieces, i);
    var out := After([], pieces).outs[i];
    OnlyCompleteText([], pieces);
    assert Valid(out);
    WellFormedExactly(out);
    assert AllProper([]) by { NothingImproper(); }
  }

  lemma NothingImproper()
    ensures Valid([]) && AllProper([])
  {
  }

  /** A generation that is UTF-8 as a whole is handed out in UTF-8 strings only. */
  lemma WellFormedRun(pieces: seq<seq<Byte>>, i: nat)
    requires i < |pieces| && WellFormed(Flatten(pieces))
    ensures WellFormed(After([], pieces).outs[i])
  {
    hide Valid, AllProper, CString, Flatten, WellFormed, LastCut;
    OutputWellFormedExactly(pieces, i);
    if Valid(Flatten(pieces[..i + 1])) {
      var j := LastCut(pieces, i);
      FlattenNothing(pieces);
      ValidNothing();
      ProperBehind(Flatten(pieces[..i + 1]), pieces, i + 1);
      ProperMiddle(pieces, j, i + 1);
      ProperCString(Flatten(pieces[j..i + 1]));
    }
  }

  lemma ProperBehind(front: seq<Byte>, pieces: seq<seq<Byte>>, i: nat)
    requires i <= |pieces| && front == Flatten(pieces[..i]) && Valid(front) && WellFormed(Flatten(pieces))
    ensures AllProper(front)
  {
    hide Valid, AllProper, Flatten, WellFormed;
    assert pieces == pieces[..|pieces|];
    FlattenCut(pieces, i, |pieces|);
    WellFormedExactly(Flatten(pieces));
    ProperAppend(front, Flatten(pieces[i..|pieces|]));
  }

  lemma ProperMiddle(pieces: seq<seq<Byte>>, j: nat, i: nat)
    requires j <= i <= |pieces| && Valid(Flatten(pieces[..j])) && Valid(Flatten(pieces[..i]))
    requires AllProper(Flatten(pieces[..i]))
    ensures Valid(Flatten(pieces[j..i])) && AllProper(Flatten(pieces[j..i]))
  {
    hide Valid, AllProper, Flatten;
    FlattenCut(pieces, j, i);
    ProperAppend(Flatten(pieces[..j]), Flatten(pieces[j..i]));
  }

  lemma {:induction false} ProperAppend(x: seq<Byte>, y: seq<Byte>)
    requires Valid(x) && Valid(x + y)
    ensures Valid(y) && (AllProper(x + y) <==> AllProper(x) && AllProper(y))
    decreases |x|
  {
    hide LeadLength, IsTail, Proper;
    if x == [] {
      assert x + y == y;
    } else {
      var n := LeadLength(x[0]);
      var s := x + y;
      assert s[0] == x[0] && s[n..] == x[n..] + y && s[..n] == x[..n];
      ProperAppend(x[n..], y);
    }
  }

  /** What stands before the first NUL is proper, too. */
  lemma {:induction false} ProperCString(s: seq<Byte>)
    requires Valid(s) && AllProper(s)
    ensures Valid(CString(s)) && AllProper(CString(s))
    decreases |s|
  {
    hide LeadLength, IsTail, Proper;
    CStringValid(s);
    if s != [] && s[0] != 0 {
      var n := LeadLength(s[0]);
      NoNulInside(s, n);
      CStringFront(s, n);
      ProperCString(s[n..]);
      var g := s[..n];
      assert g[0] == s[0] && forall k :: 1 <= k < n ==> g[k] == s[k];
      GroupThen(g, CString(s[n..]));
    }
  }
}
