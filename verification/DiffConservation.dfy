/** When the diff split conserves both texts, and when it shows no difference: a test on the
    segments says whether one is counted twice after one side was used up. */
module DiffConservation {
  import opened MarkerSegments
  import opened DiffSplit
  import opened DiffLoop
  import Wrappers

  // ---- The steps after the segment match --------------------------------------------

  lemma CharSplitConserves(prefix: string, suffix: string, rl: string, rr: string, textPrefix: bool, textSuffix: bool)
    ensures var d := CharSplit(prefix, suffix, rl, rr, textPrefix, textSuffix);
            Conserves(d, prefix + rl + suffix, prefix + rr + suffix)
  {
    hide PrefixLen, SuffixLen;
    var sl := if textSuffix then SuffixLen(rl, rr) else 0;
    var pl := if textPrefix then PrefixLen(rl[..|rl| - sl], rr[..|rr| - sl]) else 0;
    if textPrefix {
      SamePrefix(rl, |rl| - sl, rr, |rr| - sl, pl);
    } else {
      assert rl[..0] == rr[..0];
    }
    if !textSuffix {
      assert rl[|rl|..] == rr[|rr|..];
    }
    ThreeParts(prefix, rl, pl, |rl| - sl, suffix);
    ThreeParts(prefix, rr, pl, |rr| - sl, suffix);
  }

  lemma SamePrefix(a: string, m: nat, b: string, n: nat, k: nat)
    requires k <= m <= |a| && k <= n <= |b| && a[..m][..k] == b[..n][..k]
    ensures a[..k] == b[..k]
  {
    assert a[..m][..k] == a[..k] && b[..n][..k] == b[..k];
  }

  lemma ThreeParts(prefix: string, s: string, i: nat, j: nat, suffix: string)
    requires i <= j <= |s|
    ensures (prefix + s[..i]) + s[i..j] + (s[j..] + suffix) == prefix + s + suffix
  {
    assert s == s[..i] + (s[i..j] + s[j..]);
    assert (prefix + s[..i]) + s[i..j] + (s[j..] + suffix) == prefix + (s[..i] + (s[i..j] + s[j..])) + suffix;
  }

  lemma AdjustConserves(d: Split, left: string, right: string)
    requires Conserves(d, left, right)
    ensures Conserves(Adjust(d, left, right), left, right)
  {
    if d.left == "" && d.right == "" {
      assert d.prefix + "" + d.suffix == d.prefix + d.suffix;
      assert left == right && left + "" + "" == left;
    } else if d.left == "" && StartsWith(right, left) {
      assert right == left + right[|left|..];
      assert left + "" + "" == left && left + right[|left|..] + "" == right;
    }
  }

  lemma WholeConserves(l: Segs, r: Segs, c: Cursor)
    requires InRange(l, r, c) && Whole(l, r, c)
    ensures Conserves(SplitFrom(l, r, c), Concat(l), Concat(r))
  {
    hide CharSplit, Conserves;
    CharSplitConserves(c.prefix, c.suffix, Remainder(l, c.ls, c.le, c.lDone), Remainder(r, c.rs, c.re, c.rDone),
                       BothText(r[c.rs], l[c.ls]), BothText(l[c.le], r[c.re]));
  }

  // ---- Counting a segment twice -----------------------------------------------------

  /** One side was used up inside the loop, and its last segment is matched again after it. */
  predicate CountsTwice(l: Segs, r: Segs, c: Cursor)
    requires InRange(l, r, c)
  {
    c.lDone != c.rDone && TailMatches(l, r, c)
  }

  /** The left text was used up, segments of the right one are left over, and the left text is
      a prefix of the right one: the prefix fix sets the split right again. */
  predicate Repaired(c: Cursor, left: string, right: string) {
    c.lDone && c.rs != c.re && StartsWith(right, left)
  }

  predicate NonEmptySegments(s: seq<Segment>) {
    forall i :: 0 <= i < |s| ==> s[i].value != ""
  }

  lemma RemainderNotEmpty(s: Segs, first: nat, last: nat)
    requires first <= last < |s| && NonEmptySegments(s)
    ensures Remainder(s, first, last, false) != ""
  {
    assert s[first..last + 1][0] == s[first];
  }

  lemma DoneRemainder(s: Segs, i: nat)
    requires i < |s|
    ensures Remainder(s, i, i, true) == ""
  {
    assert s[i..i] == [];
  }

  lemma NothingCommon(prefix: string, suffix: string, rl: string, rr: string, p: bool, t: bool)
    requires rl == "" || rr == ""
    ensures CharSplit(prefix, suffix, rl, rr, p, t) == Split(prefix, suffix, rl, rr)
  {
    assert prefix + "" == prefix && "" + suffix == suffix;
  }

  /** Left used up, right not: the prefix and suffix hold the left text and one segment more. */
  lemma LeftCountedTwice(l: Segs, r: Segs, c: Cursor)
    requires InRange(l, r, c) && Kept(l, r, c) && NonEmptySegments(l) && NonEmptySegments(r)
    requires c.lDone && !c.rDone && TailMatches(l, r, c)
    ensures var split := SplitFrom(l, r, Tail(l, r, c));
            && split.left == "" && (split.right == "" <==> c.rs == c.re)
            && |split.prefix| + |split.suffix| > |Concat(l)|
            && (c.rs == c.re ==> |Concat(r)| > |Concat(l)|)
  {
    hide CharSplit, Concat, Remainder;
    var d := Tail(l, r, c);
    KeptIsWhole(l, r, c);
    DoneRemainder(l, c.ls);
    assert Concat(l) == c.prefix + c.suffix by { assert c.prefix + "" + c.suffix == c.prefix + c.suffix; }
    var rl, rr := Remainder(l, d.ls, d.le, d.lDone), Remainder(r, d.rs, d.re, d.rDone);
    NothingCommon(d.prefix, d.suffix, rl, rr, BothText(r[d.rs], l[d.ls]), BothText(l[d.le], r[d.re]));
    if c.rs != c.re {
      RemainderNotEmpty(r, d.rs, d.re);
    } else {
      DoneRemainder(r, c.rs);
      RemainderNotEmpty(r, c.rs, c.re);
    }
  }

  /** The prefix fix is what repairs a split that holds more than the left text. */
  lemma OnlyPrefixRepairs(d: Split, left: string, right: string)
    requires d.left == "" && |d.prefix| + |d.suffix| > |left| && (d.right == "" ==> |right| > |left|)
    ensures Conserves(Adjust(d, left, right), left, right) <==> d.right != "" && StartsWith(right, left)
  {
    assert left + "" + "" == left;
    if StartsWith(right, left) {
      assert right == left + right[|left|..];
      assert left + right[|left|..] + "" == right;
    }
  }

  /** Right used up, left not. */
  lemma RightCountedTwice(l: Segs, r: Segs, c: Cursor)
    requires InRange(l, r, c) && Kept(l, r, c) && NonEmptySegments(l) && NonEmptySegments(r)
    requires c.rDone && !c.lDone && TailMatches(l, r, c)
    ensures var split := SplitFrom(l, r, Tail(l, r, c));
            && split.right == "" && (split.left == "" <==> c.ls == c.le)
            && |split.prefix| + |split.suffix| > |Concat(r)|
            && (c.ls == c.le ==> |Concat(l)| > |Concat(r)|)
  {
    hide CharSplit, Concat, Remainder;
    var d := Tail(l, r, c);
    KeptIsWhole(l, r, c);
    DoneRemainder(r, c.rs);
    assert Concat(r) == c.prefix + c.suffix by { assert c.prefix + "" + c.suffix == c.prefix + c.suffix; }
    var rl, rr := Remainder(l, d.ls, d.le, d.lDone), Remainder(r, d.rs, d.re, d.rDone);
    NothingCommon(d.prefix, d.suffix, rl, rr, BothText(r[d.rs], l[d.ls]), BothText(l[d.le], r[d.re]));
    if c.ls != c.le {
      RemainderNotEmpty(l, d.ls, d.le);
    } else {
      DoneRemainder(l, c.ls);
      RemainderNotEmpty(l, c.ls, c.le);
    }
  }

  /** Nothing repairs a split that holds more than the right text. */
  lemma NothingRepairs(d: Split, left: string, right: string)
    requires d.right == "" && |d.prefix| + |d.suffix| > |right| && (d.left == "" ==> |left| > |right|)
    ensures !Conserves(Adjust(d, left, right), left, right)
  {
  }

  /** Both sides used up: the texts are equal, and the split says so. */
  lemma BothDoneConserves(l: Segs, r: Segs, c: Cursor, left: string, right: string)
    requires InRange(l, r, c) && Kept(l, r, c) && c.lDone && c.rDone
    requires left == Concat(l) && right == Concat(r)
    ensures Adjust(SplitFrom(l, r, Tail(l, r, c)), left, right) == Split(left, "", "", "") && left == right
  {
    hide CharSplit, Concat, Remainder;
    var d := Tail(l, r, c);
    KeptIsWhole(l, r, c);
    DoneRemainder(l, c.ls);
    DoneRemainder(r, c.rs);
    NothingCommon(d.prefix, d.suffix, "", "", BothText(r[d.rs], l[d.ls]), BothText(l[d.le], r[d.re]));
  }

  /** Segments that were not counted twice. */
  lemma CountedOnceConserves(l: Segs, r: Segs, c: Cursor)
    requires InRange(l, r, c) && Kept(l, r, c) && !CountsTwice(l, r, c) && !(c.lDone && c.rDone)
    ensures Whole(l, r, Tail(l, r, c))
  {
    hide Concat, Remainder;
    if c.lDone || c.rDone {
      assert Tail(l, r, c) == c;
      KeptIsWhole(l, r, c);
    } else {
      OpenTailIsWhole(l, r, c);
    }
  }

  /** The segment in the middle, number `h` of the shorter side, is matched again. */
  predicate MatchedAgain(l: Segs, r: Segs, h: nat)
    requires h < |l| && h < |r|
  {
    if |l| + 1 < |r| then l[h] == r[|r| - 1 - h] || l[h] == r[h]
    else if |r| + 1 < |l| then l[|l| - 1 - h] == r[h] || l[h] == r[h]
    else l[h] == r[h] && l[h].kind == Marker
  }

  /** One side is used up by the loop and its last segment is matched again, except where the
      left text is a prefix of a right one with at least two segments more. */
  predicate DoubleCounts(left: string, right: string) {
    var l, r := Segments(left), Segments(right);
    l != [] && r != [] && Halved(l, r) && MatchedAgain(l, r, Min(|l|, |r|) / 2)
    && !(|l| + 1 < |r| && left <= right)
  }

  lemma CountsTwiceExactly(l: Segs, r: Segs)
    ensures CountsTwice(l, r, Loop(l, r, Start(l, r))) <==>
            Halved(l, r) && MatchedAgain(l, r, Min(|l|, |r|) / 2)
  {
    hide Loop, Start, CommonFront, CommonBack;
    UsedUpExactly(l, r);
  }

  lemma RepairedExactly(l: Segs, r: Segs, left: string, right: string)
    requires Halved(l, r)
    ensures Repaired(Loop(l, r, Start(l, r)), left, right) <==> |l| + 1 < |r| && left <= right
  {
    hide Loop, Start, CommonFront, CommonBack;
    UsedUpExactly(l, r);
  }

  /** Conservation, with its exact condition: prefix, difference and suffix make up both texts
      again exactly when no segment of a used-up side was counted twice and left unrepaired. */
  lemma ConservedExactly(left: string, right: string)
    ensures Conserves(DiffOf(left, right), left, right) <==> !DoubleCounts(left, right)
  {
    hide Segments, Concat, Loop, Start, Tail, Kept, SplitFrom, Adjust, Conserves, CountsTwice, TailMatches, Repaired,
      Halved, MatchedAgain;
    SegmentsConserve(left);
    SegmentsConserve(right);
    var l, r := Segments(left), Segments(right);
    if l == [] || r == [] {
      NoSegments(left);
      NoSegments(right);
      NothingToMatch(left, right);
    } else {
      StartKept(l, r);
      LoopKeeps(l, r, Start(l, r));
      var c := Loop(l, r, Start(l, r));
      NoneEmpty(left);
      NoneEmpty(right);
      EndConserves(l, r, c, left, right);
      CountsTwiceExactly(l, r);
      if CountsTwice(l, r, c) {
        RepairedExactly(l, r, left, right);
      }
    }
  }

  lemma EndConserves(l: Segs, r: Segs, c: Cursor, left: string, right: string)
    requires InRange(l, r, c) && Kept(l, r, c) && NonEmptySegments(l) && NonEmptySegments(r)
    requires left == Concat(l) && right == Concat(r)
    ensures Conserves(Adjust(SplitFrom(l, r, Tail(l, r, c)), left, right), left, right)
       <==> !(CountsTwice(l, r, c) && !Repaired(c, left, right))
  {
    hide Concat, Tail, Kept, SplitFrom, Adjust, Conserves, TailMatches;
    if c.lDone && c.rDone {
      BothDoneConserves(l, r, c, left, right);
      AllPrefix(left, right);
    } else if !CountsTwice(l, r, c) {
      CountedOnceConserves(l, r, c);
      WholeConserves(l, r, Tail(l, r, c));
      AdjustConserves(SplitFrom(l, r, Tail(l, r, c)), left, right);
    } else if c.lDone {
      LeftCountedTwice(l, r, c);
      OnlyPrefixRepairs(SplitFrom(l, r, Tail(l, r, c)), left, right);
    } else {
      RightCountedTwice(l, r, c);
      NothingRepairs(SplitFrom(l, r, Tail(l, r, c)), left, right);
    }
  }

  lemma AllPrefix(left: string, right: string)
    requires left == right
    ensures Conserves(Split(left, "", "", ""), left, right)
  {
    assert left + "" + "" == left;
  }

  lemma NoSegments(text: string)
    ensures Segments(text) == [] <==> text == ""
  {
    SegmentsConserve(text);
  }

  lemma NothingToMatch(left: string, right: string)
    requires left == "" || right == ""
    ensures Conserves(Split("", "", "", right), "", right) && Conserves(Split("", "", left, ""), left, "")
  {
    assert "" + right + "" == right && "" + left + "" == left;
  }

  lemma NoneEmpty(text: string)
    ensures NonEmptySegments(Segments(text))
  {
    hide Concat;
    SegmentsConserve(text);
  }

  // ---- Equal texts ------------------------------------------------------------------

  lemma {:induction false} EqualSidesMeet(s: Segs, c: Cursor)
    requires InRange(s, s, c) && c.ls == c.rs && c.le == c.re && c.lDone == c.rDone && (c.lDone ==> c.ls == c.le)
    ensures var d := Loop(s, s, c);
            d.ls == d.rs && d.le == d.re && d.lDone == d.rDone && d.ls == d.le
    decreases c.le - c.ls
  {
    if Test(c) {
      EqualSidesMeet(s, MatchEnd(s, s, MatchStart(s, s, c)));
    }
  }

  lemma SameRemainders(prefix: string, suffix: string, s: string)
    ensures var d := CharSplit(prefix, suffix, s, s, true, true);
            d.left == "" && d.right == ""
  {
  }

  /** Equal texts show no difference. */
  lemma EqualTextsMatch(text: string)
    requires text != ""
    ensures DiffOf(text, text) == Split(text, "", "", "")
  {
    hide Segments, Concat, Loop, Start, CharSplit, Remainder;
    NoSegments(text);
    var s := Segments(text);
    var c := Loop(s, s, Start(s, s));
    assert c.ls == c.rs && c.le == c.re && c.lDone == c.rDone && c.ls == c.le by {
      StartMeets(s);
      EqualSidesMeet(s, Start(s, s));
    }
    var d := Tail(s, s, c);
    DoneRemainder(s, d.ls);
    var rest := Remainder(s, d.ls, d.le, d.lDone);
    if d.lDone {
      NothingCommon(d.prefix, d.suffix, "", "", BothText(s[d.rs], s[d.ls]), BothText(s[d.le], s[d.re]));
    } else {
      SameRemainders(d.prefix, d.suffix, rest);
    }
  }

  lemma StartMeets(s: Segs)
    ensures var c := Start(s, s);
            c.ls == c.rs && c.le == c.re && !c.lDone && !c.rDone
  {
  }

  /** The split shows no difference exactly for equal texts, and where a segment is counted
      twice and one side has one segment more than the other. */
  lemma NoDifferenceExactly(left: string, right: string)
    ensures DiffOf(left, right).left == "" && DiffOf(left, right).right == "" <==>
            left == right || (DoubleCounts(left, right) && OneApart(Segments(left), Segments(right)))
  {
    hide DoubleCounts, OneApart;
    ConservedExactly(left, right);
    if left == right {
      if left == "" {
        NoSegments(left);
      } else {
        EqualTextsMatch(left);
      }
    } else if DoubleCounts(left, right) {
      CountedTwiceShown(left, right);
    } else {
      hide DiffOf;
    }
  }

  predicate OneApart(l: seq<Segment>, r: seq<Segment>) {
    |l| == |r| + 1 || |r| == |l| + 1
  }

  lemma CountedTwiceShown(left: string, right: string)
    requires DoubleCounts(left, right)
    ensures DiffOf(left, right).left == "" && DiffOf(left, right).right == "" <==>
            OneApart(Segments(left), Segments(right))
  {
    hide Segments, Concat, Loop, Start, Tail, Kept, SplitFrom, TailMatches, CommonFront, CommonBack, MatchedAgain;
    var l, r := Segments(left), Segments(right);
    var c := Loop(l, r, Start(l, r));
    StartKept(l, r);
    LoopKeeps(l, r, Start(l, r));
    NoneEmpty(left);
    NoneEmpty(right);
    CountsTwiceExactly(l, r);
    RepairedExactly(l, r, left, right);
    UsedUpExactly(l, r);
    assert (c.ls == c.le && c.rs == c.re) <==> OneApart(l, r);
    if c.lDone {
      LeftCountedTwice(l, r, c);
    } else {
      RightCountedTwice(l, r, c);
    }
  }

  /** `<a><x>` against `<a><x><x>`: the one `<x>` of the left text is counted twice, and the
      split shows no difference between different texts. */
  lemma DifferenceLost()
    ensures var left, right := "<a><x>", "<a><x><x>";
            && DoubleCounts(left, right)
            && DiffOf(left, right) == Split(left, "", "", "")
  {
    var a, x := Segment(Marker, "<a>"), Segment(Marker, "<x>");
    var l: Segs, r: Segs := [a, x], [a, x, x];
    CutLeft();
    CutRight();
    LostLoop(l, r, a, x);
    var c := Loop(l, r, Start(l, r));
    hide Segments, Loop, Start, CharSplit, Halved, MatchedAgain;
    CountsTwiceExactly(l, r);
    var d := Tail(l, r, c);
    DoneRemainder(l, d.ls);
    DoneRemainder(r, d.rs);
    NothingCommon(d.prefix, d.suffix, "", "", false, false);
  }

  lemma LostLoop(l: Segs, r: Segs, a: Segment, x: Segment)
    requires l == [a, x] && r == [a, x, x] && a != x && x.value != "" && a.value != ""
    ensures Loop(l, r, Start(l, r)) == Cursor(a.value, x.value, 1, 1, 1, 1, true, false)
  {
    var c0 := Start(l, r);
    var c1 := MatchEnd(l, r, MatchStart(l, r, c0));
    assert "" + a.value == a.value && x.value + "" == x.value;
    assert c1 == Cursor(a.value, x.value, 1, 1, 1, 1, true, false);
    assert Loop(l, r, c1) == c1;
  }

  /** A one-character marker at the front is cut off whole. */
  lemma CutMarker(text: string, seg: string, rest: string)
    requires |seg| == 3 && seg[0] == '<' && seg[1] != '>' && seg[2] == '>' && text == seg + rest
    ensures Segments(text) == [Segment(Marker, seg)] + Segments(rest)
  {
    var t1, t2, t3 := text[1..], text[1..][1..], text[1..][1..][1..];
    assert t3 == rest && t1[0] == seg[1] && t2[0] == '>';
    assert "" + ['<'] == ['<'] && ['<'] + [seg[1]] + ['>'] == seg;
    var opener := Wrappers.Some('<');
    assert Cut(['<'] + [seg[1]], opener, t2) == [Segment(Marker, seg)] + Cut("", Wrappers.None, rest);
    assert Cut(['<'], opener, t1) == Cut(['<'] + [seg[1]], opener, t2);
    var tail := Cut(['<'], opener, t1);
    assert [] + tail == tail;
  }

  lemma NoText()
    ensures Segments("") == []
  {
  }

  lemma CutLeft()
    ensures Segments("<a><x>") == [Segment(Marker, "<a>"), Segment(Marker, "<x>")]
  {
    hide Segments;
    CutMarker("<a><x>", "<a>", "<x>");
    CutMarker("<x>", "<x>", "");
    NoText();
  }

  lemma CutRight()
    ensures Segments("<a><x><x>") == [Segment(Marker, "<a>"), Segment(Marker, "<x>"), Segment(Marker, "<x>")]
  {
    hide Segments;
    CutMarker("<a><x><x>", "<a>", "<x><x>");
    CutMarker("<x><x>", "<x>", "<x>");
    CutMarker("<x>", "<x>", "");
    NoText();
  }
}
