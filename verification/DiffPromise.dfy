/** The documented result of the diff: the longest common prefix first, then the longest common
    suffix of what remains, whole segments before characters. The code matches both ends in turn
    and takes the suffix first at character level; here is when the two agree, for all texts. */
module DiffPromise {
  import opened Wrappers
  import opened MarkerSegments
  import opened DiffSplit
  import opened DiffLoop
  import opened DiffConservation
  import opened DiffEnds

  // ---- Texts without markers --------------------------------------------------------

  lemma {:induction false} PlainCut(pending: string, rest: string)
    requires NoOpeners(rest)
    ensures Cut(pending, None, rest) == TextUnlessEmpty(pending + rest)
    decreases |rest|
  {
    if rest == "" {
      assert pending + rest == pending;
    } else {
      assert pending + [rest[0]] + rest[1..] == pending + rest;
      PlainCut(pending + [rest[0]], rest[1..]);
    }
  }

  lemma PlainSegment(text: string)
    requires NoOpeners(text)
    ensures Segments(text) == TextUnlessEmpty(text)
  {
    PlainCut("", text);
    assert "" + text == text;
  }

  /** Texts without markers go straight to the character level. */
  lemma PlainDiff(left: string, right: string)
    requires NoOpeners(left) && NoOpeners(right) && left != "" && right != ""
    ensures DiffOf(left, right) == Adjust(CharSplit("", "", left, right, true, true), left, right)
  {
    hide CharSplit, Adjust;
    PlainSegment(left);
    PlainSegment(right);
    var l, r := Segments(left), Segments(right);
    assert l == [Segment(PlainText, left)] && r == [Segment(PlainText, right)];
    ConcatSingle(l[0]);
    ConcatSingle(r[0]);
    assert l[0..1] == l && r[0..1] == r;
  }

  lemma AdjustNothing(d: Split, left: string, right: string)
    requires !(left <= right) && !(d.left == "" && d.right == "")
    ensures Adjust(d, left, right) == d
  {
    assert StartsWith(right, left) ==> left <= right;
  }

  // ---- Segments first ---------------------------------------------------------------

  /** `f` segments taken from the front and `g` from the back, and what is left of both sides. */
  function Taken(l: seq<Segment>, r: seq<Segment>, f: nat, g: nat): Split
    requires f + g <= |l| && f + g <= |r|
  {
    Split(Concat(l[..f]), Concat(l[|l| - g..]), Concat(l[f..|l| - g]), Concat(r[f..|r| - g]))
  }

  predicate TextFirst(l: seq<Segment>, r: seq<Segment>) {
    l != [] && r != [] && BothText(r[0], l[0])
  }

  predicate TextLast(l: seq<Segment>, r: seq<Segment>) {
    l != [] && r != [] && BothText(l[|l| - 1], r[|r| - 1])
  }

  function BackTaken(l: seq<Segment>, r: seq<Segment>): (s: nat)
    ensures CommonFront(l, r, 0) + s <= |l| && CommonFront(l, r, 0) + s <= |r|
  {
    Min(CommonBack(l, r, 0), Min(|l|, |r|) - CommonFront(l, r, 0))
  }

  /** Those segments, and then characters where the rest starts or ends with text on both sides. */
  function TakenFurther(l: seq<Segment>, r: seq<Segment>, p: nat, s: nat): Split
    requires p + s <= |l| && p + s <= |r|
  {
    Longest(Taken(l, r, p, s), TextFirst(l[p..|l| - s], r[p..|r| - s]), TextLast(l[p..|l| - s], r[p..|r| - s]))
  }

  /** The same with the suffix first. */
  function CharTaken(l: seq<Segment>, r: seq<Segment>, p: nat, s: nat): Split
    requires p + s <= |l| && p + s <= |r|
  {
    var d := Taken(l, r, p, s);
    CharSplit(d.prefix, d.suffix, d.left, d.right,
              TextFirst(l[p..|l| - s], r[p..|r| - s]), TextLast(l[p..|l| - s], r[p..|r| - s]))
  }

  /** All common leading segments and all common trailing ones of the rest. */
  function Aligned(l: seq<Segment>, r: seq<Segment>): Split {
    TakenFurther(l, r, CommonFront(l, r, 0), BackTaken(l, r))
  }

  function WholeLeft(d: Split, left: string, right: string): Split {
    if d.left == "" && left <= right then Split(left, "", "", right[|left|..]) else d
  }

  /** The documented split: longest prefix first, then the longest suffix of the rest, both
      ending on markers; a left text that is all shared and a prefix of the right one is the prefix. */
  function Promised(left: string, right: string): Split {
    WholeLeft(Aligned(Segments(left), Segments(right)), left, right)
  }

  /** The common segments do not overlap, or those in front are reached. */
  predicate SegmentRoom(l: seq<Segment>, r: seq<Segment>) {
    CommonFront(l, r, 0) + CommonBack(l, r, 0) <= Min(|l|, |r|) || FrontReached(l, r)
  }

  /** The common ends of what is left do not overlap. */
  predicate EndsApart(l: seq<Segment>, r: seq<Segment>, p: nat, s: nat)
    requires p + s <= |l| && p + s <= |r|
  {
    var ml, mr := l[p..|l| - s], r[p..|r| - s];
    TextFirst(ml, mr) && TextLast(ml, mr) ==>
      FrontLen(Concat(ml), Concat(mr)) + BackLen(Concat(ml), Concat(mr)) <= Min(|Concat(ml)|, |Concat(mr)|)
  }

  predicate CharRoom(l: seq<Segment>, r: seq<Segment>) {
    EndsApart(l, r, CommonFront(l, r, 0), BackTaken(l, r))
  }

  // ---- What is promised conserves both texts ----------------------------------------

  lemma FrontSegments(l: seq<Segment>, r: seq<Segment>, f: nat)
    requires f <= CommonFront(l, r, 0)
    ensures l[..f] == r[..f]
  {
    hide CommonFront;
    forall i | 0 <= i < f ensures l[i] == r[i] {
      LeadingAgree(l, r, 0, i);
    }
  }

  lemma BackSegments(l: seq<Segment>, r: seq<Segment>, g: nat)
    requires g <= CommonBack(l, r, 0)
    ensures l[|l| - g..] == r[|r| - g..]
  {
    hide CommonBack;
    var x, y := l[|l| - g..], r[|r| - g..];
    forall i | 0 <= i < g ensures x[i] == y[i] {
      TrailingAgree(l, r, 0, g - 1 - i);
    }
  }

  lemma TakenConserves(l: seq<Segment>, r: seq<Segment>, f: nat, g: nat)
    requires f <= CommonFront(l, r, 0) && g <= CommonBack(l, r, 0) && f + g <= |l| && f + g <= |r|
    ensures Conserves(Taken(l, r, f, g), Concat(l), Concat(r))
  {
    hide Concat, CommonFront, CommonBack, Conserves, Taken;
    FrontSegments(l, r, f);
    BackSegments(l, r, g);
    SameTaken(l, r, f, g);
  }

  lemma SameTaken(l: seq<Segment>, r: seq<Segment>, f: nat, g: nat)
    requires f + g <= |l| && f + g <= |r| && l[..f] == r[..f] && l[|l| - g..] == r[|r| - g..]
    ensures Conserves(Taken(l, r, f, g), Concat(l), Concat(r))
  {
    hide Concat, Conserves;
    SideTaken(l, f, |l| - g, l[..f], l[|l| - g..]);
    SideTaken(r, f, |r| - g, l[..f], l[|l| - g..]);
    ConservesParts(Taken(l, r, f, g), Concat(l), Concat(r));
  }

  lemma SideTaken(s: seq<Segment>, i: nat, j: nat, front: seq<Segment>, back: seq<Segment>)
    requires i <= j <= |s| && s[..i] == front && s[j..] == back
    ensures Concat(front) + Concat(s[i..j]) + Concat(back) == Concat(s)
  {
    hide Concat;
    ConcatSplit(s, i, j);
  }

  lemma AlignedConserves(l: seq<Segment>, r: seq<Segment>)
    ensures Conserves(Aligned(l, r), Concat(l), Concat(r))
  {
    hide Concat, Conserves, CommonFront, CommonBack, Taken, Longest, TextFirst, TextLast;
    var p, s := CommonFront(l, r, 0), BackTaken(l, r);
    TakenConserves(l, r, p, s);
    var ml, mr := l[p..|l| - s], r[p..|r| - s];
    LongestConserves(Taken(l, r, p, s), TextFirst(ml, mr), TextLast(ml, mr), Concat(l), Concat(r));
  }

  lemma WholeConserved(d: Split, left: string, right: string)
    requires Conserves(d, left, right)
    ensures Conserves(WholeLeft(d, left, right), left, right)
    ensures Adjust(d, left, right) == WholeLeft(d, left, right)
    ensures !(left <= right) ==> WholeLeft(d, left, right) == d
  {
    if d.left == "" && d.right == "" {
      assert left == right;
    }
    if left <= right {
      assert right == left + right[|left|..];
      assert left + "" + "" == left && left + right[|left|..] + "" == right;
      assert left == right ==> right[|left|..] == "";
    }
  }

  lemma PromisedConserves(left: string, right: string)
    ensures Conserves(Promised(left, right), left, right)
  {
    hide Concat, Conserves, Aligned, Segments;
    SegmentsConserve(left);
    SegmentsConserve(right);
    AlignedConserves(Segments(left), Segments(right));
    WholeConserved(Aligned(Segments(left), Segments(right)), left, right);
  }

  // ---- A side used up ---------------------------------------------------------------

  /** Nothing is left of one side: the characters do not matter. */
  lemma AlignedUsedUp(l: seq<Segment>, r: seq<Segment>)
    requires CommonFront(l, r, 0) + CommonBack(l, r, 0) >= Min(|l|, |r|)
    ensures Aligned(l, r) == Taken(l, r, CommonFront(l, r, 0), Min(|l|, |r|) - CommonFront(l, r, 0))
    ensures CharRoom(l, r)
  {
    hide CommonFront, CommonBack, Taken, TakenFurther, EndsApart;
    TakenNoFurther(l, r, CommonFront(l, r, 0), BackTaken(l, r));
  }

  lemma TakenNoFurther(l: seq<Segment>, r: seq<Segment>, p: nat, s: nat)
    requires p + s == Min(|l|, |r|)
    ensures TakenFurther(l, r, p, s) == Taken(l, r, p, s) && EndsApart(l, r, p, s)
  {
    hide Taken, Longest, TextFirst, TextLast;
    NoTextEnds(l[p..|l| - s], r[p..|r| - s]);
    NoEnds(Taken(l, r, p, s));
  }

  lemma NoTextEnds(l: seq<Segment>, r: seq<Segment>)
    requires |l| == 0 || |r| == 0
    ensures !TextFirst(l, r) && !TextLast(l, r)
  {
  }

  /** The cursor stands behind the first `f` and in front of the last `g` segments. */
  predicate At(l: Segs, r: Segs, c: Cursor, f: nat, g: nat)
    requires InRange(l, r, c) && f + g <= |l| && f + g <= |r|
  {
    && c.prefix == Concat(l[..f]) && c.suffix == Concat(l[|l| - g..])
    && Remainder(l, c.ls, c.le, c.lDone) == Concat(l[f..|l| - g])
    && Remainder(r, c.rs, c.re, c.rDone) == Concat(r[f..|r| - g])
  }

  lemma UsedUpSplit(l: Segs, r: Segs, c: Cursor, f: nat, g: nat)
    requires InRange(l, r, c) && f + g == Min(|l|, |r|) && At(l, r, c, f, g)
    ensures SplitFrom(l, r, c) == Taken(l, r, f, g)
  {
    hide CharSplit;
    assert |l| == f + g ==> l[f..|l| - g] == [];
    assert |r| == f + g ==> r[f..|r| - g] == [];
    NothingCommon(c.prefix, c.suffix, Remainder(l, c.ls, c.le, c.lDone), Remainder(r, c.rs, c.re, c.rDone),
                  BothText(r[c.rs], l[c.ls]), BothText(l[c.le], r[c.re]));
  }

  /** After the loop. */
  lemma EndedAt(l: Segs, r: Segs, c: Cursor, t: nat, p: nat, s: nat)
    requires Ended(l, r, c, t, p, s) && Kept(l, r, c)
    ensures At(l, r, c, Min(t, p), Min(t, s))
  {
    hide Concat;
  }

  /** One segment of the shorter side is left, and the step after the loop takes it. */
  predicate OneLeft(l: Segs, r: Segs, c: Cursor, f: nat, g: nat) {
    && InRange(l, r, c) && Kept(l, r, c) && !c.lDone && !c.rDone
    && f + g == Min(|l|, |r|) - 1 && c.ls == c.rs == f && c.le == |l| - 1 - g && c.re == |r| - 1 - g
    && (l[c.le] == r[c.re] || l[f] == r[f])
  }

  lemma LeftTailAt(l: Segs, r: Segs, c: Cursor, f: nat, g: nat)
    requires OneLeft(l, r, c, f, g) && |l| < |r|
    ensures var d := Tail(l, r, c);
            if l[c.le] == r[c.re] then At(l, r, d, f, g + 1) else At(l, r, d, f + 1, g)
  {
    hide Concat;
    ConcatOne(l, f);
    ConcatOne(r, f);
    assert l[f..f] == [] && l[f + 1..f + 1] == [];
  }

  lemma RightTailAt(l: Segs, r: Segs, c: Cursor, f: nat, g: nat)
    requires OneLeft(l, r, c, f, g) && |r| < |l|
    ensures var d := Tail(l, r, c);
            if l[c.le] == r[c.re] then At(l, r, d, f, g + 1) else At(l, r, d, f + 1, g)
  {
    hide Concat;
    ConcatOne(l, f);
    ConcatOne(l, c.le);
    ConcatOne(r, f);
    assert r[f..f] == [] && r[f + 1..f + 1] == [];
  }

  /** The common ends cover the shorter side, and nothing is counted twice. */
  lemma SideUsedUp(l: Segs, r: Segs) returns (f: nat, g: nat)
    requires |l| != |r| && CommonFront(l, r, 0) + CommonBack(l, r, 0) >= Min(|l|, |r|)
    requires !CountsTwice(l, r, Loop(l, r, Start(l, r)))
    ensures f <= CommonFront(l, r, 0) && g <= CommonBack(l, r, 0) && f + g == Min(|l|, |r|)
    ensures f == CommonFront(l, r, 0) <==> SegmentRoom(l, r)
    ensures SplitFrom(l, r, Tail(l, r, Loop(l, r, Start(l, r)))) == Taken(l, r, f, g)
  {
    hide CommonFront, CommonBack, Loop, Concat, CharSplit, FrontReached, Tail, Kept, Start, At, SplitFrom, TailMatches;
    var c := Loop(l, r, Start(l, r));
    var t := LoopEnded(l, r);
    FrontReachedExactly(l, r);
    StartKept(l, r);
    LoopKeeps(l, r, Start(l, r));
    var p, s := CommonFront(l, r, 0), CommonBack(l, r, 0);
    f, g := Min(t, p), Min(t, s);
    EndedAt(l, r, c, t, p, s);
    if c.lDone || c.rDone {
      NoTail(l, r, c);
    } else {
      FrontHere(l, r, f);
      BackHere(l, r, g);
      if |l| < |r| {
        LeftTailAt(l, r, c, f, g);
      } else {
        RightTailAt(l, r, c, f, g);
      }
      if g < s {
        g := g + 1;
      } else {
        f := f + 1;
      }
    }
    UsedUpSplit(l, r, Tail(l, r, c), f, g);
  }

  lemma NoTail(l: Segs, r: Segs, c: Cursor)
    requires InRange(l, r, c) && !TailMatches(l, r, c)
    ensures Tail(l, r, c) == c
  {
  }

  // ---- A segment left on both sides -------------------------------------------------

  /** The common ends leave something of both sides: the loop stops there, whatever it took first. */
  lemma BothLeft(l: Segs, r: Segs)
    requires CommonFront(l, r, 0) + CommonBack(l, r, 0) < Min(|l|, |r|)
    ensures var p, s := CommonFront(l, r, 0), CommonBack(l, r, 0);
            var c := Loop(l, r, Start(l, r));
            && !c.lDone && !c.rDone && Tail(l, r, c) == c && At(l, r, c, p, s)
            && c.ls == c.rs == p && c.le == |l| - 1 - s && c.re == |r| - 1 - s
  {
    hide CommonFront, CommonBack, Loop, Concat, Kept, Start, At;
    var p, s := CommonFront(l, r, 0), CommonBack(l, r, 0);
    var c := Loop(l, r, Start(l, r));
    var t := LoopEnded(l, r);
    StartKept(l, r);
    LoopKeeps(l, r, Start(l, r));
    EndedAt(l, r, c, t, p, s);
    FrontHere(l, r, p);
    BackHere(l, r, s);
  }

  // ---- A left text that is a prefix -------------------------------------------------

  /** The segments of a prefix, all but the last, are those of the whole text. */
  lemma {:induction false} CutOfPrefix(pending: string, opener: Option<char>, a: string, b: string)
    requires a <= b
    ensures var u := Cut(pending, opener, a);
            u != [] ==> u[..|u| - 1] <= Cut(pending, opener, b)
    decreases |a|
  {
    if a != "" {
      var c := a[0];
      assert b[0] == c && a[1..] <= b[1..];
      if opener.None? && IsOpener(c) {
        CutOfPrefix([c], Some(c), a[1..], b[1..]);
        FrontThen(TextUnlessEmpty(pending), Cut([c], Some(c), a[1..]), Cut([c], Some(c), b[1..]));
      } else if opener.Some? && IsCloser(opener.value, c) {
        CutOfPrefix("", None, a[1..], b[1..]);
        FrontThen([Segment(Marker, pending + [c])], Cut("", None, a[1..]), Cut("", None, b[1..]));
      } else {
        CutOfPrefix(pending + [c], opener, a[1..], b[1..]);
      }
    }
  }

  lemma FrontThen(h: seq<Segment>, u: seq<Segment>, v: seq<Segment>)
    requires u != [] ==> u[..|u| - 1] <= v
    requires |h| <= 1
    ensures h + u != [] ==> (h + u)[..|h + u| - 1] <= h + v
  {
    if u != [] {
      assert (h + u)[..|h + u| - 1] == h + u[..|u| - 1];
    }
  }

  lemma PrefixSegments(left: string, right: string)
    requires left <= right
    ensures |Segments(left)| <= CommonFront(Segments(left), Segments(right), 0) + 1
  {
    hide Cut;
    CutOfPrefix("", None, left, right);
    var l, r := Segments(left), Segments(right);
    if l != [] {
      var n := |l| - 1;
      assert l[..n] == r[..n];
      CommonFrom(l, r, 0, n);
    }
  }

  lemma {:induction false} CommonFrom(l: seq<Segment>, r: seq<Segment>, k: nat, n: nat)
    requires k <= n <= |l| && n <= |r| && l[..n] == r[..n]
    ensures CommonFront(l, r, k) >= n
    decreases n - k
  {
    if k < n {
      assert l[k] == l[..n][k] && r[k] == r[..n][k];
      CommonFrom(l, r, k + 1, n);
    }
  }

  // ---- The split in terms of the common ends ----------------------------------------

  lemma SplitAt(l: Segs, r: Segs, c: Cursor, p: nat, s: nat)
    requires InRange(l, r, c) && p + s < Min(|l|, |r|) && At(l, r, c, p, s)
    requires c.ls == c.rs == p && c.le == |l| - 1 - s && c.re == |r| - 1 - s
    ensures SplitFrom(l, r, c) == CharTaken(l, r, p, s)
  {
    hide CharSplit, Concat, Remainder;
  }

  lemma CharTakenConserves(l: seq<Segment>, r: seq<Segment>, p: nat, s: nat, left: string, right: string)
    requires p + s <= |l| && p + s <= |r| && Conserves(Taken(l, r, p, s), left, right)
    ensures Conserves(CharTaken(l, r, p, s), left, right) && Conserves(TakenFurther(l, r, p, s), left, right)
  {
    hide CharSplit, Taken, TextFirst, TextLast, Longest, Conserves;
    var d := Taken(l, r, p, s);
    var front, back := TextFirst(l[p..|l| - s], r[p..|r| - s]), TextLast(l[p..|l| - s], r[p..|r| - s]);
    CharSplitConserves(d.prefix, d.suffix, d.left, d.right, front, back);
    PartsConserved(d, left, right);
    LongestConserves(d, front, back, left, right);
  }

  /** Something is left of both sides: the loop takes all common segments. */
  lemma BothLeftDiff(left: string, right: string)
    requires Segments(left) != [] && Segments(right) != []
    requires var l, r := Segments(left), Segments(right);
             CommonFront(l, r, 0) + CommonBack(l, r, 0) < Min(|l|, |r|)
    ensures var l, r := Segments(left), Segments(right);
            var p, s := CommonFront(l, r, 0), CommonBack(l, r, 0);
            && DiffOf(left, right) == WholeLeft(CharTaken(l, r, p, s), left, right)
            && Promised(left, right) == WholeLeft(TakenFurther(l, r, p, s), left, right)
  {
    hide CommonFront, CommonBack, Loop, Tail, Concat, Segments, Start, SplitFrom, At, Adjust, WholeLeft, Conserves,
      CharTaken, TakenFurther;
    var l, r := Segments(left), Segments(right);
    var p, s := CommonFront(l, r, 0), CommonBack(l, r, 0);
    BothLeft(l, r);
    SplitAt(l, r, Loop(l, r, Start(l, r)), p, s);
    TakenOf(left, right, p, s);
    CharTakenConserves(l, r, p, s, left, right);
    WholeConserved(CharTaken(l, r, p, s), left, right);
  }

  /** The common ends cover one side, which the loop and the step behind it use up. */
  lemma UsedUpDiff(left: string, right: string) returns (f: nat, g: nat)
    requires Segments(left) != [] && Segments(right) != [] && !DoubleCounts(left, right) && left != right
    requires var l, r := Segments(left), Segments(right);
             CommonFront(l, r, 0) + CommonBack(l, r, 0) >= Min(|l|, |r|)
    ensures var l, r := Segments(left), Segments(right);
            && f <= CommonFront(l, r, 0) && g <= CommonBack(l, r, 0) && f + g == Min(|l|, |r|)
            && DiffOf(left, right) == WholeLeft(Taken(l, r, f, g), left, right)
            && (f == CommonFront(l, r, 0) <==> SegmentRoom(l, r) || left <= right)
  {
    hide CommonFront, CommonBack, Loop, Tail, Concat, CharSplit, Segments, Start, Conserves, Adjust, WholeLeft,
      SegmentRoom, Taken, SplitFrom, CountsTwice, DoubleCounts;
    var l, r := Segments(left), Segments(right);
    UnequalSides(left, right);
    var p := CommonFront(l, r, 0);
    if CountsTwice(l, r, Loop(l, r, Start(l, r))) {
      CountedTwiceRepaired(left, right);
      f, g := p, Min(|l|, |r|) - p;
      WholeTaken(left, right, f, g);
    } else {
      f, g := SideUsedUp(l, r);
      TakenOf(left, right, f, g);
      WholeConserved(Taken(l, r, f, g), left, right);
      if left <= right {
        WholeTaken(left, right, f, g);
        f, g := p, Min(|l|, |r|) - p;
        WholeTaken(left, right, f, g);
      }
    }
  }

  lemma TakenOf(left: string, right: string, f: nat, g: nat)
    requires var l, r := Segments(left), Segments(right);
             f <= CommonFront(l, r, 0) && g <= CommonBack(l, r, 0) && f + g <= |l| && f + g <= |r|
    ensures Conserves(Taken(Segments(left), Segments(right), f, g), left, right)
  {
    hide CommonFront, CommonBack, Concat, Segments, Conserves;
    SegmentsConserve(left);
    SegmentsConserve(right);
    TakenConserves(Segments(left), Segments(right), f, g);
  }

  /** A prefix that is all shared is the prefix of the split. */
  lemma WholeTaken(left: string, right: string, f: nat, g: nat)
    requires var l, r := Segments(left), Segments(right);
             f <= CommonFront(l, r, 0) && g <= CommonBack(l, r, 0) && f + g == Min(|l|, |r|)
    requires left <= right
    ensures WholeLeft(Taken(Segments(left), Segments(right), f, g), left, right)
         == Split(left, "", "", right[|left|..])
  {
    hide CommonFront, CommonBack, Concat, Segments, Conserves;
    var l, r := Segments(left), Segments(right);
    TakenOf(left, right, f, g);
    var d := Taken(l, r, f, g);
    PartsConserved(d, left, right);
    if f + g == |l| {
      assert l[f..|l| - g] == [];
    } else {
      assert r[f..|r| - g] == [];
    }
    assert Concat([]) == "" by { NothingConcat(); }
    assert d.left == "";
  }

  lemma NothingConcat()
    ensures Concat([]) == ""
  {
  }

  /** Different texts whose common segments cover a side do not have equally many. */
  lemma UnequalSides(left: string, right: string)
    requires left != right
    requires var l, r := Segments(left), Segments(right);
             CommonFront(l, r, 0) + CommonBack(l, r, 0) >= Min(|l|, |r|)
    ensures |Segments(left)| != |Segments(right)|
  {
    hide CommonFront, CommonBack, Concat, Segments, Conserves;
    var l, r := Segments(left), Segments(right);
    if |l| == |r| {
      var p := CommonFront(l, r, 0);
      var g := |l| - p;
      TakenOf(left, right, p, g);
      assert l[p..|l| - g] == r[p..|r| - g];
      PartsConserved(Taken(l, r, p, g), left, right);
      assert false;
    }
  }

  lemma CountedTwiceRepaired(left: string, right: string)
    requires Segments(left) != [] && Segments(right) != [] && !DoubleCounts(left, right)
    requires var l, r := Segments(left), Segments(right);
             CountsTwice(l, r, Loop(l, r, Start(l, r)))
    ensures left <= right && DiffOf(left, right) == Split(left, "", "", right[|left|..])
  {
    hide CommonFront, CommonBack, Loop, Tail, Concat, Segments, Start, SplitFrom, TailMatches, Kept,
      Halved, MatchedAgain;
    var l, r := Segments(left), Segments(right);
    var c := Loop(l, r, Start(l, r));
    CountsTwiceExactly(l, r);
    RepairedExactly(l, r, left, right);
    StartKept(l, r);
    LoopKeeps(l, r, Start(l, r));
    NoneEmpty(left);
    NoneEmpty(right);
    LeftCountedTwice(l, r, c);
  }

  // ---- When the promise is kept -----------------------------------------------------

  lemma {:induction false} MoreSegmentsLonger(s: seq<Segment>, i: nat, j: nat)
    requires i <= j <= |s| && NonEmptySegments(s)
    ensures Concat(s[..i]) <= Concat(s[..j]) && (i < j ==> |Concat(s[..i])| < |Concat(s[..j])|)
    decreases j - i
  {
    hide Concat;
    if i < j {
      MoreSegmentsLonger(s, i, j - 1);
      ConcatOne(s, j - 1);
    }
  }

  lemma UsedUpPromise(left: string, right: string)
    requires Segments(left) != [] && Segments(right) != [] && !DoubleCounts(left, right) && left != right
    requires var l, r := Segments(left), Segments(right);
             CommonFront(l, r, 0) + CommonBack(l, r, 0) >= Min(|l|, |r|)
    ensures DiffOf(left, right) == Promised(left, right) <==>
            SegmentRoom(Segments(left), Segments(right)) || left <= right
    ensures Concat(Segments(left)[..CommonFront(Segments(left), Segments(right), 0)]) <= DiffOf(left, right).prefix <==>
            SegmentRoom(Segments(left), Segments(right)) || left <= right
  {
    hide CommonFront, CommonBack, Concat, Segments, Conserves, SegmentRoom, DiffOf, DoubleCounts, Aligned;
    var l, r := Segments(left), Segments(right);
    var p := CommonFront(l, r, 0);
    var f, g := UsedUpDiff(left, right);
    AlignedUsedUp(l, r);
    NoneEmpty(left);
    MoreSegmentsLonger(l, f, p);
    MoreSegmentsLonger(l, p, |l|);
    assert l[..|l|] == l;
    SegmentsConserve(left);
  }

  /** Behind common segments, a left text that is a prefix has only text left. */
  lemma PrefixRest(left: string, right: string)
    requires left <= right
    requires var l, r := Segments(left), Segments(right);
             CommonFront(l, r, 0) + CommonBack(l, r, 0) < Min(|l|, |r|)
    ensures var l, r := Segments(left), Segments(right);
            var d := Taken(l, r, CommonFront(l, r, 0), CommonBack(l, r, 0));
            d.suffix == "" && d.left <= d.right
  {
    hide CommonFront, CommonBack, Concat, Segments, Conserves;
    var l, r := Segments(left), Segments(right);
    var p, s := CommonFront(l, r, 0), CommonBack(l, r, 0);
    PrefixSegments(left, right);
    assert s == 0 && l[|l|..] == [];
    NothingConcat();
    TakenOf(left, right, p, s);
    var d := Taken(l, r, p, s);
    PartsConserved(d, left, right);
    assert d.prefix + d.left == left && d.prefix + d.right == right by { NothingBehind(d, left, right); }
    assert d.left == left[|d.prefix|..] && d.right == right[|d.prefix|..];
  }

  lemma NothingBehind(d: Split, left: string, right: string)
    requires d.prefix + d.left + d.suffix == left && d.prefix + d.right + d.suffix == right && d.suffix == ""
    ensures d.prefix + d.left == left && d.prefix + d.right == right
  {
  }

  lemma BothLeftPromise(left: string, right: string)
    requires Segments(left) != [] && Segments(right) != []
    requires var l, r := Segments(left), Segments(right);
             CommonFront(l, r, 0) + CommonBack(l, r, 0) < Min(|l|, |r|)
    ensures DiffOf(left, right) == Promised(left, right) <==>
            CharRoom(Segments(left), Segments(right)) || left <= right
    ensures Concat(Segments(left)[..CommonFront(Segments(left), Segments(right), 0)]) <= DiffOf(left, right).prefix
  {
    hide CommonFront, CommonBack, Concat, Segments, DiffOf, Promised, CharTaken, TakenFurther, EndsApart, Taken;
    var l, r := Segments(left), Segments(right);
    var p, s := CommonFront(l, r, 0), CommonBack(l, r, 0);
    BothLeftDiff(left, right);
    TakenExactly(l, r, p, s);
    assert Concat(l[..p]) == Taken(l, r, p, s).prefix by { TakenPrefix(l, r, p, s); }
    NoneEmpty(left);
    MoreSegmentsLonger(l, p, |l|);
    assert l[..|l|] == l;
    SegmentsConserve(left);
    if left <= right {
      PrefixRest(left, right);
      TakenWhole(l, r, p, s);
    } else {
      TakenOf(left, right, p, s);
      CharTakenConserves(l, r, p, s, left, right);
      WholeConserved(CharTaken(l, r, p, s), left, right);
      WholeConserved(TakenFurther(l, r, p, s), left, right);
    }
  }

  lemma TakenPrefix(l: seq<Segment>, r: seq<Segment>, p: nat, s: nat)
    requires p + s <= |l| && p + s <= |r|
    ensures Taken(l, r, p, s).prefix == Concat(l[..p])
  {
  }

  lemma TakenExactly(l: seq<Segment>, r: seq<Segment>, p: nat, s: nat)
    requires p + s <= |l| && p + s <= |r|
    ensures CharTaken(l, r, p, s) == TakenFurther(l, r, p, s) <==> EndsApart(l, r, p, s)
    ensures Taken(l, r, p, s).prefix <= CharTaken(l, r, p, s).prefix
  {
    hide CharSplit, Longest, TextFirst, TextLast, Concat, FrontLen, BackLen;
    var front, back := TextFirst(l[p..|l| - s], r[p..|r| - s]), TextLast(l[p..|l| - s], r[p..|r| - s]);
    CharExactly(Taken(l, r, p, s), front, back);
    GoesOn(Taken(l, r, p, s), front, back);
  }

  /** With the suffix or the prefix first, a prefix is all taken if any of it is. */
  lemma TakenWhole(l: seq<Segment>, r: seq<Segment>, p: nat, s: nat)
    requires p + s <= |l| && p + s <= |r| && Taken(l, r, p, s).left <= Taken(l, r, p, s).right
    ensures (CharTaken(l, r, p, s).left == "" && TakenFurther(l, r, p, s).left == "")
         || CharTaken(l, r, p, s) == TakenFurther(l, r, p, s)
  {
    hide CharSplit, Longest, TextFirst, TextLast, Taken;
    var d := Taken(l, r, p, s);
    var front, back := TextFirst(l[p..|l| - s], r[p..|r| - s]), TextLast(l[p..|l| - s], r[p..|r| - s]);
    if front {
      PrefixRestSplit(d, back);
    } else {
      OneEnd(d, front, back);
    }
  }

  lemma EmptyPromise(left: string, right: string)
    requires Segments(left) == [] || Segments(right) == []
    ensures DiffOf(left, right) == Promised(left, right) && !DoubleCounts(left, right)
    ensures SegmentRoom(Segments(left), Segments(right)) && CharRoom(Segments(left), Segments(right))
    ensures CommonFront(Segments(left), Segments(right), 0) == 0
  {
    hide Segments, Aligned, CharRoom, Concat;
    var l, r := Segments(left), Segments(right);
    SegmentsConserve(left);
    SegmentsConserve(right);
    AlignedUsedUp(l, r);
    assert l[0..|l|] == l && r[0..|r|] == r && l[..0] == [] && l[|l|..] == [];
    NothingConcat();
  }

  lemma EqualPromise(text: string)
    requires Segments(text) != []
    ensures DiffOf(text, text) == Promised(text, text) == Split(text, "", "", "") && !DoubleCounts(text, text)
  {
    hide Segments, DiffOf, CommonFront, CommonBack, Concat;
    var l := Segments(text);
    NoSegments(text);
    EqualTextsMatch(text);
    CommonFrom(l, l, 0, |l|);
    AlignedUsedUp(l, l);
    WholeTaken(text, text, |l|, 0);
    assert text[|text|..] == "";
  }

  lemma DoubleCountsCovers(left: string, right: string)
    requires DoubleCounts(left, right)
    ensures var l, r := Segments(left), Segments(right);
            CommonFront(l, r, 0) + CommonBack(l, r, 0) >= Min(|l|, |r|)
  {
    hide CommonFront, CommonBack, Segments, MatchedAgain;
  }

  /** For all pairs of texts, the split is the documented one exactly when no segment is counted
      twice, and the left text is a prefix of the right one or the common segments, and the common
      characters of what they leave, do not get in each other's way. */
  lemma PromiseExactly(left: string, right: string)
    ensures var l, r := Segments(left), Segments(right);
            DiffOf(left, right) == Promised(left, right) <==>
            !DoubleCounts(left, right) && (left <= right || (SegmentRoom(l, r) && CharRoom(l, r)))
  {
    hide CommonFront, CommonBack, Concat, Segments, DiffOf, Promised, DoubleCounts;
    var l, r := Segments(left), Segments(right);
    ConservedExactly(left, right);
    PromisedConserves(left, right);
    if l == [] || r == [] {
      EmptyPromise(left, right);
    } else if left == right {
      EqualPromise(left);
    } else if CommonFront(l, r, 0) + CommonBack(l, r, 0) < Min(|l|, |r|) {
      BothLeftPromise(left, right);
      if DoubleCounts(left, right) {
        DoubleCountsCovers(left, right);
        assert false;
      }
    } else if !DoubleCounts(left, right) {
      UsedUpPromise(left, right);
      AlignedUsedUp(l, r);
    }
  }

  /** Where no segment is counted twice, all common leading segments are in the prefix exactly
      when the left text is a prefix, or the common segments leave room for it. */
  lemma FrontKeptExactly(left: string, right: string)
    requires !DoubleCounts(left, right)
    ensures var l, r := Segments(left), Segments(right);
            Concat(l[..CommonFront(l, r, 0)]) <= DiffOf(left, right).prefix <==> SegmentRoom(l, r) || left <= right
  {
    hide CommonFront, CommonBack, Concat, Segments, DiffOf, Promised, DoubleCounts;
    var l, r := Segments(left), Segments(right);
    if l == [] || r == [] {
      EmptyPromise(left, right);
      NothingConcat();
      assert l[..0] == [];
    } else if left == right {
      EqualPromise(left);
      NoneEmpty(left);
      MoreSegmentsLonger(l, CommonFront(l, r, 0), |l|);
      assert l[..|l|] == l;
      SegmentsConserve(left);
    } else if CommonFront(l, r, 0) + CommonBack(l, r, 0) < Min(|l|, |r|) {
      BothLeftPromise(left, right);
    } else {
      UsedUpPromise(left, right);
    }
  }

  /** `<a><a>` against `<a>`: the marker both start with is taken for the suffix. */
  lemma MarkerMissed()
    ensures var left, right := "<a><a>", "<a>";
            && CommonFront(Segments(left), Segments(right), 0) == 1
            && !DoubleCounts(left, right)
            && DiffOf(left, right) == Split("", "<a>", "<a>", "")
  {
    hide Segments, Loop, Concat, CharSplit;
    CutMarker("<a><a>", "<a>", "<a>");
    CutMarker("<a>", "<a>", "");
    NoText();
    var a := Segment(Marker, "<a>");
    var l: Segs, r: Segs := [a, a], [a];
    assert Segments("<a><a>") == l && Segments("<a>") == r;
    var d := Tail(l, r, Start(l, r));
    assert d == Cursor("", "<a>", 0, 0, 0, 0, false, true) by { assert "<a>" + "" == "<a>"; }
    DoneRemainder(r, 0);
    assert Remainder(l, 0, 0, false) == "<a>" by { ConcatSingle(a); assert l[0..1] == [a]; }
    NothingCommon("", "<a>", "<a>", "", false, false);
    assert Loop(l, r, Start(l, r)) == Start(l, r) by { NoRound(l, r); }
    assert !("<a><a>" <= "<a>");
  }

  lemma NoRound(l: Segs, r: Segs)
    requires |r| == 1
    ensures Loop(l, r, Start(l, r)) == Start(l, r)
  {
  }

  lemma NothingTrimmed()
    ensures Trimmed(Split("", "", "aab", "aaab"), 0, 3) == Split("", "aab", "", "a")
  {
    assert "aaab"[0..1] == "a" && "aab" + "" == "aab";
  }

  /** "aa" is common, but nothing of it is in the prefix. */
  lemma PrefixMissed()
    ensures FrontLen("aab", "aaab") == 2
    ensures DiffOf("aab", "aaab") == Split("", "aab", "", "a")
  {
    hide FrontLen, BackLen, CharSplit, DiffOf, Adjust, Trimmed;
    var left, right := "aab", "aaab";
    assert left[..2] == "aa" && right[..2] == "aa";
    FrontIs(left, right, 2);
    assert left[0..] == "aab" && right[1..] == "aab";
    BackIs(left, right, 3);
    assert !("aab" <= "aaab");
    PlainDiff(left, right);
    SplitTrimmed(Split("", "", left, right));
    NothingTrimmed();
    assert right[2] != left[2];
    AdjustNothing(CharSplit("", "", left, right, true, true), left, right);
  }
}
