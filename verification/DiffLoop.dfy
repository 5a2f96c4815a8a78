/** The segment loop of the diff in closed form: how many segments it takes from each end,
    and which sides it uses up. */
module DiffLoop {
  import opened MarkerSegments
  import opened DiffSplit

  function Min(a: int, b: int): int {
    if a < b then a else b
  }

  /** How many leading segments agree, the first `n` aside. */
  function CommonFront(l: seq<Segment>, r: seq<Segment>, n: nat): (m: nat)
    requires n <= |l| && n <= |r|
    ensures n <= m <= |l| && m <= |r|
    ensures m < |l| && m < |r| ==> l[m] != r[m]
    decreases |l| - n
  {
    if n < |l| && n < |r| && l[n] == r[n] then CommonFront(l, r, n + 1) else n
  }

  /** How many trailing segments agree, the last `n` aside. */
  function CommonBack(l: seq<Segment>, r: seq<Segment>, n: nat): (m: nat)
    requires n <= |l| && n <= |r|
    ensures n <= m <= |l| && m <= |r|
    ensures m < |l| && m < |r| ==> l[|l| - 1 - m] != r[|r| - 1 - m]
    decreases |l| - n
  {
    if n < |l| && n < |r| && l[|l| - 1 - n] == r[|r| - 1 - n] then CommonBack(l, r, n + 1) else n
  }

  lemma {:induction false} LeadingAgree(l: seq<Segment>, r: seq<Segment>, n: nat, k: nat)
    requires n <= |l| && n <= |r| && n <= k < CommonFront(l, r, n)
    ensures l[k] == r[k]
    decreases |l| - n
  {
    if n < k {
      LeadingAgree(l, r, n + 1, k);
    }
  }

  lemma {:induction false} TrailingAgree(l: seq<Segment>, r: seq<Segment>, n: nat, k: nat)
    requires n <= |l| && n <= |r| && n <= k < CommonBack(l, r, n)
    ensures l[|l| - 1 - k] == r[|r| - 1 - k]
    decreases |l| - n
  {
    if n < k {
      TrailingAgree(l, r, n + 1, k);
    }
  }

  lemma FrontHere(l: Segs, r: Segs, i: nat)
    requires i <= CommonFront(l, r, 0) && i < |l| && i < |r|
    ensures l[i] == r[i] <==> i < CommonFront(l, r, 0)
  {
    if i < CommonFront(l, r, 0) {
      LeadingAgree(l, r, 0, i);
    }
  }

  lemma BackHere(l: Segs, r: Segs, i: nat)
    requires i <= CommonBack(l, r, 0) && i < |l| && i < |r|
    ensures l[|l| - 1 - i] == r[|r| - 1 - i] <==> i < CommonBack(l, r, 0)
  {
    if i < CommonBack(l, r, 0) {
      TrailingAgree(l, r, 0, i);
    }
  }

  /** The loop after `t` rounds, `p` and `s` segments agreeing in front and behind: one from
      each end a round, as long as they agree. */
  predicate AfterRounds(l: Segs, r: Segs, c: Cursor, t: nat, p: nat, s: nat) {
    && InRange(l, r, c) && !c.lDone && !c.rDone
    && c.ls == c.rs == Min(t, p)
    && |l| - 1 - c.le == |r| - 1 - c.re == Min(t, s)
    && Open(l, r, t, p, s)
  }

  /** Before round `t` both sides had more than one segment left. */
  predicate Open(l: Segs, r: Segs, t: nat, p: nat, s: nat) {
    t > 0 ==> Min(t - 1, p) + Min(t - 1, s) < Min(|l|, |r|) - 1
  }

  /** The loop has ended after `t` rounds: it is stuck, or a side has at most one segment left;
      a side is done when none is. */
  predicate Ended(l: Segs, r: Segs, c: Cursor, t: nat, p: nat, s: nat) {
    var f, g, m := Min(t, p), Min(t, s), Min(|l|, |r|);
    && InRange(l, r, c)
    && c.ls == c.rs == f
    && c.lDone == (f + g == |l|) && c.rDone == (f + g == |r|)
    && c.le == |l| - g - (if c.lDone then 0 else 1)
    && c.re == |r| - g - (if c.rDone then 0 else 1)
    && f + g <= m
    && ((f == p && g == s) || f + g >= m - 1)
    && Open(l, r, t, p, s)
  }

  lemma {:induction false} LoopFrom(l: Segs, r: Segs, c: Cursor, t: nat, p: nat, s: nat) returns (n: nat)
    requires p == CommonFront(l, r, 0) && s == CommonBack(l, r, 0) && AfterRounds(l, r, c, t, p, s)
    ensures Ended(l, r, Loop(l, r, c), n, p, s)
    decreases c.le - c.ls + c.re - c.rs
  {
    hide CommonFront, CommonBack, MatchStart, MatchEnd, Ended, AfterRounds;
    n := t;
    assert InRange(l, r, c) by { RoundsInRange(l, r, c, t, p, s); }
    if Test(c) {
      RoundFrom(l, r, c, t, p, s);
      var d := MatchEnd(l, r, MatchStart(l, r, c));
      if d != c {
        if Test(d) {
          n := LoopFrom(l, r, d, t + 1, p, s);
        } else {
          n := t + 1;
        }
      }
    } else {
      NothingLeft(l, r, c, t, p, s);
    }
  }

  lemma RoundsInRange(l: Segs, r: Segs, c: Cursor, t: nat, p: nat, s: nat)
    requires AfterRounds(l, r, c, t, p, s)
    ensures InRange(l, r, c)
  {
  }

  lemma NothingLeft(l: Segs, r: Segs, c: Cursor, t: nat, p: nat, s: nat)
    requires AfterRounds(l, r, c, t, p, s) && !Test(c)
    ensures Ended(l, r, c, t, p, s)
  {
  }

  lemma RoundFrom(l: Segs, r: Segs, c: Cursor, t: nat, p: nat, s: nat)
    requires p == CommonFront(l, r, 0) && s == CommonBack(l, r, 0) && AfterRounds(l, r, c, t, p, s)
    requires InRange(l, r, c) && Test(c)
    ensures var d := MatchEnd(l, r, MatchStart(l, r, c));
            && (d == c ==> Ended(l, r, c, t, p, s))
            && (d != c ==> d.le - d.ls + d.re - d.rs < c.le - c.ls + c.re - c.rs)
            && (d != c && Test(d) ==> AfterRounds(l, r, d, t + 1, p, s))
            && (d != c && !Test(d) ==> Ended(l, r, d, t + 1, p, s))
  {
    hide CommonFront, CommonBack, MatchStart, MatchEnd, Ended, Open;
    FrontHere(l, r, Min(t, p));
    BackHere(l, r, Min(t, s));
    RoundMoves(l, r, c, t < p, t < s);
    RoundCounts(l, r, c, MatchEnd(l, r, MatchStart(l, r, c)), t, p, s);
  }

  /** A round moves the front iterators if the front segments agree, and then those behind. */
  predicate Moved(c: Cursor, d: Cursor, front: bool, back: bool) {
    var k := if front then 1 else 0;
    && d.ls == c.ls + k && d.rs == c.rs + k
    && d.le == c.le - (if back && c.ls + k != c.le then 1 else 0)
    && d.re == c.re - (if back && c.rs + k != c.re then 1 else 0)
    && d.lDone == (c.lDone || (back && c.ls + k == c.le)) && d.rDone == (c.rDone || (back && c.rs + k == c.re))
    && (!front && !back ==> d == c)
  }

  lemma RoundMoves(l: Segs, r: Segs, c: Cursor, front: bool, back: bool)
    requires InRange(l, r, c) && Test(c)
    requires (front <==> l[c.ls] == r[c.rs]) && (back <==> l[c.le] == r[c.re])
    ensures Moved(c, MatchEnd(l, r, MatchStart(l, r, c)), front, back)
    ensures InRange(l, r, MatchEnd(l, r, MatchStart(l, r, c)))
  {
  }

  lemma RoundCounts(l: Segs, r: Segs, c: Cursor, d: Cursor, t: nat, p: nat, s: nat)
    requires AfterRounds(l, r, c, t, p, s) && Test(c) && Moved(c, d, t < p, t < s) && InRange(l, r, d)
    ensures d == c ==> Ended(l, r, c, t, p, s)
    ensures d != c ==> d.le - d.ls + d.re - d.rs < c.le - c.ls + c.re - c.rs
    ensures d != c && Test(d) ==> AfterRounds(l, r, d, t + 1, p, s)
    ensures d != c && !Test(d) ==> Ended(l, r, d, t + 1, p, s)
  {
  }

  lemma LoopEnded(l: Segs, r: Segs) returns (t: nat)
    ensures Ended(l, r, Loop(l, r, Start(l, r)), t, CommonFront(l, r, 0), CommonBack(l, r, 0))
  {
    hide CommonFront, CommonBack, Loop, Ended;
    t := LoopFrom(l, r, Start(l, r), 0, CommonFront(l, r, 0), CommonBack(l, r, 0));
  }

  /** Taking one segment from each end in turn, the last common one in front comes up while both
      sides have more than one segment left. */
  predicate FrontReached(l: seq<Segment>, r: seq<Segment>) {
    var p, s := CommonFront(l, r, 0), CommonBack(l, r, 0);
    p == 0 || p - 1 + Min(p - 1, s) < Min(|l|, |r|) - 1
  }

  lemma FrontReachedExactly(l: Segs, r: Segs)
    ensures Loop(l, r, Start(l, r)).ls == CommonFront(l, r, 0) <==> FrontReached(l, r)
  {
    hide CommonFront, CommonBack, Loop;
    var t := LoopEnded(l, r);
  }

  /** The shorter side has an even number of segments, half of them at the front of the other
      side and half of them at its end. */
  predicate Halved(l: Segs, r: Segs) {
    var m := Min(|l|, |r|);
    |l| != |r| && m % 2 == 0 && m / 2 <= CommonFront(l, r, 0) && m / 2 <= CommonBack(l, r, 0)
  }

  /** Then one side is used up in the middle, by a segment for the suffix. */
  lemma UsedUpExactly(l: Segs, r: Segs)
    ensures var c := Loop(l, r, Start(l, r));
            && (c.lDone != c.rDone <==> Halved(l, r))
            && (c.lDone && c.rDone ==> |l| == |r|)
            && (Halved(l, r) ==>
                  var h := Min(|l|, |r|) / 2;
                  && c.ls == c.rs == h && (c.lDone <==> |l| < |r|)
                  && c.le == (if |l| < |r| then h else |l| - 1 - h)
                  && c.re == (if |l| < |r| then |r| - 1 - h else h))
  {
    hide CommonFront, CommonBack, Loop;
    var t := LoopEnded(l, r);
  }
}
