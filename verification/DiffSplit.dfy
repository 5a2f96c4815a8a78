/** Splitting two texts into a common prefix, a common suffix and what differs
    (`calculate_diff_split`): the loops, their specification, and what the segment loop keeps. */
module DiffSplit {
  import opened MarkerSegments

  datatype Split = Split(prefix: string, suffix: string, left: string, right: string)

  /** The iterators of the loop: prefix and suffix so far, the first and last segment still
      unmatched on each side, and whether a side was used up by the suffix. */
  datatype Cursor = Cursor(
    prefix: string,
    suffix: string,
    ls: nat,
    le: nat,
    rs: nat,
    re: nat,
    lDone: bool,
    rDone: bool)

  type Segs = s: seq<Segment> | s != [] witness [Segment(PlainText, "x")]

  predicate InRange(l: Segs, r: Segs, c: Cursor) {
    c.ls <= c.le < |l| && c.rs <= c.re < |r|
  }

  predicate Test(c: Cursor) {
    c.ls != c.le && c.rs != c.re
  }

  function MatchStart(l: Segs, r: Segs, c: Cursor): (d: Cursor)
    requires InRange(l, r, c) && Test(c)
    ensures InRange(l, r, d)
  {
    if l[c.ls] == r[c.rs] then c.(prefix := c.prefix + l[c.ls].value, ls := c.ls + 1, rs := c.rs + 1) else c
  }

  function MatchEnd(l: Segs, r: Segs, c: Cursor): (d: Cursor)
    requires InRange(l, r, c)
    ensures InRange(l, r, d)
  {
    if l[c.le] == r[c.re] then
      c.(suffix := l[c.le].value + c.suffix,
         le := if c.ls != c.le then c.le - 1 else c.le,
         lDone := c.lDone || c.ls == c.le,
         re := if c.rs != c.re then c.re - 1 else c.re,
         rDone := c.rDone || c.rs == c.re)
    else c
  }

  function Loop(l: Segs, r: Segs, c: Cursor): (d: Cursor)
    requires InRange(l, r, c)
    ensures InRange(l, r, d)
    decreases c.le - c.ls + c.re - c.rs
  {
    if !Test(c) then c
    else
      var d := MatchEnd(l, r, MatchStart(l, r, c));
      if d == c then c
      else if d.le - d.ls + d.re - d.rs < c.le - c.ls + c.re - c.rs then Loop(l, r, d)
      else d
  }

  function Start(l: Segs, r: Segs): (c: Cursor)
    ensures InRange(l, r, c)
  {
    Cursor("", "", 0, |l| - 1, 0, |r| - 1, false, false)
  }

  /** After the loop one side may be down to its last segment: match it once more. */
  function Tail(l: Segs, r: Segs, c: Cursor): (d: Cursor)
    requires InRange(l, r, c)
    ensures InRange(l, r, d)
  {
    if c.ls == c.le && c.rs != c.re then
      if l[c.ls] == r[c.re] then c.(suffix := r[c.re].value + c.suffix, re := c.re - 1, lDone := true)
      else if l[c.ls] == r[c.rs] then c.(prefix := c.prefix + r[c.rs].value, rs := c.rs + 1, lDone := true)
      else c
    else if c.rs == c.re && c.ls != c.le then
      if l[c.le] == r[c.rs] then c.(suffix := l[c.le].value + c.suffix, le := c.le - 1, rDone := true)
      else if l[c.ls] == r[c.rs] then c.(prefix := c.prefix + l[c.ls].value, ls := c.ls + 1, rDone := true)
      else c
    else if c.ls == c.le && c.rs == c.re && l[c.ls] == r[c.rs] && l[c.ls].kind == Marker then
      c.(prefix := c.prefix + r[c.rs].value, lDone := true, rDone := true)
    else c
  }

  /** How far two texts agree from the front, once the first `n` characters do. */
  function PrefixFrom(a: string, b: string, n: nat): (r: nat)
    requires n <= |a| && n <= |b|
    ensures n <= r <= |a| && r <= |b|
    ensures forall k :: n <= k < r ==> a[k] == b[k]
    ensures r < |a| && r < |b| ==> a[r] != b[r]
    decreases |a| - n
  {
    if n < |a| && n < |b| && a[n] == b[n] then PrefixFrom(a, b, n + 1) else n
  }

  lemma OneMore(a: string, b: string, n: nat)
    requires n < |a| && n < |b| && a[|a| - n..] == b[|b| - n..] && a[|a| - 1 - n] == b[|b| - 1 - n]
    ensures a[|a| - (n + 1)..] == b[|b| - (n + 1)..]
  {
    assert a[|a| - (n + 1)..] == [a[|a| - 1 - n]] + a[|a| - n..];
    assert b[|b| - (n + 1)..] == [b[|b| - 1 - n]] + b[|b| - n..];
  }

  function SuffixFrom(a: string, b: string, n: nat): (r: nat)
    requires n <= |a| && n <= |b| && a[|a| - n..] == b[|b| - n..]
    ensures n <= r <= |a| && r <= |b| && a[|a| - r..] == b[|b| - r..]
    ensures r < |a| && r < |b| ==> a[|a| - 1 - r] != b[|b| - 1 - r]
    decreases |a| - n
  {
    if n < |a| && n < |b| && a[|a| - 1 - n] == b[|b| - 1 - n] then
      OneMore(a, b, n);
      SuffixFrom(a, b, n + 1)
    else n
  }

  function PrefixLen(a: string, b: string): (n: nat)
    ensures n <= |a| && n <= |b| && a[..n] == b[..n]
    ensures n < |a| && n < |b| ==> a[n] != b[n]
  {
    PrefixFrom(a, b, 0)
  }

  function SuffixLen(a: string, b: string): (n: nat)
    ensures n <= |a| && n <= |b| && a[|a| - n..] == b[|b| - n..]
    ensures n < |a| && n < |b| ==> a[|a| - 1 - n] != b[|b| - 1 - n]
  {
    SuffixFrom(a, b, 0)
  }

  method CommonPrefixLen(left: string, right: string) returns (n: nat)
    ensures n == PrefixLen(left, right)
  {
    n := 0;
    while n < |left| && n < |right| && left[n] == right[n]
      invariant n <= |left| && n <= |right|
      invariant PrefixFrom(left, right, n) == PrefixLen(left, right)
      decreases |left| - n
    {
      n := n + 1;
    }
  }

  method CommonSuffixLen(left: string, right: string) returns (n: nat)
    ensures n == SuffixLen(left, right)
  {
    n := 0;
    while n < |left| && n < |right| && left[|left| - 1 - n] == right[|right| - 1 - n]
      invariant n <= |left| && n <= |right| && left[|left| - n..] == right[|right| - n..]
      invariant SuffixFrom(left, right, n) == SuffixLen(left, right)
      decreases |left| - n
    {
      OneMore(left, right, n);
      n := n + 1;
    }
  }

  function Remainder(s: Segs, first: nat, last: nat, done: bool): string
    requires first <= last < |s|
  {
    Concat(s[first..if done then last else last + 1])
  }

  function BothText(a: Segment, b: Segment): bool {
    a.kind == PlainText && b.kind == PlainText
  }

  /** The character-level split of what the segments left over. */
  function CharSplit(prefix: string, suffix: string, rl: string, rr: string, textPrefix: bool, textSuffix: bool)
    : Split
  {
    var sl := if textSuffix then SuffixLen(rl, rr) else 0;
    var pl := if textPrefix then PrefixLen(rl[..|rl| - sl], rr[..|rr| - sl]) else 0;
    Split(prefix + rl[..pl], rl[|rl| - sl..] + suffix, rl[pl..|rl| - sl], rr[pl..|rr| - sl])
  }

  function StartsWith(s: string, p: string): bool {
    |p| <= |s| && s[..|p|] == p
  }

  /** No difference is shown as an all-prefix split; a left text that is a prefix of the right
      one is the prefix. */
  function Adjust(d: Split, left: string, right: string): Split {
    var d := if d.left == "" && d.right == "" then d.(prefix := left, suffix := "") else d;
    if d.left == "" && d.right != "" && StartsWith(right, left)
    then d.(prefix := left, suffix := "", right := right[|left|..]) else d
  }

  function SplitFrom(l: Segs, r: Segs, c: Cursor): Split
    requires InRange(l, r, c)
  {
    CharSplit(c.prefix, c.suffix, Remainder(l, c.ls, c.le, c.lDone), Remainder(r, c.rs, c.re, c.rDone),
              BothText(r[c.rs], l[c.ls]), BothText(l[c.le], r[c.re]))
  }

  function DiffOf(left: string, right: string): Split {
    var l, r := Segments(left), Segments(right);
    if l == [] then Split("", "", "", right)
    else if r == [] then Split("", "", left, "")
    else Adjust(SplitFrom(l, r, Tail(l, r, Loop(l, r, Start(l, r)))), left, right)
  }

  method CalculateDiffSplit(left: string, right: string) returns (result: Split)
    ensures result == DiffOf(left, right)
  {
    hide Segments, Concat, PrefixLen, SuffixLen, CharSplit, Loop, Start, Tail, Adjust, BothText;
    var l := SegmentizeMarkers(left);
    var r := SegmentizeMarkers(right);
    if l == [] {
      return Split("", "", "", right);
    }
    if r == [] {
      return Split("", "", left, "");
    }
    var c := MatchEnds(l, r);
    c := MatchLast(l, r, c);
    var rl := Accumulate(l, c.ls, if c.lDone then c.le else c.le + 1);
    var rr := Accumulate(r, c.rs, if c.rDone then c.re else c.re + 1);
    result := SplitChars(c.prefix, c.suffix, rl, rr, BothText(r[c.rs], l[c.ls]), BothText(l[c.le], r[c.re]));
    result := AdjustSplit(result, left, right);
  }

  method AdjustSplit(d: Split, left: string, right: string) returns (result: Split)
    ensures result == Adjust(d, left, right)
  {
    result := d;
    if result.left == "" && result.right == "" {
      result := result.(prefix := left, suffix := "");
    }
    if result.left == "" && result.right != "" && |left| <= |right| && right[..|left|] == left {
      result := result.(prefix := left, suffix := "", right := right[|left|..]);
    }
  }

  /** The loop over both ends. */
  method MatchEnds(l: Segs, r: Segs) returns (c: Cursor)
    ensures c == Loop(l, r, Start(l, r)) && InRange(l, r, c)
  {
    hide MatchStart, MatchEnd;
    c := Start(l, r);
    var advanced := true;
    while c.ls != c.le && c.rs != c.re && advanced
      invariant InRange(l, r, c)
      invariant (if advanced then Loop(l, r, c) else c) == Loop(l, r, Start(l, r))
      decreases c.le - c.ls + c.re - c.rs, advanced
    {
      c, advanced := MatchRound(l, r, c);
    }
  }

  /** One round: a match at the front, then a match at the back. */
  method MatchRound(l: Segs, r: Segs, c: Cursor) returns (d: Cursor, advanced: bool)
    requires InRange(l, r, c) && Test(c)
    ensures d == MatchEnd(l, r, MatchStart(l, r, c))
    ensures if advanced then d.le - d.ls + d.re - d.rs < c.le - c.ls + c.re - c.rs else d == c
  {
    d, advanced := c, false;
    if l[d.ls] == r[d.rs] {
      d := d.(prefix := d.prefix + l[d.ls].value, ls := d.ls + 1, rs := d.rs + 1);
      advanced := true;
    }
    if l[d.le] == r[d.re] {
      var suffix := l[d.le].value + d.suffix;
      if d.ls != d.le { d := d.(le := d.le - 1); } else { d := d.(lDone := true); }
      if d.rs != d.re { d := d.(re := d.re - 1); } else { d := d.(rDone := true); }
      d := d.(suffix := suffix);
      advanced := true;
    }
  }

  method MatchLast(l: Segs, r: Segs, c: Cursor) returns (d: Cursor)
    requires InRange(l, r, c)
    ensures d == Tail(l, r, c)
  {
    d := c;
    if c.ls == c.le && c.rs != c.re {
      if l[c.ls] == r[c.re] {
        d := d.(suffix := r[c.re].value + d.suffix, re := d.re - 1, lDone := true);
      } else if l[c.ls] == r[c.rs] {
        d := d.(prefix := d.prefix + r[c.rs].value, rs := d.rs + 1, lDone := true);
      }
    } else if c.rs == c.re && c.ls != c.le {
      if l[c.le] == r[c.rs] {
        d := d.(suffix := l[c.le].value + d.suffix, le := d.le - 1, rDone := true);
      } else if l[c.ls] == r[c.rs] {
        d := d.(prefix := d.prefix + l[c.ls].value, ls := d.ls + 1, rDone := true);
      }
    } else if c.ls == c.le && c.rs == c.re && l[c.ls] == r[c.rs] && l[c.ls].kind == Marker {
      d := d.(prefix := d.prefix + r[c.rs].value, lDone := true, rDone := true);
    }
  }

  lemma SliceGrows(s: seq<Segment>, first: nat, i: nat)
    requires first <= i < |s|
    ensures s[first..i + 1] == s[first..i] + [s[i]]
  {
  }

  method Accumulate(s: Segs, first: nat, end: nat) returns (text: string)
    requires first <= end <= |s|
    ensures text == Concat(s[first..end])
  {
    text := "";
    assert s[first..first] == [];
    for i := first to end
      invariant text == Concat(s[first..i])
    {
      ConcatAppend(s[first..i], [s[i]]);
      ConcatSingle(s[i]);
      SliceGrows(s, first, i);
      text := text + s[i].value;
    }
  }

  method SplitChars(prefix: string, suffix: string, rl: string, rr: string, textPrefix: bool, textSuffix: bool)
    returns (result: Split)
    ensures result == CharSplit(prefix, suffix, rl, rr, textPrefix, textSuffix)
  {
    hide PrefixLen, SuffixLen;
    var suffixLen, prefixLen := 0, 0;
    if textSuffix {
      suffixLen := CommonSuffixLen(rl, rr);
    }
    if textPrefix {
      prefixLen := CommonPrefixLen(rl[..|rl| - suffixLen], rr[..|rr| - suffixLen]);
    }
    result := Split(prefix + rl[..prefixLen], rl[|rl| - suffixLen..] + suffix,
                    rl[prefixLen..|rl| - suffixLen], rr[prefixLen..|rr| - suffixLen]);
  }

  lemma {:induction false} ConcatAppend(a: seq<Segment>, b: seq<Segment>)
    ensures Concat(a + b) == Concat(a) + Concat(b)
    decreases |a|
  {
    if a == [] {
      assert a + b == b;
    } else {
      assert (a + b)[1..] == a[1..] + b;
      ConcatAppend(a[1..], b);
    }
  }

  lemma ConcatSingle(seg: Segment)
    ensures Concat([seg]) == seg.value
  {
    assert [seg][1..] == [];
  }

  lemma ConcatOne(s: seq<Segment>, i: nat)
    requires i < |s|
    ensures Concat(s[..i + 1]) == Concat(s[..i]) + s[i].value
    ensures Concat(s[i..]) == s[i].value + Concat(s[i + 1..])
  {
    assert s[..i + 1] == s[..i] + [s[i]];
    ConcatAppend(s[..i], [s[i]]);
    ConcatSingle(s[i]);
    assert s[i..][1..] == s[i + 1..];
  }

  lemma ConcatSplit(s: seq<Segment>, i: nat, j: nat)
    requires i <= j <= |s|
    ensures Concat(s) == Concat(s[..i]) + Concat(s[i..j]) + Concat(s[j..])
  {
    hide Concat;
    assert s == s[..j] + s[j..];
    ConcatAppend(s[..j], s[j..]);
    assert s[..j] == s[..i] + s[i..j];
    ConcatAppend(s[..i], s[i..j]);
  }

  // ---- The loop ---------------------------------------------------------------------

  /** What the loop keeps on one side: the prefix and the suffix are the text of the segments
      outside the iterators, and a side is done when the suffix has its last segment too. */
  predicate SideKept(s: Segs, first: nat, last: nat, done: bool, prefix: string, suffix: string)
    requires first <= last < |s|
  {
    && prefix == Concat(s[..first])
    && (done ==> first == last)
    && suffix == Concat(s[if done then last else last + 1..])
  }

  predicate Kept(l: Segs, r: Segs, c: Cursor)
    requires InRange(l, r, c)
  {
    && SideKept(l, c.ls, c.le, c.lDone, c.prefix, c.suffix)
    && SideKept(r, c.rs, c.re, c.rDone, c.prefix, c.suffix)
    && (c.lDone || c.rDone ==> !Test(c))
    && (c.lDone && c.rDone ==> l[c.ls] == r[c.rs])
  }

  lemma RoundKeeps(l: Segs, r: Segs, c: Cursor)
    requires InRange(l, r, c) && Kept(l, r, c) && Test(c)
    ensures Kept(l, r, MatchEnd(l, r, MatchStart(l, r, c)))
  {
    hide Concat;
    ConcatOne(l, c.ls);
    ConcatOne(r, c.rs);
    ConcatOne(l, c.le);
    ConcatOne(r, c.re);
  }

  lemma {:induction false} LoopKeeps(l: Segs, r: Segs, c: Cursor)
    requires InRange(l, r, c) && Kept(l, r, c)
    ensures Kept(l, r, Loop(l, r, c))
    decreases c.le - c.ls + c.re - c.rs
  {
    hide Kept, MatchStart, MatchEnd;
    if Test(c) {
      var d := MatchEnd(l, r, MatchStart(l, r, c));
      RoundKeeps(l, r, c);
      if d != c && d.le - d.ls + d.re - d.rs < c.le - c.ls + c.re - c.rs {
        LoopKeeps(l, r, d);
      }
    }
  }

  lemma StartKept(l: Segs, r: Segs)
    ensures Kept(l, r, Start(l, r))
  {
    assert l[..0] == [] && r[..0] == [] && l[|l|..] == [] && r[|r|..] == [];
  }

  // ---- Conservation -----------------------------------------------------------------

  predicate Conserves(d: Split, left: string, right: string) {
    d.prefix + d.left + d.suffix == left && d.prefix + d.right + d.suffix == right
  }

  /** Prefix, remainders and suffix still make up both texts. */
  predicate Whole(l: Segs, r: Segs, c: Cursor)
    requires InRange(l, r, c)
  {
    && c.prefix + Remainder(l, c.ls, c.le, c.lDone) + c.suffix == Concat(l)
    && c.prefix + Remainder(r, c.rs, c.re, c.rDone) + c.suffix == Concat(r)
  }

  /** The step after the loop takes a segment for the prefix or the suffix. */
  predicate TailMatches(l: Segs, r: Segs, c: Cursor)
    requires InRange(l, r, c)
  {
    if c.ls == c.le && c.rs != c.re then l[c.ls] == r[c.re] || l[c.ls] == r[c.rs]
    else if c.rs == c.re && c.ls != c.le then l[c.le] == r[c.rs] || l[c.ls] == r[c.rs]
    else c.ls == c.le && c.rs == c.re && l[c.ls] == r[c.rs] && l[c.ls].kind == Marker
  }

  lemma SideWhole(s: Segs, first: nat, last: nat, done: bool, prefix: string, suffix: string)
    requires first <= last < |s| && SideKept(s, first, last, done, prefix, suffix)
    ensures prefix + Remainder(s, first, last, done) + suffix == Concat(s)
  {
    hide Concat;
    ConcatSplit(s, first, if done then last else last + 1);
  }

  lemma KeptIsWhole(l: Segs, r: Segs, c: Cursor)
    requires InRange(l, r, c) && Kept(l, r, c)
    ensures Whole(l, r, c)
  {
    SideWhole(l, c.ls, c.le, c.lDone, c.prefix, c.suffix);
    SideWhole(r, c.rs, c.re, c.rDone, c.prefix, c.suffix);
  }

  /** The last segment of a side goes to the prefix. */
  lemma LastToPrefix(s: Segs, i: nat, prefix: string, suffix: string)
    requires i < |s| && SideKept(s, i, i, false, prefix, suffix)
    ensures (prefix + s[i].value) + Remainder(s, i, i, true) + suffix == Concat(s)
  {
    ConcatOne(s, i);
    ConcatSplit(s, i + 1, i + 1);
    assert s[i + 1..i + 1] == [] && s[i..i] == [];
  }

  /** One more segment of a side goes to the suffix, or to the prefix. */
  lemma OneToSuffix(s: Segs, first: nat, last: nat, prefix: string, suffix: string)
    requires first <= last < |s| && SideKept(s, first, last, false, prefix, suffix)
    ensures var suffix' := s[last].value + suffix;
            if first == last then SideKept(s, first, last, true, prefix, suffix')
            else SideKept(s, first, last - 1, false, prefix, suffix')
  {
    ConcatOne(s, last);
  }

  lemma OneToPrefix(s: Segs, first: nat, last: nat, prefix: string, suffix: string)
    requires first < last < |s| && SideKept(s, first, last, false, prefix, suffix)
    ensures SideKept(s, first + 1, last, false, prefix + s[first].value, suffix)
  {
    ConcatOne(s, first);
  }

  /** A last match on open sides keeps the texts whole. */
  lemma OpenTailIsWhole(l: Segs, r: Segs, c: Cursor)
    requires InRange(l, r, c) && Kept(l, r, c) && !c.lDone && !c.rDone
    ensures Whole(l, r, Tail(l, r, c))
  {
    hide Concat, Remainder, SideKept;
    var d := Tail(l, r, c);
    if d == c {
      KeptIsWhole(l, r, c);
    } else if c.rs != c.re {
      OneSidedTail(l, r, c);
    } else if c.ls != c.le {
      OneSidedTailRight(l, r, c);
    } else {
      LastToPrefix(l, c.ls, c.prefix, c.suffix);
      LastToPrefix(r, c.rs, c.prefix, c.suffix);
    }
  }

  lemma OneSidedTail(l: Segs, r: Segs, c: Cursor)
    requires InRange(l, r, c) && Kept(l, r, c) && !c.lDone && !c.rDone
    requires c.rs != c.re && Tail(l, r, c) != c
    ensures Whole(l, r, Tail(l, r, c))
  {
    hide Concat, Remainder, SideKept;
    var d := Tail(l, r, c);
    if l[c.ls] == r[c.re] {
      OneToSuffix(l, c.ls, c.le, c.prefix, c.suffix);
      OneToSuffix(r, c.rs, c.re, c.prefix, c.suffix);
      SideWhole(l, d.ls, d.le, true, d.prefix, d.suffix);
    } else {
      LastToPrefix(l, c.ls, c.prefix, c.suffix);
      OneToPrefix(r, c.rs, c.re, c.prefix, c.suffix);
    }
    SideWhole(r, d.rs, d.re, false, d.prefix, d.suffix);
  }

  lemma OneSidedTailRight(l: Segs, r: Segs, c: Cursor)
    requires InRange(l, r, c) && Kept(l, r, c) && !c.lDone && !c.rDone
    requires c.rs == c.re && c.ls != c.le && Tail(l, r, c) != c
    ensures Whole(l, r, Tail(l, r, c))
  {
    hide Concat, Remainder, SideKept;
    var d := Tail(l, r, c);
    if l[c.le] == r[c.rs] {
      OneToSuffix(l, c.ls, c.le, c.prefix, c.suffix);
      OneToSuffix(r, c.rs, c.re, c.prefix, c.suffix);
      SideWhole(r, d.rs, d.re, true, d.prefix, d.suffix);
    } else {
      OneToPrefix(l, c.ls, c.le, c.prefix, c.suffix);
      LastToPrefix(r, c.rs, c.prefix, c.suffix);
    }
    SideWhole(l, d.ls, d.le, false, d.prefix, d.suffix);
  }
}
