/** Replacing every occurrence in a string (`string_replace_all`). */
module StringReplace {
  import opened Wrappers

  predicate Matches(s: string, q: string, p: nat) {
    p + |q| <= |s| && s[p..p + |q|] == q
  }

  predicate NoMatches(s: string, q: string, from: nat, to: nat) {
    forall p :: from <= p < to ==> !Matches(s, q, p)
  }

  /** `std::string::find`: the first match at or after `from`. */
  function Find(s: string, q: string, from: nat): (r: Option<nat>)
    requires from <= |s|
    ensures r.Some? ==> from <= r.value && Matches(s, q, r.value)
    ensures NoMatches(s, q, from, if r.Some? then r.value else |s| + 1)
    decreases |s| - from
  {
    if Matches(s, q, from) then Some(from)
    else if from == |s| then None
    else Find(s, q, from + 1)
  }

  /** Reading from the left: each match is replaced, every other character kept. */
  function Replaced(s: string, q: string, r: string): string
    requires q != ""
    decreases |s|
  {
    if s == "" then ""
    else if q <= s then r + Replaced(s[|q|..], q, r)
    else [s[0]] + Replaced(s[1..], q, r)
  }

  lemma OneCopied(s: string, q: string, r: string)
    requires q != "" && s != "" && !Matches(s, q, 0)
    ensures Replaced(s, q, r) == [s[0]] + Replaced(s[1..], q, r)
  {
  }

  lemma MatchReplaced(s: string, q: string, r: string)
    requires q != "" && Matches(s, q, 0)
    ensures Replaced(s, q, r) == r + Replaced(s[|q|..], q, r)
  {
  }

  lemma MatchesShift(s: string, q: string, from: nat, p: nat)
    requires from <= |s|
    ensures Matches(s[from..], q, p) <==> Matches(s, q, from + p)
  {
    if from + p + |q| <= |s| {
      assert s[from..][p..p + |q|] == s[from + p..from + p + |q|];
    }
  }

  /** Text without a match in front of the next one is copied. */
  lemma {:induction false} CopiedUntil(s: string, q: string, r: string, n: nat)
    requires q != "" && n <= |s| && NoMatches(s, q, 0, n)
    ensures Replaced(s, q, r) == s[..n] + Replaced(s[n..], q, r)
    decreases n
  {
    hide Replaced, Matches;
    if n == 0 {
      assert s[0..] == s;
    } else {
      OneCopied(s, q, r);
      forall p | 0 <= p < n - 1 ensures !Matches(s[1..], q, p) {
        MatchesShift(s, q, 1, p);
      }
      CopiedUntil(s[1..], q, r, n - 1);
      Recut(s, n, Replaced(s[n..], q, r));
    }
  }

  lemma Recut(s: string, n: nat, tail: string)
    requires 1 <= n <= |s|
    ensures s[1..][n - 1..] == s[n..] && [s[0]] + (s[1..][..n - 1] + tail) == s[..n] + tail
  {
    assert [s[0]] + s[1..][..n - 1] == s[..n];
  }

  /** The output so far and the replacement of the rest make up the whole result. */
  predicate SoFar(builder: string, s: string, q: string, r: string, from: nat)
    requires q != ""
  {
    from <= |s| && builder + Replaced(s[from..], q, r) == Replaced(s, q, r)
  }

  method StringReplaceAll(s: string, search: string, replace: string) returns (builder: string)
    ensures builder == if search == "" then s else Replaced(s, search, replace)
  {
    if search == "" {
      return s;
    }
    hide Replaced, Find, Matches, NoMatches, SoFar;
    builder := "";
    var lastPos := 0;
    var pos := Find(s, search, lastPos);
    NothingYet(s, search, replace);
    while pos.Some?
      invariant lastPos <= |s| && pos == Find(s, search, lastPos)
      invariant SoFar(builder, s, search, replace, lastPos)
      decreases |s| - lastPos
    {
      RoundKeeps(s, search, replace, builder, lastPos, pos.value);
      builder := builder + s[lastPos..pos.value];
      builder := builder + replace;
      lastPos := pos.value + |search|;
      pos := Find(s, search, lastPos);
    }
    RestCopied(s, search, replace, builder, lastPos);
    builder := builder + s[lastPos..];
  }

  lemma NothingYet(s: string, q: string, r: string)
    requires q != ""
    ensures SoFar("", s, q, r, 0)
  {
    hide Replaced;
    assert s[0..] == s;
  }

  lemma RoundKeeps(s: string, q: string, r: string, builder: string, from: nat, pos: nat)
    requires q != "" && from <= |s| && Find(s, q, from) == Some(pos)
    requires SoFar(builder, s, q, r, from)
    ensures from <= pos && pos + |q| <= |s|
    ensures SoFar(builder + s[from..pos] + r, s, q, r, pos + |q|)
  {
    hide Replaced, Find, Matches, NoMatches;
    OneReplaced(s, q, r, from, pos);
    Spliced(builder, s[from..pos], r, Replaced(s[pos + |q|..], q, r));
  }

  lemma Spliced(builder: string, copied: string, replace: string, tail: string)
    ensures builder + (copied + replace + tail) == builder + copied + replace + tail
  {
  }

  lemma Grouped(copied: string, replace: string, tail: string)
    ensures copied + replace + tail == copied + (replace + tail)
  {
  }

  lemma ShiftMatches(s: string, q: string, from: nat, n: nat)
    requires from <= |s| && NoMatches(s, q, from, from + n)
    ensures NoMatches(s[from..], q, 0, n)
  {
    hide Matches;
    forall p | 0 <= p < n ensures !Matches(s[from..], q, p) {
      MatchesShift(s, q, from, p);
    }
  }

  lemma OneReplaced(s: string, q: string, r: string, from: nat, pos: nat)
    requires q != "" && from <= |s| && Find(s, q, from) == Some(pos)
    ensures from <= pos && pos + |q| <= |s|
    ensures Replaced(s[from..], q, r) == s[from..pos] + r + Replaced(s[pos + |q|..], q, r)
  {
    hide Replaced, Find, Matches, NoMatches;
    FoundMeans(s, q, from, pos);
    CopiedTo(s, q, r, from, pos);
    MatchAt(s, q, r, pos);
    Grouped(s[from..pos], r, Replaced(s[pos + |q|..], q, r));
  }

  lemma CopiedTo(s: string, q: string, r: string, from: nat, pos: nat)
    requires q != "" && from <= pos <= |s| && NoMatches(s, q, from, pos)
    ensures Replaced(s[from..], q, r) == s[from..pos] + Replaced(s[pos..], q, r)
  {
    hide Replaced, Matches, NoMatches;
    ShiftMatches(s, q, from, pos - from);
    CopiedUntil(s[from..], q, r, pos - from);
    SliceTwice(s, from, pos);
  }

  lemma MatchAt(s: string, q: string, r: string, pos: nat)
    requires q != "" && pos + |q| <= |s| && Matches(s, q, pos)
    ensures Replaced(s[pos..], q, r) == r + Replaced(s[pos + |q|..], q, r)
  {
    hide Replaced, Matches;
    MatchesShift(s, q, pos, 0);
    MatchReplaced(s[pos..], q, r);
    SliceTwice(s, pos, pos + |q|);
  }

  lemma FoundMeans(s: string, q: string, from: nat, pos: nat)
    requires from <= |s| && Find(s, q, from) == Some(pos)
    ensures from <= pos && pos + |q| <= |s| && Matches(s, q, pos) && NoMatches(s, q, from, pos)
  {
  }

  lemma SliceTwice(s: string, i: nat, j: nat)
    requires i <= j <= |s|
    ensures s[i..][..j - i] == s[i..j] && s[i..][j - i..] == s[j..]
  {
  }

  lemma RestCopied(s: string, q: string, r: string, builder: string, from: nat)
    requires q != "" && from <= |s| && Find(s, q, from).None?
    requires SoFar(builder, s, q, r, from)
    ensures builder + s[from..] == Replaced(s, q, r)
  {
    hide Replaced, Find, Matches;
    NoneFound(s, q, from);
    CopiedTo(s, q, r, from, |s|);
    NothingReplaced(q, r);
    assert s[|s|..] == "";
    assert s[from..|s|] + "" == s[from..];
  }

  lemma NoneFound(s: string, q: string, from: nat)
    requires from <= |s| && Find(s, q, from).None?
    ensures NoMatches(s, q, from, |s|)
  {
    hide Matches;
  }

  lemma NothingReplaced(q: string, r: string)
    requires q != ""
    ensures Replaced("", q, r) == ""
  {
  }
}
