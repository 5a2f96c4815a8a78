/** Common ends of two texts at character level: the longest prefix and then the longest
    suffix, as documented, and the other way round, as the code takes them. */
module DiffEnds {
  import opened DiffSplit
  import opened DiffLoop
  import opened DiffConservation

  /** The length of the longest common prefix. */
  function FrontLen(left: string, right: string): (n: nat)
    ensures n <= |left| && n <= |right|
  {
    PrefixLen(left, right)
  }

  /** The length of the longest common suffix. */
  function BackLen(left: string, right: string): (n: nat)
    ensures n <= |left| && n <= |right|
  {
    SuffixLen(left, right)
  }

  /** `n` more characters for the prefix and `k` more for the suffix. */
  function Trimmed(d: Split, n: nat, k: nat): Split
    requires n + k <= |d.left| && n + k <= |d.right|
  {
    Split(d.prefix + d.left[..n], d.left[|d.left| - k..] + d.suffix,
          d.left[n..|d.left| - k], d.right[n..|d.right| - k])
  }

  /** The longest common prefix of what is left, and then the longest common suffix of the rest. */
  function Longest(d: Split, front: bool, back: bool): Split {
    var n := if front then FrontLen(d.left, d.right) else 0;
    var k := if back then BackLen(d.left[n..], d.right[n..]) else 0;
    Trimmed(d, n, k)
  }

  // ---- Longest ends -----------------------------------------------------------------

  lemma FrontChar(a: string, b: string, n: nat, k: nat)
    requires k < n <= |a| && n <= |b| && a[..n] == b[..n]
    ensures a[k] == b[k]
  {
    assert a[k] == a[..n][k] && b[k] == b[..n][k];
  }

  predicate SameBehind(a: string, b: string, k: nat)
    requires k < |a| && k < |b|
  {
    a[|a| - 1 - k] == b[|b| - 1 - k]
  }

  lemma BackChars(a: string, b: string, n: nat)
    requires n <= |a| && n <= |b| && a[|a| - n..] == b[|b| - n..]
    ensures forall k: nat :: k < n ==> SameBehind(a, b, k)
  {
    forall k: nat | k < n ensures SameBehind(a, b, k) {
      assert a[|a| - 1 - k] == a[|a| - n..][n - 1 - k] && b[|b| - 1 - k] == b[|b| - n..][n - 1 - k];
    }
  }

  lemma FrontIs(a: string, b: string, n: nat)
    requires n <= |a| && n <= |b| && a[..n] == b[..n]
    requires n < |a| && n < |b| ==> a[n] != b[n]
    ensures FrontLen(a, b) == n
  {
    var p := PrefixLen(a, b);
    hide PrefixLen;
    if p < n {
      FrontChar(a, b, n, p);
    } else if n < p {
      FrontChar(a, b, p, n);
    }
  }

  lemma BackIs(a: string, b: string, n: nat)
    requires n <= |a| && n <= |b| && a[|a| - n..] == b[|b| - n..]
    requires n < |a| && n < |b| ==> !SameBehind(a, b, n)
    ensures BackLen(a, b) == n
  {
    hide BackLen, SameBehind;
    var s := BackLen(a, b);
    BackChars(a, b, n);
    BackAgrees(a, b, s);
    BackChars(a, b, s);
    BackDiffers(a, b);
  }

  lemma FrontAgrees(a: string, b: string, n: nat)
    requires n <= FrontLen(a, b)
    ensures a[..n] == b[..n]
  {
    hide PrefixFrom;
    var p := FrontLen(a, b);
    assert a[..n] == a[..p][..n] && b[..n] == b[..p][..n];
  }

  lemma BackAgrees(a: string, b: string, n: nat)
    requires n <= BackLen(a, b)
    ensures a[|a| - n..] == b[|b| - n..]
  {
    hide SuffixFrom;
    var s := BackLen(a, b);
    assert a[|a| - n..] == a[|a| - s..][s - n..] && b[|b| - n..] == b[|b| - s..][s - n..];
  }

  lemma FrontDiffers(a: string, b: string)
    ensures var n := FrontLen(a, b); n < |a| && n < |b| ==> a[n] != b[n]
  {
    hide PrefixFrom;
  }

  lemma BackDiffers(a: string, b: string)
    ensures var n := BackLen(a, b); n < |a| && n < |b| ==> !SameBehind(a, b, n)
  {
    hide SuffixFrom;
  }

  lemma FrontOfFronts(a: string, b: string, m: nat, n: nat)
    requires m <= |a| && n <= |b|
    ensures FrontLen(a[..m], b[..n]) == Min(FrontLen(a, b), Min(m, n))
  {
    hide FrontLen;
    var k := Min(FrontLen(a, b), Min(m, n));
    FrontAgrees(a, b, k);
    FrontDiffers(a, b);
    assert a[..m][..k] == a[..k] && b[..n][..k] == b[..k];
    FrontIs(a[..m], b[..n], k);
  }

  lemma BackOfTails(a: string, b: string, p: nat)
    requires p <= |a| && p <= |b|
    ensures BackLen(a[p..], b[p..]) == Min(BackLen(a, b), Min(|a|, |b|) - p)
  {
    hide BackLen, SameBehind;
    var k := Min(BackLen(a, b), Min(|a|, |b|) - p);
    BackAgrees(a, b, k);
    BackDiffers(a, b);
    TailEnds(a, b, p, k);
    BackIs(a[p..], b[p..], k);
  }

  lemma TailEnds(a: string, b: string, p: nat, k: nat)
    requires p + k <= |a| && p + k <= |b|
    ensures a[p..][|a| - p - k..] == a[|a| - k..] && b[p..][|b| - p - k..] == b[|b| - k..]
    ensures p + k < |a| && p + k < |b| ==> (SameBehind(a[p..], b[p..], k) <==> SameBehind(a, b, k))
  {
  }

  // ---- Character level --------------------------------------------------------------

  /** What is left for the prefix when the suffix has been taken first. */
  function PrefixRoom(left: string, right: string): (n: nat)
    ensures n + BackLen(left, right) <= |left| && n + BackLen(left, right) <= |right|
    ensures n <= FrontLen(left, right)
  {
    Min(FrontLen(left, right), Min(|left|, |right|) - BackLen(left, right))
  }

  /** Suffix first. */
  lemma SplitTrimmed(d: Split)
    ensures CharSplit(d.prefix, d.suffix, d.left, d.right, true, true)
         == Trimmed(d, PrefixRoom(d.left, d.right), BackLen(d.left, d.right))
  {
    var s := BackLen(d.left, d.right);
    hide PrefixLen, SuffixLen;
    FrontOfFronts(d.left, d.right, |d.left| - s, |d.right| - s);
  }

  /** Prefix first. */
  lemma LongestTrimmed(d: Split)
    ensures var p := FrontLen(d.left, d.right);
            var s := Min(BackLen(d.left, d.right), Min(|d.left|, |d.right|) - p);
            s >= 0 && Longest(d, true, true) == Trimmed(d, p, s)
  {
    hide PrefixLen, SuffixLen;
    BackOfTails(d.left, d.right, FrontLen(d.left, d.right));
  }

  lemma TrimmedPrefix(d: Split, n: nat, k: nat)
    requires n + k <= |d.left| && n + k <= |d.right|
    ensures |Trimmed(d, n, k).prefix| == |d.prefix| + n
  {
  }

  /** The character-level finish reaches the longest common prefix exactly when prefix and
      suffix do not overlap. */
  lemma CharPrefixExactly(left: string, right: string)
    ensures |CharSplit("", "", left, right, true, true).prefix| == PrefixLen(left, right) <==>
            PrefixLen(left, right) + SuffixLen(left, right) <= Min(|left|, |right|)
  {
    hide CharSplit, Trimmed, PrefixFrom, SuffixFrom;
    var d := Split("", "", left, right);
    SplitTrimmed(d);
    TrimmedPrefix(d, PrefixRoom(left, right), BackLen(left, right));
  }

  /** Suffix first and prefix first agree exactly when the common ends do not overlap. */
  lemma CharExactly(d: Split, front: bool, back: bool)
    ensures CharSplit(d.prefix, d.suffix, d.left, d.right, front, back) == Longest(d, front, back) <==>
            (front && back ==> FrontLen(d.left, d.right) + BackLen(d.left, d.right) <= Min(|d.left|, |d.right|))
  {
    hide FrontLen, BackLen, CharSplit, Longest;
    var room := FrontLen(d.left, d.right) + BackLen(d.left, d.right) <= Min(|d.left|, |d.right|);
    if front && back {
      BothEnds(d);
    } else {
      OneEnd(d, front, back);
    }
  }

  lemma OneEnd(d: Split, front: bool, back: bool)
    requires !(front && back)
    ensures CharSplit(d.prefix, d.suffix, d.left, d.right, front, back) == Longest(d, front, back)
  {
    hide PrefixLen, SuffixLen;
    var left, right := d.left, d.right;
    assert left[0..] == left && right[0..] == right;
    assert left[..|left|] == left && right[..|right|] == right;
  }

  lemma BothEnds(d: Split)
    ensures CharSplit(d.prefix, d.suffix, d.left, d.right, true, true) == Longest(d, true, true) <==>
            FrontLen(d.left, d.right) + BackLen(d.left, d.right) <= Min(|d.left|, |d.right|)
  {
    hide FrontLen, BackLen, CharSplit, Longest, Trimmed;
    var p, s := FrontLen(d.left, d.right), BackLen(d.left, d.right);
    SplitTrimmed(d);
    LongestTrimmed(d);
    TrimmedPrefix(d, PrefixRoom(d.left, d.right), s);
    TrimmedPrefix(d, p, Min(s, Min(|d.left|, |d.right|) - p));
  }

  lemma PrefixRestSplit(d: Split, back: bool)
    requires d.left <= d.right
    ensures CharSplit(d.prefix, d.suffix, d.left, d.right, true, back).left == ""
    ensures Longest(d, true, back).left == ""
  {
    hide FrontLen, BackLen, PrefixLen, SuffixLen;
    var n := |d.left|;
    assert d.left[..n] == d.right[..n];
    FrontIs(d.left, d.right, n);
    if back {
      SplitTrimmed(d);
    } else {
      OneEnd(d, true, false);
    }
  }

  lemma GoesOn(d: Split, front: bool, back: bool)
    ensures d.prefix <= CharSplit(d.prefix, d.suffix, d.left, d.right, front, back).prefix
  {
    hide PrefixLen, SuffixLen;
  }

  lemma LongestConserves(d: Split, front: bool, back: bool, left: string, right: string)
    requires Conserves(d, left, right)
    ensures Conserves(Longest(d, front, back), left, right)
  {
    hide FrontLen, BackLen, Trimmed, Conserves;
    var n := if front then FrontLen(d.left, d.right) else 0;
    var k := if back then BackLen(d.left[n..], d.right[n..]) else 0;
    SameEnds(d.left, d.right, n, k);
    TrimmedConserves(d, n, k, left, right);
  }

  lemma TrimmedConserves(d: Split, n: nat, k: nat, left: string, right: string)
    requires Conserves(d, left, right) && n + k <= |d.left| && n + k <= |d.right|
    requires d.left[..n] == d.right[..n] && d.left[|d.left| - k..] == d.right[|d.right| - k..]
    ensures Conserves(Trimmed(d, n, k), left, right)
  {
    hide Conserves;
    PartsConserved(d, left, right);
    SideTrimmed(d.prefix, d.left, d.suffix, n, k, d.left[..n], d.left[|d.left| - k..]);
    SideTrimmed(d.prefix, d.right, d.suffix, n, k, d.left[..n], d.left[|d.left| - k..]);
    ConservesParts(Trimmed(d, n, k), left, right);
  }

  lemma SideTrimmed(prefix: string, s: string, suffix: string, n: nat, k: nat, front: string, back: string)
    requires n + k <= |s| && s[..n] == front && s[|s| - k..] == back
    ensures (prefix + front) + s[n..|s| - k] + (back + suffix) == prefix + s + suffix
  {
    ThreeParts(prefix, s, n, |s| - k, suffix);
  }

  lemma PartsConserved(d: Split, left: string, right: string)
    requires Conserves(d, left, right)
    ensures d.prefix + d.left + d.suffix == left && d.prefix + d.right + d.suffix == right
  {
  }

  lemma ConservesParts(d: Split, left: string, right: string)
    requires d.prefix + d.left + d.suffix == left && d.prefix + d.right + d.suffix == right
    ensures Conserves(d, left, right)
  {
  }

  lemma SameEnds(a: string, b: string, n: nat, k: nat)
    requires n <= FrontLen(a, b) && k <= BackLen(a[n..], b[n..])
    ensures a[..n] == b[..n] && a[|a| - k..] == b[|b| - k..]
  {
    hide FrontLen, BackLen;
    FrontAgrees(a, b, n);
    var x, y := a[n..], b[n..];
    BackAgrees(x, y, k);
    assert x[|x| - k..] == a[|a| - k..] && y[|y| - k..] == b[|b| - k..];
  }

  lemma NoEnds(d: Split)
    ensures Longest(d, false, false) == d
  {
  }
}
