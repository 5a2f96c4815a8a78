/** The longest common substring (`string_lcs`): a table of common suffix lengths. */
module CommonSubstring {
  /** Length of the longest common suffix of `a[..i]` and `b[..j]`. */
  function SuffixAt(a: string, b: string, i: nat, j: nat): (n: nat)
    requires i <= |a| && j <= |b|
    ensures n <= i && n <= j
  {
    if i == 0 || j == 0 || a[i - 1] != b[j - 1] then 0 else SuffixAt(a, b, i - 1, j - 1) + 1
  }

  /** The parts of length `n` that end at `i` and at `j` agree. */
  predicate Agree(a: string, b: string, i: nat, j: nat, n: nat)
    requires i <= |a| && j <= |b|
  {
    n <= i && n <= j && a[i - n..i] == b[j - n..j]
  }

  /** The table entry bounds exactly the lengths at which the two prefixes end alike. */
  lemma {:induction false} SuffixAtMeans(a: string, b: string, i: nat, j: nat, n: nat)
    requires i <= |a| && j <= |b|
    ensures Agree(a, b, i, j, n) <==> n <= SuffixAt(a, b, i, j)
  {
    if n == 0 {
      assert a[i..i] == b[j..j];
    } else if i > 0 && j > 0 && n <= i && n <= j {
      SuffixAtMeans(a, b, i - 1, j - 1, n - 1);
      var x, y := a[i - n..i], b[j - n..j];
      assert x == a[i - n..i - 1] + [a[i - 1]] && y == b[j - n..j - 1] + [b[j - 1]];
      assert x[..n - 1] == a[i - n..i - 1] && y[..n - 1] == b[j - n..j - 1];
      assert x[n - 1] == a[i - 1] && y[n - 1] == b[j - 1];
    }
  }

  /** `s` occurs in both texts, ending at `i` and at `j`. */
  predicate OccursAt(a: string, b: string, s: string, i: nat, j: nat)
    requires i <= |a| && j <= |b|
  {
    Agree(a, b, i, j, |s|) && s == a[i - |s|..i]
  }

  /** Table entries read before entry (i, j), row by row. */
  predicate Before(i': nat, j': nat, i: nat, j: nat) {
    i' < i || (i' == i && j' < j)
  }

  /** The best length so far, where it ends in `a` for the first time, and a witness in `b`. */
  ghost predicate Best(a: string, b: string, i: nat, j: nat, len: nat, end: nat, endB: nat)
  {
    && end <= |a| && endB <= |b|
    && len == SuffixAt(a, b, end, endB)
    && (forall i': nat, j': nat :: i' <= |a| && j' <= |b| && Before(i', j', i, j) ==> SuffixAt(a, b, i', j') <= len)
    && (forall i': nat, j': nat :: i' < end && j' <= |b| ==> SuffixAt(a, b, i', j') < len)
  }

  /** The result occurs in both texts, nothing longer does, and among the longest common
      substrings it is the one that ends first in `a`. */
  method StringLcs(a: string, b: string) returns (s: string)
    ensures exists i: nat, j: nat :: i <= |a| && j <= |b| && OccursAt(a, b, s, i, j)
    ensures forall i: nat, j: nat, n: nat :: i <= |a| && j <= |b| && Agree(a, b, i, j, n) ==> n <= |s|
    ensures s != "" ==>
              exists end: nat, j: nat :: end <= |a| && j <= |b| && OccursAt(a, b, s, end, j) &&
                forall i': nat, j': nat :: i' < end && j' <= |b| ==> !Agree(a, b, i', j', |s|)
  {
    if a == "" || b == "" {
      s := "";
      assert OccursAt(a, b, s, 0, 0);
      return;
    }
    var bestLen, bestEnd;
    ghost var bestB;
    bestLen, bestEnd, bestB := FillTable(a, b);
    s := a[bestEnd - bestLen..bestEnd];
    BestMeans(a, b, bestLen, bestEnd, bestB);
  }

  /** The table loop: the best length and the first place in `a` where it ends. */
  method FillTable(a: string, b: string) returns (bestLen: nat, bestEnd: nat, ghost bestB: nat)
    requires a != "" && b != ""
    ensures Best(a, b, |a| + 1, 0, bestLen, bestEnd, bestB) && bestLen <= bestEnd
  {
    hide SuffixAt, Best;
    var dp := new nat[|a| + 1, |b| + 1]((i, j) => 0);
    bestLen, bestEnd, bestB := 0, 0, 0;
    NothingRead(a, b);
    var i := 1;
    while i <= |a|
      invariant 1 <= i <= |a| + 1
      invariant forall i', j' :: 0 <= i' < i && 0 <= j' <= |b| ==> dp[i', j'] == SuffixAt(a, b, i', j')
      invariant forall i', j' :: i <= i' <= |a| && 0 <= j' <= |b| ==> dp[i', j'] == 0
      invariant Best(a, b, i, 0, bestLen, bestEnd, bestB) && bestLen <= bestEnd
    {
      BestAcross(a, b, i, bestLen, bestEnd, bestB);
      Entry(a, b, i, 0);
      var j := 1;
      while j <= |b|
        invariant 1 <= j <= |b| + 1
        invariant forall i', j' :: 0 <= i' < i && 0 <= j' <= |b| ==> dp[i', j'] == SuffixAt(a, b, i', j')
        invariant forall j' :: 0 <= j' < j ==> dp[i, j'] == SuffixAt(a, b, i, j')
        invariant forall i', j' :: i <= i' <= |a| && 0 <= j' <= |b| && (i' > i || j' >= j) ==> dp[i', j'] == 0
        invariant Best(a, b, i, j, bestLen, bestEnd, bestB)
      {
        Entry(a, b, i, j);
        BestAfter(a, b, i, j, bestLen, bestEnd, bestB);
        if a[i - 1] == b[j - 1] {
          dp[i, j] := dp[i - 1, j - 1] + 1;
          if dp[i, j] > bestLen {
            bestLen := dp[i, j];
            bestEnd := i;
            bestB := j;
          }
        }
        j := j + 1;
      }
      BestDown(a, b, i, bestLen, bestEnd, bestB);
      i := i + 1;
    }
  }

  lemma Entry(a: string, b: string, i: nat, j: nat)
    requires i <= |a| && j <= |b|
    ensures SuffixAt(a, b, i, j)
         == if i == 0 || j == 0 || a[i - 1] != b[j - 1] then 0 else SuffixAt(a, b, i - 1, j - 1) + 1
  {
  }

  lemma NothingRead(a: string, b: string)
    ensures Best(a, b, 1, 0, 0, 0, 0)
    ensures forall j: nat :: j <= |b| ==> SuffixAt(a, b, 0, j) == 0
  {
  }

  /** Reading entry (i, j). */
  lemma BestAfter(a: string, b: string, i: nat, j: nat, len: nat, end: nat, endB: nat)
    requires 1 <= i <= |a| && 1 <= j <= |b| && Best(a, b, i, j, len, end, endB)
    ensures var n := SuffixAt(a, b, i, j);
            if n > len then Best(a, b, i, j + 1, n, i, j) else Best(a, b, i, j + 1, len, end, endB)
  {
    hide SuffixAt;
  }

  lemma BestAcross(a: string, b: string, i: nat, len: nat, end: nat, endB: nat)
    requires 1 <= i <= |a| && Best(a, b, i, 0, len, end, endB)
    ensures Best(a, b, i, 1, len, end, endB)
  {
    Entry(a, b, i, 0);
    hide SuffixAt;
  }

  lemma BestDown(a: string, b: string, i: nat, len: nat, end: nat, endB: nat)
    requires 1 <= i <= |a| && Best(a, b, i, |b| + 1, len, end, endB)
    ensures Best(a, b, i + 1, 0, len, end, endB) && len <= end
  {
    hide SuffixAt;
  }

  lemma BestMeans(a: string, b: string, len: nat, end: nat, endB: nat)
    requires Best(a, b, |a| + 1, 0, len, end, endB) && len <= end
    ensures OccursAt(a, b, a[end - len..end], end, endB)
    ensures forall i: nat, j: nat, n: nat :: i <= |a| && j <= |b| && Agree(a, b, i, j, n) ==> n <= len
    ensures forall i: nat, j: nat :: i < end && j <= |b| ==> !Agree(a, b, i, j, len)
  {
    SuffixAtMeans(a, b, end, endB, len);
    forall i: nat, j: nat, n: nat | i <= |a| && j <= |b| && Agree(a, b, i, j, n) ensures n <= len {
      SuffixAtMeans(a, b, i, j, n);
    }
    forall i: nat, j: nat | i < end && j <= |b| ensures !Agree(a, b, i, j, len) {
      SuffixAtMeans(a, b, i, j, len);
    }
  }
}
