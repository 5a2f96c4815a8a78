/** Hexadecimal CPU masks (`parse_cpu_mask`): digits set bits of a boolean array. */
module CpuMask {
  import opened Wrappers
  import opened Ascii

  /** The digits that count: at most 128, behind an optional `0x`. */
  function Digits(mask: string): (d: string)
    ensures |d| <= 128
  {
    var start := if |mask| >= 2 && mask[..2] == "0x" then 2 else 0;
    var n := if |mask| - start > 128 then 128 else |mask| - start;
    mask[start..start + n]
  }

  predicate AllHex(d: string) {
    forall i :: 0 <= i < |d| ==> HexValue(d[i]).Some?
  }

  /** The number a row of hex digits writes. */
  function Number(d: string): (v: int)
    requires AllHex(d)
    ensures v >= 0
  {
    if d == "" then 0 else 16 * Number(d[..|d| - 1]) + HexValue(d[|d| - 1]).value
  }

  predicate Bit(v: int, k: nat)
    decreases k
  {
    if k == 0 then v % 2 == 1 else Bit(v / 2, k - 1)
  }

  /** The first `p` digits of `n`, read as the high end of an `n`-digit number. */
  predicate BitOfFirst(d: string, p: nat, k: nat)
    requires p <= |d| && AllHex(d[..p])
  {
    k >= 4 * (|d| - p) && Bit(Number(d[..p]), k - 4 * (|d| - p))
  }

  lemma DigitBits(v: int, d: int, k: nat)
    requires v >= 0 && 0 <= d < 16
    ensures Bit(16 * v + d, k) <==> if k < 4 then (d / Power(k)) % 2 == 1 else Bit(v, k - 4)
  {
    var w := 16 * v + d;
    assert w / 2 == 8 * v + d / 2 && w / 2 / 2 == 4 * v + d / 4 && w / 2 / 2 / 2 == 2 * v + d / 8;
    assert w / 2 / 2 / 2 / 2 == v;
    if k >= 1 { assert Bit(w, k) == Bit(w / 2, k - 1); }
    if k >= 2 { assert Bit(w / 2, k - 1) == Bit(w / 2 / 2, k - 2); }
    if k >= 3 { assert Bit(w / 2 / 2, k - 2) == Bit(w / 2 / 2 / 2, k - 3); }
    if k >= 4 { assert Bit(w / 2 / 2 / 2, k - 3) == Bit(w / 2 / 2 / 2 / 2, k - 4); }
  }

  function Power(k: nat): int
    requires k < 4
  {
    [1, 2, 4, 8][k]
  }

  lemma NumberSnoc(d: string, p: nat)
    requires p < |d| && AllHex(d[..p + 1])
    ensures AllHex(d[..p]) && Number(d[..p + 1]) == 16 * Number(d[..p]) + HexValue(d[p]).value
  {
    assert d[..p + 1][..p] == d[..p] && d[..p + 1][p] == d[p];
  }

  /** One more digit: its four bits join below those of the digits before it. */
  lemma NextDigit(d: string, p: nat, k: nat)
    requires p < |d| && AllHex(d[..p + 1])
    ensures AllHex(d[..p])
    ensures var low := 4 * (|d| - p - 1);
            BitOfFirst(d, p + 1, k) <==>
            (if low <= k < low + 4 then (HexValue(d[p]).value / Power(k - low)) % 2 == 1 else BitOfFirst(d, p, k))
  {
    NumberSnoc(d, p);
    var low := 4 * (|d| - p - 1);
    if k >= low {
      DigitBits(Number(d[..p]), HexValue(d[p]).value, k - low);
    }
  }

  /** On success every bit is what it was or the bit of the number; on a bad digit the digits
      in front of it have already been applied, at their places in the whole row. */
  method ParseCpuMask(mask: string, boolmask: array<bool>) returns (ok: bool)
    requires boolmask.Length == 512
    modifies boolmask
    ensures ok <==> AllHex(Digits(mask))
    ensures ok ==> forall k: nat :: k < 512 ==>
              (boolmask[k] <==> old(boolmask[k]) || Bit(Number(Digits(mask)), k))
    ensures !ok ==> exists p ::
              && 0 <= p < |Digits(mask)| && HexValue(Digits(mask)[p]).None? && AllHex(Digits(mask)[..p])
              && forall k: nat :: k < 512 ==>
                   (boolmask[k] <==> old(boolmask[k]) || BitOfFirst(Digits(mask), p, k))
  {
    hide Bit, Number, BitOfFirst, AllHex;
    var startI := 0;
    if |mask| >= 2 && mask[..2] == "0x" {
      startI := 2;
    }
    var numDigits := |mask| - startI;
    if numDigits > 128 { numDigits := 128; }
    var endI := numDigits + startI;
    ghost var d := Digits(mask);
    assert d == mask[startI..endI];
    NoBits(d);
    var i, n := startI, numDigits * 4 - 1;
    while i < endI
      invariant startI <= i <= endI && n == 4 * (endI - i) - 1
      invariant AllHex(d[..i - startI])
      invariant forall k: nat :: k < 512 ==>
                  (boolmask[k] <==> old(boolmask[k]) || BitOfFirst(d, i - startI, k))
    {
      ghost var p := i - startI;
      assert mask[i] == d[p];
      var id := HexValue(mask[i]);
      if id.None? {
        NotAllHex(d, p);
        return false;
      }
      DigitsSoFar(d, p);
      SetDigit(boolmask, n, id.value);
      forall k: nat | k < 512
        ensures boolmask[k] <==> old(boolmask[k]) || BitOfFirst(d, p + 1, k)
      {
        NextDigit(d, p, k);
        if k <= n {
          HighBitsOnly(d, p, k);
        }
      }
      i, n := i + 1, n - 4;
    }
    assert d[..numDigits] == d;
    forall k: nat | k < 512 ensures BitOfFirst(d, numDigits, k) <==> Bit(Number(d), k) {
      WholeNumber(d, k);
    }
    return true;
  }

  /** The four assignments for one digit; `n` is the place of its highest bit. */
  method SetDigit(boolmask: array<bool>, n: nat, id: int)
    requires 3 <= n < boolmask.Length && 0 <= id < 16
    modifies boolmask
    ensures forall k: nat :: k < boolmask.Length ==>
              (boolmask[k] <==> old(boolmask[k]) || (n - 3 <= k <= n && (id / Power(k - (n - 3))) % 2 == 1))
  {
    boolmask[n] := boolmask[n] || (id / 8) % 2 == 1;
    boolmask[n - 1] := boolmask[n - 1] || (id / 4) % 2 == 1;
    boolmask[n - 2] := boolmask[n - 2] || (id / 2) % 2 == 1;
    boolmask[n - 3] := boolmask[n - 3] || id % 2 == 1;
  }

  lemma NotAllHex(d: string, p: nat)
    requires p < |d| && HexValue(d[p]).None?
    ensures !AllHex(d)
  {
  }

  lemma DigitsSoFar(d: string, p: nat)
    requires p < |d| && AllHex(d[..p]) && HexValue(d[p]).Some?
    ensures AllHex(d[..p + 1]) && 0 <= HexValue(d[p]).value < 16
  {
    assert d[..p + 1] == d[..p] + [d[p]];
  }

  lemma HighBitsOnly(d: string, p: nat, k: nat)
    requires p < |d| && AllHex(d[..p]) && k < 4 * (|d| - p)
    ensures !BitOfFirst(d, p, k)
  {
  }

  lemma WholeNumber(d: string, k: nat)
    requires AllHex(d[..|d|])
    ensures AllHex(d) && (BitOfFirst(d, |d|, k) <==> Bit(Number(d), k))
  {
    assert d[..|d|] == d;
  }

  lemma NoBits(d: string)
    ensures AllHex(d[..0]) && forall k: nat :: !BitOfFirst(d, 0, k)
  {
    forall k: nat ensures !BitOfFirst(d, 0, k) {
      if k >= 4 * |d| {
        ZeroBit(k - 4 * |d|);
      }
    }
  }

  lemma {:induction false} ZeroBit(k: nat)
    ensures !Bit(0, k)
  {
    if k > 0 {
      ZeroBit(k - 1);
    }
  }

  // ---- Spelled out ------------------------------------------------------------------

  /** An optional `0x` is skipped, and at most 128 digits behind it are read. */
  lemma DigitsExactly(d: string)
    ensures Digits("0x" + d) == if |d| <= 128 then d else d[..128]
    ensures !("0x" <= d) ==> Digits(d) == if |d| <= 128 then d else d[..128]
  {
    var mask := "0x" + d;
    assert mask[..2] == "0x";
    var n := if |d| <= 128 then |d| else 128;
    assert mask[2..2 + n] == d[..n] && d[..|d|] == d;
    if |d| >= 2 && d[..2] == "0x" {
      assert "0x" <= d;
    }
    assert d[0..n] == d[..n];
  }

  function Pow2(k: nat): (p: int)
    ensures p >= 1
  {
    if k == 0 then 1 else 2 * Pow2(k - 1)
  }

  lemma HalfDivides(v: int, p: int)
    requires v >= 0 && p >= 1
    ensures v / 2 / p == v / (2 * p)
  {
    var q, r := v / 2 / p, v / 2 % p;
    assert v == 2 * p * q + (2 * r + v % 2) && 0 <= 2 * r + v % 2 < 2 * p;
    DividesOnce(v, 2 * p, q, 2 * r + v % 2);
  }

  lemma DividesOnce(v: int, d: int, q: int, r: int)
    requires d >= 1 && 0 <= r < d && v == d * q + r
    ensures v / d == q
  {
    var e := v / d - q;
    assert d * e == r - v % d;
    assert e >= 1 ==> d * e >= d;
    assert e <= -1 ==> d * e <= -d;
  }

  /** Bit `k` is the one of weight two to the `k`. */
  lemma {:induction false} BitExactly(v: int, k: nat)
    requires v >= 0
    ensures Bit(v, k) <==> (v / Pow2(k)) % 2 == 1
    decreases k
  {
    if k > 0 {
      BitExactly(v / 2, k - 1);
      HalfDivides(v, Pow2(k - 1));
    }
  }

  function Pow16(n: nat): int {
    if n == 0 then 1 else 16 * Pow16(n - 1)
  }

  /** The digits are written from the highest to the lowest: a digit in front of `n` others
      counts sixteen to the `n` times. */
  lemma {:induction false} NumberExactly(c: char, d: string)
    requires AllHex([c] + d)
    ensures HexValue(c).Some? && AllHex(d)
    ensures Number([c] + d) == HexValue(c).value * Pow16(|d|) + Number(d)
    decreases |d|
  {
    hide HexValue;
    var t := [c] + d;
    assert t[0] == c && forall i :: 0 <= i < |d| ==> t[i + 1] == d[i];
    if d == "" {
      assert t[..0] == "" && Number(t[..0]) == 0;
      assert Number(t) == HexValue(c).value;
    } else {
      var n := |d| - 1;
      assert t[..|t| - 1] == [c] + d[..n] && t[|t| - 1] == d[n];
      NumberExactly(c, d[..n]);
      Shifted(HexValue(c).value, Pow16(n));
    }
  }

  lemma Shifted(v: int, p: int)
    ensures 16 * (v * p) == v * (16 * p)
  {
  }
}
