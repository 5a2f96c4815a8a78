/** Which texts are canonical (section 3.5 of RFC 4648): the decoder accepts others, with left-over
    bits set, padding missing or a single sextet at the end. */
module Base64Canonical {
  import opened Bytes
  import opened Wrappers
  import opened Base64

  /** The alphabet the encoder uses. */
  function Own(a: Alphabet): Alphabet {
    if a == UrlSafe then UrlSafe else Standard
  }

  function SextetOf(a: Alphabet, c: Byte): Byte
    requires Value(Own(a), c).Some?
  {
    Value(Own(a), c).value.value
  }

  /** Whole groups of four, padded as far as the sextets need it, with no left-over bit set. */
  predicate Canonical(a: Alphabet, s: seq<Byte>) {
    var k := Sextets(s);
    && InAlphabet(Own(a), s[..k]) && AllPads(s[k..])
    && |s| == (k + 3) / 4 * 4 && k % 4 != 1
    && (k % 4 == 2 ==> SextetOf(a, s[..k][k - 1]) & 0x0F == 0)
    && (k % 4 == 3 ==> SextetOf(a, s[..k][k - 1]) & 0x03 == 0)
  }

  lemma AlphaOf(a: Alphabet, c: Byte)
    requires Value(Own(a), c).Some?
    ensures c != PAD && SextetOf(a, c) < 64 && Alpha(a, SextetOf(a, c)) == c
  {
  }

  lemma OfAlpha(a: Alphabet, x: Byte)
    requires x < 64
    ensures Value(Own(a), Alpha(a, x)).Some? && SextetOf(a, Alpha(a, x)) == x && Alpha(a, x) != PAD
  {
  }

  /** The three bytes of four sextets. */
  function Byte0(x0: Byte, x1: Byte): Byte { (x0 << 2) | (x1 >> 4) }
  function Byte1(x1: Byte, x2: Byte): Byte { (x1 << 4) | (x2 >> 2) }
  function Byte2(x2: Byte, x3: Byte): Byte { (x2 << 6) | x3 }

  lemma SextetsOfBytes(x0: Byte, x1: Byte, x2: Byte, x3: Byte)
    requires x0 < 64 && x1 < 64 && x2 < 64 && x3 < 64
    ensures Sextet0(Byte0(x0, x1)) == x0
    ensures Sextet1(Byte0(x0, x1), Byte1(x1, x2)) == x1
    ensures Sextet2(Byte1(x1, x2), Byte2(x2, x3)) == x2
    ensures Sextet3(Byte2(x2, x3)) == x3
  {
  }

  lemma LastOfTwo(x0: Byte, x1: Byte)
    requires x0 < 64 && x1 < 64 && x1 & 0x0F == 0
    ensures Sextet0(Byte0(x0, x1)) == x0 && Sextet1(Byte0(x0, x1), 0) == x1
  {
  }

  lemma LastOfThree(x0: Byte, x1: Byte, x2: Byte)
    requires x0 < 64 && x1 < 64 && x2 < 64 && x2 & 0x03 == 0
    ensures Sextet0(Byte0(x0, x1)) == x0
    ensures Sextet1(Byte0(x0, x1), Byte1(x1, x2)) == x1 && Sextet2(Byte1(x1, x2), 0) == x2
  {
  }

  lemma NoLeftOver(b0: Byte, b1: Byte)
    ensures Sextet1(b0, 0) & 0x0F == 0 && Sextet2(b1, 0) & 0x03 == 0
  {
  }

  // ---- Canonical texts are encodings ------------------------------------------------

  lemma {:induction false} CanonicalEncoded(a: Alphabet, s: seq<Byte>) returns (data: seq<Byte>)
    requires Canonical(a, s)
    ensures s == Encode(a, data)
    decreases |s|
  {
    hide Value, Alpha, SextetOf, Encode, Sextets, AllPads, InAlphabet, Byte0, Byte1, Byte2, Group3;
    var k := Sextets(s);
    AlphabetAt(a, s, k);
    if k == 0 {
      assert s == [];
      data := [];
      EncodeNothing(a);
    } else if k == 2 {
      data := [Byte0(SextetOf(a, s[0]), SextetOf(a, s[1]))];
      TwoEncoded(a, s);
    } else if k == 3 {
      data := [Byte0(SextetOf(a, s[0]), SextetOf(a, s[1])), Byte1(SextetOf(a, s[1]), SextetOf(a, s[2]))];
      ThreeEncoded(a, s);
    } else {
      BehindGroup(a, s);
      var rest := CanonicalEncoded(a, s[4..]);
      var b0, b1, b2 := FourEncoded(a, s[0], s[1], s[2], s[3]);
      data := [b0, b1, b2] + rest;
      assert data[3..] == rest;
      EncodeFull(a, data);
      assert s == [s[0], s[1], s[2], s[3]] + s[4..];
    }
  }

  lemma TwoEncoded(a: Alphabet, s: seq<Byte>)
    requires Canonical(a, s) && Sextets(s) == 2
    ensures Value(Own(a), s[0]).Some? && Value(Own(a), s[1]).Some?
    ensures Encode(a, [Byte0(SextetOf(a, s[0]), SextetOf(a, s[1]))]) == s
  {
    hide Value, Alpha, Sextet0, Sextet1, Byte0, SextetOf;
    AlphabetAt(a, s, 2);
    var x0, x1 := SextetOf(a, s[0]), SextetOf(a, s[1]);
    assert s[..2][1] == s[1];
    LastOfTwo(x0, x1);
    PadsBehind(s, 2);
    assert s == [s[0], s[1]] + [PAD, PAD];
    EncodeLast(a, [Byte0(x0, x1)]);
  }

  lemma ThreeEncoded(a: Alphabet, s: seq<Byte>)
    requires Canonical(a, s) && Sextets(s) == 3
    ensures Value(Own(a), s[0]).Some? && Value(Own(a), s[1]).Some? && Value(Own(a), s[2]).Some?
    ensures Encode(a, [Byte0(SextetOf(a, s[0]), SextetOf(a, s[1])), Byte1(SextetOf(a, s[1]), SextetOf(a, s[2]))]) == s
  {
    hide Value, Alpha, Sextet0, Sextet1, Sextet2, Byte0, Byte1, SextetOf;
    AlphabetAt(a, s, 3);
    var x0, x1, x2 := SextetOf(a, s[0]), SextetOf(a, s[1]), SextetOf(a, s[2]);
    assert s[..3][2] == s[2];
    LastOfThree(x0, x1, x2);
    PadsBehind(s, 3);
    assert s == [s[0], s[1], s[2]] + [PAD];
    EncodeLast(a, [Byte0(x0, x1), Byte1(x1, x2)]);
  }

  lemma PadsBehind(s: seq<Byte>, k: nat)
    requires k <= |s| && AllPads(s[k..])
    ensures forall i :: k <= i < |s| ==> s[i] == PAD
  {
    forall i | k <= i < |s| ensures s[i] == PAD {
      assert s[i] == s[k..][i - k];
    }
  }

  lemma FourEncoded(a: Alphabet, c0: Byte, c1: Byte, c2: Byte, c3: Byte) returns (b0: Byte, b1: Byte, b2: Byte)
    requires Value(Own(a), c0).Some? && Value(Own(a), c1).Some? && Value(Own(a), c2).Some? && Value(Own(a), c3).Some?
    ensures Group3(a, b0, b1, b2) == [c0, c1, c2, c3]
  {
    AlphaOf(a, c0);
    AlphaOf(a, c1);
    AlphaOf(a, c2);
    AlphaOf(a, c3);
    hide Value, Alpha, Sextet0, Sextet1, Sextet2, Sextet3, Byte0, Byte1, Byte2, SextetOf;
    var x0, x1, x2, x3 := SextetOf(a, c0), SextetOf(a, c1), SextetOf(a, c2), SextetOf(a, c3);
    SextetsOfBytes(x0, x1, x2, x3);
    b0, b1, b2 := Byte0(x0, x1), Byte1(x1, x2), Byte2(x2, x3);
  }

  lemma AlphabetAt(a: Alphabet, s: seq<Byte>, k: nat)
    requires k <= |s| && InAlphabet(Own(a), s[..k])
    ensures forall i :: 0 <= i < k ==>
              Value(Own(a), s[i]).Some? && SextetOf(a, s[i]) < 64 && Alpha(a, SextetOf(a, s[i])) == s[i]
  {
    hide Value, Alpha, SextetOf;
    forall i | 0 <= i < k
      ensures Value(Own(a), s[i]).Some? && SextetOf(a, s[i]) < 64 && Alpha(a, SextetOf(a, s[i])) == s[i]
    {
      assert s[i] == s[..k][i];
      AlphaOf(a, s[i]);
    }
  }

  lemma {:induction false} SextetsBehind(s: seq<Byte>, n: nat)
    requires n <= Sextets(s)
    ensures Sextets(s[n..]) == Sextets(s) - n
    decreases n
  {
    if n == 0 {
      assert s[0..] == s;
    } else {
      assert s[1..][n - 1..] == s[n..];
      SextetsBehind(s[1..], n - 1);
    }
  }

  lemma BehindGroup(a: Alphabet, s: seq<Byte>)
    requires Canonical(a, s) && Sextets(s) >= 4
    ensures Canonical(a, s[4..])
  {
    hide Value, SextetOf, Sextets;
    var k, t := Sextets(s), s[4..];
    SextetsBehind(s, 4);
    assert t[k - 4..] == s[k..];
    assert s[..k] == s[..4] + t[..k - 4];
    InAlphabetTail(Own(a), s[..4], t[..k - 4]);
    assert k > 4 ==> t[..k - 4][k - 5] == s[..k][k - 1];
  }

  lemma InAlphabetTail(a: Alphabet, x: seq<Byte>, y: seq<Byte>)
    requires InAlphabet(a, x + y)
    ensures InAlphabet(a, y)
  {
    hide Value;
    forall i | 0 <= i < |y| ensures Value(a, y[i]).Some? {
      assert y[i] == (x + y)[|x| + i];
    }
  }

  // ---- Encodings are canonical ------------------------------------------------------

  lemma {:induction false} EncodedCanonical(a: Alphabet, data: seq<Byte>)
    ensures Canonical(a, Encode(a, data))
    decreases |data|
  {
    hide Value, Alpha, Sextet0, Sextet1, Sextet2, Sextet3, SextetOf, Canonical;
    if data == [] {
      EncodeNothing(a);
      NothingCanonical(a);
    } else if |data| == 1 {
      EncodeLast(a, data);
      SextetRange(data[0], 0);
      NoLeftOver(data[0], 0);
      TwoCanonical(a, Sextet0(data[0]), Sextet1(data[0], 0));
    } else if |data| == 2 {
      EncodeLast(a, data);
      SextetRange(data[0], data[1]);
      SextetRange(data[1], 0);
      NoLeftOver(data[0], data[1]);
      ThreeCanonical(a, Sextet0(data[0]), Sextet1(data[0], data[1]), Sextet2(data[1], 0));
    } else {
      EncodeFull(a, data);
      EncodedCanonical(a, data[3..]);
      SextetRange(data[0], data[1]);
      SextetRange(data[1], data[2]);
      SextetRange(data[2], 0);
      GroupCanonical(a, Sextet0(data[0]), Sextet1(data[0], data[1]), Sextet2(data[1], data[2]), Sextet3(data[2]),
                     Encode(a, data[3..]));
    }
  }

  lemma NothingCanonical(a: Alphabet)
    ensures Canonical(a, [])
  {
  }

  lemma TwoCanonical(a: Alphabet, x0: Byte, x1: Byte)
    requires x0 < 64 && x1 < 64 && x1 & 0x0F == 0
    ensures Canonical(a, [Alpha(a, x0), Alpha(a, x1)] + [PAD, PAD])
  {
    OfAlpha(a, x0);
    OfAlpha(a, x1);
    hide Value, Alpha, SextetOf;
    var s := [Alpha(a, x0), Alpha(a, x1)] + [PAD, PAD];
    assert s[1..][1..] == [PAD, PAD];
    assert Sextets(s[1..]) == 1 + Sextets(s[1..][1..]);
    assert s[..2] == [Alpha(a, x0), Alpha(a, x1)] && s[2..] == [PAD, PAD];
  }

  lemma ThreeCanonical(a: Alphabet, x0: Byte, x1: Byte, x2: Byte)
    requires x0 < 64 && x1 < 64 && x2 < 64 && x2 & 0x03 == 0
    ensures Canonical(a, [Alpha(a, x0), Alpha(a, x1), Alpha(a, x2)] + [PAD])
  {
    OfAlpha(a, x0);
    OfAlpha(a, x1);
    OfAlpha(a, x2);
    hide Value, Alpha, SextetOf;
    var s := [Alpha(a, x0), Alpha(a, x1), Alpha(a, x2)] + [PAD];
    assert s[1..][1..][1..] == [PAD];
    assert Sextets(s[1..][1..]) == 1 + Sextets(s[1..][1..][1..]);
    assert s[..3] == [Alpha(a, x0), Alpha(a, x1), Alpha(a, x2)] && s[3..] == [PAD];
  }

  lemma GroupCanonical(a: Alphabet, x0: Byte, x1: Byte, x2: Byte, x3: Byte, rest: seq<Byte>)
    requires x0 < 64 && x1 < 64 && x2 < 64 && x3 < 64 && Canonical(a, rest)
    ensures Canonical(a, [Alpha(a, x0), Alpha(a, x1), Alpha(a, x2)] + [Alpha(a, x3)] + rest)
  {
    OfAlpha(a, x0);
    OfAlpha(a, x1);
    OfAlpha(a, x2);
    OfAlpha(a, x3);
    hide Value, Alpha, SextetOf;
    var group := [Alpha(a, x0), Alpha(a, x1), Alpha(a, x2)] + [Alpha(a, x3)];
    InFront(a, group, rest);
  }

  lemma InFront(a: Alphabet, group: seq<Byte>, rest: seq<Byte>)
    requires |group| == 4 && PAD !in group && InAlphabet(Own(a), group) && Canonical(a, rest)
    ensures Canonical(a, group + rest)
  {
    SextetsInFront(group, rest);
    hide Value, SextetOf, Sextets, AllPads, InAlphabet;
    var s, k := group + rest, Sextets(rest);
    assert s[..4 + k] == group + rest[..k] && s[4 + k..] == rest[k..];
    InAlphabetAppend(Own(a), group, rest[..k]);
    assert k > 0 ==> s[..4 + k][4 + k - 1] == rest[..k][k - 1];
    assert k > 0 ==> Value(Own(a), rest[..k][k - 1]).Some? by { LastInAlphabet(Own(a), rest[..k]); }
  }

  lemma LastInAlphabet(a: Alphabet, s: seq<Byte>)
    requires InAlphabet(a, s)
    ensures s != [] ==> Value(a, s[|s| - 1]).Some?
  {
  }

  lemma InAlphabetAppend(a: Alphabet, x: seq<Byte>, y: seq<Byte>)
    requires InAlphabet(a, x) && InAlphabet(a, y)
    ensures InAlphabet(a, x + y)
  {
    hide Value;
  }

  lemma {:induction false} SextetsInFront(group: seq<Byte>, rest: seq<Byte>)
    requires PAD !in group
    ensures Sextets(group + rest) == |group| + Sextets(rest)
    decreases |group|
  {
    if group == [] {
      assert group + rest == rest;
    } else {
      assert (group + rest)[1..] == group[1..] + rest;
      SextetsInFront(group[1..], rest);
    }
  }

  // ---- The exact condition ----------------------------------------------------------

  /** Strict or loose, decoding and encoding again gives the text back exactly when it is canonical. */
  lemma CanonicalExactly(a: Alphabet, s: seq<Byte>, strict: bool)
    ensures Decoded(a, s, strict).Ok? && Encode(a, Decoded(a, s, strict).value) == s <==> Canonical(a, s)
  {
    hide Canonical, Encode, Decode;
    if Decoded(a, s, strict).Ok? && Encode(a, Decoded(a, s, strict).value) == s {
      EncodedCanonical(a, Decoded(a, s, strict).value);
    }
    if Canonical(a, s) {
      var data := CanonicalEncoded(a, s);
      RoundTrip(a, a, data, strict);
    }
  }

  /** A single sextet is accepted and decodes to nothing. */
  lemma SingleSextetAccepted()
    ensures Decoded(Standard, [0x51], true) == Ok([]) && !Canonical(Standard, [0x51])
  {
    var s: seq<Byte> := [0x51];
    assert s[1..] == [];
  }

  /** `QR==` has left-over bits, `QQ` no padding, and `QQ=Q` characters behind it: where they are
      accepted they decode to the byte of the canonical `QQ==`. */
  lemma OtherTextsAccepted()
    ensures Decoded(Standard, [0x51, 0x51, PAD, PAD], true) == Ok([0x41])
    ensures Decoded(Standard, [0x51, 0x52, PAD, PAD], true) == Ok([0x41])
    ensures Decoded(Standard, [0x51, 0x51], true) == Ok([0x41])
    ensures Decoded(Standard, [0x51, 0x51, PAD, 0x51], false) == Ok([0x41])
    ensures Decoded(Standard, [0x51, 0x51, PAD, 0x51], true) == Err
  {
    TwoDecoded(0x51, [PAD, PAD], true);
    TwoDecoded(0x52, [PAD, PAD], true);
    TwoDecoded(0x51, [], true);
    TwoDecoded(0x51, [PAD, 0x51], false);
    TwoDecoded(0x51, [PAD, 0x51], true);
    var s: seq<Byte> := [0x51, 0x51];
    assert s + [] == s;
    assert s + [PAD, PAD] == [0x51, 0x51, PAD, PAD] && s + [PAD, 0x51] == [0x51, 0x51, PAD, 0x51];
    assert [0x51, 0x52] + [PAD, PAD] == [0x51, 0x52, PAD, PAD];
  }

  lemma TwoDecoded(c: Byte, tail: seq<Byte>, strict: bool)
    requires c == 0x51 || c == 0x52
    requires tail == [] || tail[0] == PAD
    ensures Decoded(Standard, [0x51, c] + tail, strict) ==
            if tail != [] && strict && !AllPads(tail[1..]) then Err else Ok([0x41])
  {
    hide AllPads;
    var s := [0x51, c] + tail;
    assert s[1..][0] == c && s[1..][1..] == tail;
    DecodeUnfolds(Standard, 0, 0, s, strict);
    DecodeUnfolds(Standard, 6, 16, s[1..], strict);
    assert Merge(16, 6, c - 0x41) == 0x41 && [0x41 as Byte] + [] == [0x41];
    assert Decode(Standard, 4, c - 0x41, tail, strict) ==
           if tail != [] && strict && !AllPads(tail[1..]) then Err else Ok([]);
  }
}
