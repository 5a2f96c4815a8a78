/** Base64 (`base64::encode`, `base64::decode`, `decode_inplace`): sections 4 and 5 of RFC 4648,
    with an alphabet that may be detected while decoding. */
module Base64 {
  import opened Bytes
  import opened Wrappers

  datatype Alphabet = Auto | Standard | UrlSafe

  const PAD: Byte := 0x3D

  /** The character for a sextet; `Auto` encodes with the standard alphabet. */
  function Alpha(a: Alphabet, x: Byte): Byte
    requires x < 64
  {
    if x < 26 then x + 0x41
    else if x < 52 then x + 0x47
    else if x < 62 then x - 4
    else if x == 62 then (if a == UrlSafe then 0x2D else 0x2B)
    else (if a == UrlSafe then 0x5F else 0x2F)
  }

  /** A sextet, and the alphabet once the character has settled it. */
  datatype Sextet = Sextet(value: Byte, alphabet: Alphabet)

  function Value(a: Alphabet, c: Byte): Option<Sextet> {
    if 0x41 <= c <= 0x5A then Some(Sextet(c - 0x41, a))
    else if 0x61 <= c <= 0x7A then Some(Sextet(c - 0x61 + 26, a))
    else if 0x30 <= c <= 0x39 then Some(Sextet(c - 0x30 + 52, a))
    else if c == 0x2B && a != UrlSafe then Some(Sextet(62, Standard))
    else if c == 0x2F && a != UrlSafe then Some(Sextet(63, Standard))
    else if c == 0x2D && a != Standard then Some(Sextet(62, UrlSafe))
    else if c == 0x5F && a != Standard then Some(Sextet(63, UrlSafe))
    else None
  }

  // The four sextets of three bytes.
  function Sextet0(b0: Byte): Byte { (b0 >> 2) & 0x3F }
  function Sextet1(b0: Byte, b1: Byte): Byte { ((b0 & 0x03) << 4) | ((b1 >> 4) & 0x0F) }
  function Sextet2(b1: Byte, b2: Byte): Byte { ((b1 & 0x0F) << 2) | ((b2 >> 6) & 0x03) }
  function Sextet3(b2: Byte): Byte { b2 & 0x3F }

  lemma SextetRange(b0: Byte, b1: Byte)
    ensures Sextet0(b0) < 64 && Sextet1(b0, b1) < 64 && Sextet2(b0, b1) < 64 && Sextet3(b0) < 64
  {
  }

  // The characters for one, two or three bytes.
  function Group1(a: Alphabet, b0: Byte): seq<Byte> {
    SextetRange(b0, 0);
    [Alpha(a, Sextet0(b0)), Alpha(a, Sextet1(b0, 0))] + [PAD, PAD]
  }

  function Group2(a: Alphabet, b0: Byte, b1: Byte): seq<Byte> {
    Three(a, b0, b1, 0) + [PAD]
  }

  function Group3(a: Alphabet, b0: Byte, b1: Byte, b2: Byte): seq<Byte> {
    SextetRange(b2, 0);
    Three(a, b0, b1, b2) + [Alpha(a, Sextet3(b2))]
  }

  function Three(a: Alphabet, b0: Byte, b1: Byte, b2: Byte): seq<Byte> {
    SextetRange(b0, b1);
    SextetRange(b1, b2);
    [Alpha(a, Sextet0(b0)), Alpha(a, Sextet1(b0, b1)), Alpha(a, Sextet2(b1, b2))]
  }

  function Encode(a: Alphabet, data: seq<Byte>): seq<Byte> {
    if data == [] then []
    else if |data| == 1 then Group1(a, data[0])
    else if |data| == 2 then Group2(a, data[0], data[1])
    else Group3(a, data[0], data[1], data[2]) + Encode(a, data[3..])
  }

  method EncodeBytes(data: seq<Byte>, a: Alphabet) returns (out: seq<Byte>)
    ensures out == Encode(a, data)
  {
    hide Group1, Group2, Group3;
    out := [];
    var i := 0;
    assert data[0..] == data;
    while i < |data|
      invariant 0 <= i <= |data|
      invariant out + Encode(a, data[i..]) == Encode(a, data)
      decreases |data| - i
    {
      ghost var rest := data[i..];
      var group, taken := EncodeGroup(data, i, a);
      assert rest[0] == data[i] && (|rest| > 1 ==> rest[1] == data[i + 1]) && (|rest| > 2 ==> rest[2] == data[i + 2]);
      assert rest[taken..] == data[i + taken..];
      EncodeFront(a, rest, group, taken);
      assert out + (group + Encode(a, data[i + taken..])) == (out + group) + Encode(a, data[i + taken..]);
      out := out + group;
      i := i + taken;
    }
    assert data[i..] == [] && out + [] == out;
  }

  lemma EncodeFront(a: Alphabet, data: seq<Byte>, group: seq<Byte>, taken: nat)
    requires data != [] && taken == (if |data| < 3 then |data| else 3)
    requires group == if |data| == 1 then Group1(a, data[0])
                      else if |data| == 2 then Group2(a, data[0], data[1])
                      else Group3(a, data[0], data[1], data[2])
    ensures Encode(a, data) == group + Encode(a, data[taken..])
  {
    hide Group1, Group2, Group3;
    if |data| < 3 {
      assert Encode(a, data) == group;
      assert data[taken..] == [];
      EncodeNothing(a);
      assert group + [] == group;
    } else {
      assert Encode(a, data) == group + Encode(a, data[3..]);
    }
  }

  lemma EncodeNothing(a: Alphabet)
    ensures Encode(a, []) == []
  {
  }

  /** One round of the loop: up to three bytes, padded when there are fewer. */
  method EncodeGroup(data: seq<Byte>, start: nat, a: Alphabet) returns (out: seq<Byte>, taken: nat)
    requires start < |data|
    ensures taken == if |data| - start < 3 then |data| - start else 3
    ensures out == if |data| - start == 1 then Group1(a, data[start])
                   else if |data| - start == 2 then Group2(a, data[start], data[start + 1])
                   else Group3(a, data[start], data[start + 1], data[start + 2])
  {
    var i := start;
    var i0 := data[i];
    i := i + 1;
    SextetRange(i0, 0);
    hide Alpha, Sextet0, Sextet1, Sextet2, Sextet3;
    out := [Alpha(a, Sextet0(i0))];
    if i < |data| {
      var i1 := data[i];
      i := i + 1;
      SextetRange(i0, i1);
      SextetRange(i1, 0);
      out := out + [Alpha(a, Sextet1(i0, i1))];
      if i < |data| {
        var i2 := data[i];
        i := i + 1;
        SextetRange(i1, i2);
        SextetRange(i2, 0);
        out := out + [Alpha(a, Sextet2(i1, i2))];
        out := out + [Alpha(a, Sextet3(i2))];
      } else {
        out := out + [Alpha(a, Sextet2(i1, 0))];
        out := out + [PAD];
      }
    } else {
      out := out + [Alpha(a, Sextet1(i0, 0))];
      out := out + [PAD];
      out := out + [PAD];
    }
    taken := i - start;
  }

  // ---- Decoding ---------------------------------------------------------------------

  /** Whole left-over bits of the previous sextet. */
  predicate BitCount(bits: nat) {
    bits == 0 || bits == 2 || bits == 4 || bits == 6
  }

  /** `(last << (8 - bits)) | (part >> (bits - 2))`, for the bit counts that fill a byte. */
  function Merge(last: Byte, bits: nat, part: Byte): Byte {
    if bits == 6 then (last << 2) | (part >> 4)
    else if bits == 4 then (last << 4) | (part >> 2)
    else (last << 6) | part
  }

  predicate AllPads(s: seq<Byte>) {
    forall i :: 0 <= i < |s| ==> s[i] == PAD
  }

  /** Bytes from the rest of a text. `strict` is the moderate behaviour: behind a padding
      character only padding may follow. */
  function Decode(a: Alphabet, bits: nat, last: Byte, s: seq<Byte>, strict: bool): Result<seq<Byte>>
    requires BitCount(bits)
    decreases |s|
  {
    if s == [] then Ok([])
    else if s[0] == PAD then if strict && !AllPads(s[1..]) then Err else Ok([])
    else
      var v := Value(a, s[0]);
      if v.None? then Err
      else if bits + 6 >= 8 then
        var rest := Decode(v.value.alphabet, bits - 2, v.value.value, s[1..], strict);
        if rest.Ok? then Ok([Merge(last, bits, v.value.value)] + rest.value) else Err
      else Decode(v.value.alphabet, bits + 6, v.value.value, s[1..], strict)
  }

  function Decoded(a: Alphabet, s: seq<Byte>, strict: bool): Result<seq<Byte>> {
    Decode(a, 0, 0, s, strict)
  }

  lemma DecodeUnfolds(a: Alphabet, bits: nat, last: Byte, s: seq<Byte>, strict: bool)
    requires BitCount(bits) && s != [] && s[0] != PAD
    ensures var v := Value(a, s[0]);
            Decode(a, bits, last, s, strict) ==
            if v.None? then Err
            else if bits + 6 >= 8 then
              var rest := Decode(v.value.alphabet, bits - 2, v.value.value, s[1..], strict);
              if rest.Ok? then Ok([Merge(last, bits, v.value.value)] + rest.value) else Err
            else Decode(v.value.alphabet, bits + 6, v.value.value, s[1..], strict)
  {
    hide Value, Merge;
  }

  /** Decodes `n` characters of `src` into `dst`, which may be the same array: the write
      position never passes the read position. Nothing is written beyond the decoded bytes. */
  method DecodeInto(src: array<Byte>, n: nat, dst: array<Byte>, alphabet: Alphabet, strict: bool)
    returns (r: Result<nat>)
    requires n <= src.Length && 6 * n / 8 <= dst.Length
    modifies dst
    ensures r.Ok? <==> Decoded(alphabet, old(src[..n]), strict).Ok?
    ensures r.Ok? ==>
              && r.value <= dst.Length && r.value <= n
              && dst[..r.value] == Decoded(alphabet, old(src[..n]), strict).value
              && forall k :: r.value <= k < dst.Length ==> dst[k] == old(dst[k])
  {
    hide Value, Merge, Decode, AllPads;
    ghost var s := src[..n];
    var a, last, bits: nat, i, out := alphabet, 0 as Byte, 0, 0, 0;
    ghost var goal := Decoded(alphabet, s, strict);
    assert s[0..] == s;
    assert dst[..0] == [] && (goal.Ok? ==> [] + goal.value == goal.value);
    while i < n
      invariant 0 <= i <= n && BitCount(bits) && 8 * out + bits == 6 * i && out <= dst.Length
      invariant forall k :: i <= k < n ==> src[k] == s[k]
      invariant forall k :: out <= k < dst.Length ==> dst[k] == old(dst[k])
      invariant Continues(dst[..out], Decode(a, bits, last, s[i..], strict), goal)
    {
      ghost var rest := s[i..];
      var c := src[i];
      assert rest[0] == c && rest[1..] == s[i + 1..];
      if c == PAD {
        break;
      }
      DecodeUnfolds(a, bits, last, rest, strict);
      i := i + 1;
      var v := Value(a, c);
      if v.None? {
        return Err;
      }
      a := v.value.alphabet;
      if bits + 6 >= 8 {
        ghost var before := dst[..out];
        var b := Merge(last, bits, v.value.value);
        dst[out] := b;
        assert dst[..out + 1] == before + [b];
        OneByteMore(before, b, Decode(a, bits - 2, v.value.value, s[i..], strict), goal);
        out := out + 1;
        bits := bits - 2;
      } else {
        bits := bits + 6;
      }
      last := v.value.value;
    }
    DecodeEnds(a, bits, last, s[i..], strict);
    assert dst[..out] + [] == dst[..out];
    if strict {
      forall j | 0 <= j < n - i ensures src[i..n][j] == s[i..][j] {
        assert src[i + j] == s[i + j];
      }
      assert src[i..n] == s[i..];
      var padded := OnlyPads(src, i, n);
      if !padded {
        return Err;
      }
    }
    return Ok(out);
  }

  /** What is written so far, followed by what the rest decodes to, is the goal. */
  predicate Continues(done: seq<Byte>, rest: Result<seq<Byte>>, goal: Result<seq<Byte>>) {
    goal == if rest.Ok? then Ok(done + rest.value) else Err
  }

  lemma OneByteMore(done: seq<Byte>, b: Byte, rest: Result<seq<Byte>>, goal: Result<seq<Byte>>)
    requires Continues(done, if rest.Ok? then Ok([b] + rest.value) else Err, goal)
    ensures Continues(done + [b], rest, goal)
  {
    if rest.Ok? {
      assert done + ([b] + rest.value) == (done + [b]) + rest.value;
    }
  }

  method OnlyPads(src: array<Byte>, start: nat, n: nat) returns (padded: bool)
    requires start <= n <= src.Length
    ensures padded == AllPads(src[start..n])
  {
    for j := start to n
      invariant AllPads(src[start..j])
    {
      if src[j] != PAD {
        assert src[start..n][j - start] == src[j];
        return false;
      }
      assert src[start..j + 1] == src[start..j] + [src[j]];
    }
    return true;
  }

  /** The end of the text, or a padding character. */
  lemma DecodeEnds(a: Alphabet, bits: nat, last: Byte, s: seq<Byte>, strict: bool)
    requires BitCount(bits) && (s == [] || s[0] == PAD)
    ensures Decode(a, bits, last, s, strict) == if strict && !AllPads(s) then Err else Ok([])
  {
    if s != [] {
      assert s == [PAD] + s[1..];
      assert AllPads(s) <==> AllPads(s[1..]) by {
        assert forall i :: 0 <= i < |s| - 1 ==> s[1..][i] == s[i + 1];
      }
    }
  }

  /** `decode_inplace`: the buffer decoded over itself holds what decoding a copy gives. */
  method DecodeInplace(buf: array<Byte>, alphabet: Alphabet, strict: bool) returns (r: Result<nat>)
    modifies buf
    ensures r.Ok? <==> Decoded(alphabet, old(buf[..]), strict).Ok?
    ensures r.Ok? ==> r.value <= buf.Length && buf[..r.value] == Decoded(alphabet, old(buf[..]), strict).value
  {
    hide Decode;
    assert buf[..buf.Length] == buf[..];
    r := DecodeInto(buf, buf.Length, buf, alphabet, strict);
  }

  // ---- Round trip -------------------------------------------------------------------

  /** The decoder's alphabet agrees with the encoder's, or is still open. */
  predicate Agrees(e: Alphabet, d: Alphabet) {
    d == Auto || d == (if e == UrlSafe then UrlSafe else Standard)
  }

  lemma ValueOfAlpha(e: Alphabet, d: Alphabet, x: Byte)
    requires x < 64 && Agrees(e, d)
    ensures Alpha(e, x) != PAD
    ensures Value(d, Alpha(e, x)).Some? && Value(d, Alpha(e, x)).value.value == x
    ensures Agrees(e, Value(d, Alpha(e, x)).value.alphabet)
  {
  }

  lemma MergedBytes(b0: Byte, b1: Byte, b2: Byte)
    ensures Merge(Sextet0(b0), 6, Sextet1(b0, b1)) == b0
    ensures Merge(Sextet1(b0, b1), 4, Sextet2(b1, b2)) == b1
    ensures Merge(Sextet2(b1, b2), 2, Sextet3(b2)) == b2
  {
  }

  /** One sextet of an encoded text. */
  lemma SextetDecoded(e: Alphabet, d: Alphabet, bits: nat, last: Byte, x: Byte, rest: seq<Byte>, strict: bool)
    returns (d': Alphabet)
    requires BitCount(bits) && x < 64 && Agrees(e, d)
    ensures Agrees(e, d')
    ensures Decode(d, bits, last, [Alpha(e, x)] + rest, strict) ==
            if bits == 0 then Decode(d', 6, x, rest, strict)
            else Prefixed(Merge(last, bits, x), Decode(d', bits - 2, x, rest, strict))
  {
    hide Alpha, Value, Merge;
    ValueOfAlpha(e, d, x);
    var s := [Alpha(e, x)] + rest;
    assert s[1..] == rest;
    DecodeUnfolds(d, bits, last, s, strict);
    d' := Value(d, Alpha(e, x)).value.alphabet;
  }

  function Prefixed(b: Byte, r: Result<seq<Byte>>): Result<seq<Byte>> {
    if r.Ok? then Ok([b] + r.value) else Err
  }

  lemma {:induction false} EncodedDecodes(e: Alphabet, d: Alphabet, last: Byte, data: seq<Byte>, strict: bool)
    requires Agrees(e, d)
    ensures Decode(d, 0, last, Encode(e, data), strict) == Ok(data)
    decreases |data|
  {
    hide Decode, Encode, Agrees, Group1, Group2, Group3;
    if data == [] {
      EncodeNothing(e);
      DecodeEnds(d, 0, last, [], strict);
    } else if |data| < 3 {
      EncodeLast(e, data);
      LastGroupDecodes(e, d, last, data, strict);
    } else {
      EncodeFull(e, data);
      var rest := Encode(e, data[3..]);
      var d4, x3 := FullGroupDecodes(e, d, last, data[0], data[1], data[2], rest, strict);
      EncodedDecodes(e, d4, x3, data[3..], strict);
      Regrouped(data);
    }
  }

  lemma EncodeLast(e: Alphabet, data: seq<Byte>)
    requires 1 <= |data| <= 2
    ensures Encode(e, data) == if |data| == 1 then Group1(e, data[0]) else Group2(e, data[0], data[1])
  {
    hide Group1, Group2, Group3;
  }

  lemma EncodeFull(e: Alphabet, data: seq<Byte>)
    requires |data| >= 3
    ensures Encode(e, data) == Group3(e, data[0], data[1], data[2]) + Encode(e, data[3..])
  {
    hide Group1, Group2, Group3;
  }

  lemma Regrouped(data: seq<Byte>)
    requires |data| >= 3
    ensures [data[0]] + ([data[1]] + ([data[2]] + data[3..])) == data
  {
  }

  lemma LastGroupDecodes(e: Alphabet, d: Alphabet, last: Byte, data: seq<Byte>, strict: bool)
    requires Agrees(e, d) && 1 <= |data| <= 2
    ensures Decode(d, 0, last, if |data| == 1 then Group1(e, data[0]) else Group2(e, data[0], data[1]), strict)
         == Ok(data)
  {
    hide Decode, Alpha, Merge, Sextet0, Sextet1, Sextet2, Sextet3, Agrees, Three;
    var b0 := data[0];
    OnlyPadding();
    if |data| == 1 {
      var d2 := TwoSextets(e, d, last, b0, 0, [PAD, PAD], strict);
      DecodeEnds(d2, 4, Sextet1(b0, 0), [PAD, PAD], strict);
      assert [b0] + [] == data;
    } else {
      var d3 := ThreeSextets(e, d, last, b0, data[1], 0, [PAD], strict);
      DecodeEnds(d3, 2, Sextet2(data[1], 0), [PAD], strict);
      assert [b0] + ([data[1]] + []) == data;
    }
  }

  lemma FullGroupDecodes(
    e: Alphabet, d: Alphabet, last: Byte, b0: Byte, b1: Byte, b2: Byte, rest: seq<Byte>, strict: bool)
    returns (d4: Alphabet, x3: Byte)
    requires Agrees(e, d)
    ensures Agrees(e, d4)
    ensures Decode(d, 0, last, Group3(e, b0, b1, b2) + rest, strict)
         == Prefixed(b0, Prefixed(b1, Prefixed(b2, Decode(d4, 0, x3, rest, strict))))
  {
    MergedBytes(b0, b1, b2);
    SextetRange(b2, 0);
    hide Decode, Alpha, Merge, Sextet0, Sextet1, Sextet2, Sextet3, Agrees, Three;
    x3 := Sextet3(b2);
    var d3 := ThreeSextets(e, d, last, b0, b1, b2, [Alpha(e, x3)] + rest, strict);
    d4 := SextetDecoded(e, d3, 2, Sextet2(b1, b2), x3, rest, strict);
    assert Group3(e, b0, b1, b2) + rest == Three(e, b0, b1, b2) + ([Alpha(e, x3)] + rest);
  }

  lemma OnlyPadding()
    ensures AllPads([PAD]) && AllPads([PAD, PAD])
  {
  }

  /** The first two sextets of a group give its first byte. */
  lemma TwoSextets(e: Alphabet, d: Alphabet, last: Byte, b0: Byte, b1: Byte, rest: seq<Byte>, strict: bool)
    returns (d2: Alphabet)
    requires Agrees(e, d)
    ensures Sextet0(b0) < 64 && Sextet1(b0, b1) < 64 && Agrees(e, d2)
    ensures Decode(d, 0, last, [Alpha(e, Sextet0(b0)), Alpha(e, Sextet1(b0, b1))] + rest, strict)
         == Prefixed(b0, Decode(d2, 4, Sextet1(b0, b1), rest, strict))
  {
    SextetRange(b0, b1);
    MergedBytes(b0, b1, 0);
    hide Decode, Alpha, Merge, Sextet0, Sextet1, Agrees;
    var x0, x1 := Sextet0(b0), Sextet1(b0, b1);
    var t1 := [Alpha(e, x1)] + rest;
    assert [Alpha(e, x0), Alpha(e, x1)] + rest == [Alpha(e, x0)] + t1;
    var d1 := SextetDecoded(e, d, 0, last, x0, t1, strict);
    d2 := SextetDecoded(e, d1, 6, x0, x1, rest, strict);
  }

  /** And the third one its second byte. */
  lemma ThreeSextets(e: Alphabet, d: Alphabet, last: Byte, b0: Byte, b1: Byte, b2: Byte, rest: seq<Byte>, strict: bool)
    returns (d3: Alphabet)
    requires Agrees(e, d)
    ensures Sextet2(b1, b2) < 64 && Agrees(e, d3)
    ensures Decode(d, 0, last, Three(e, b0, b1, b2) + rest, strict)
         == Prefixed(b0, Prefixed(b1, Decode(d3, 2, Sextet2(b1, b2), rest, strict)))
  {
    SextetRange(b0, b1);
    SextetRange(b1, b2);
    MergedBytes(b0, b1, b2);
    hide Decode, Alpha, Merge, Sextet0, Sextet1, Sextet2, Agrees;
    var t2 := [Alpha(e, Sextet2(b1, b2))] + rest;
    assert Three(e, b0, b1, b2) + rest == [Alpha(e, Sextet0(b0)), Alpha(e, Sextet1(b0, b1))] + t2;
    var d2 := TwoSextets(e, d, last, b0, b1, t2, strict);
    d3 := SextetDecoded(e, d2, 4, Sextet1(b0, b1), Sextet2(b1, b2), rest, strict);
  }

  /** Decoding inverts encoding: for all bytes, either alphabet, either behaviour, with the
      same alphabet or with detection. */
  lemma RoundTrip(e: Alphabet, d: Alphabet, data: seq<Byte>, strict: bool)
    requires d == Auto || d == e || (e == Auto && d == Standard)
    ensures Decoded(d, Encode(e, data), strict) == Ok(data)
  {
    EncodedDecodes(e, d, 0, data, strict);
  }

  // ---- Sizes ------------------------------------------------------------------------

  function RequiredEncodeSize(size: nat): nat {
    (size / 3 + if size % 3 != 0 then 1 else 0) * 4
  }

  function MaxDecodeSize(size: nat): nat {
    (size / 4 + if size % 4 != 0 then 1 else 0) * 3
  }

  lemma {:induction false} EncodedSize(a: Alphabet, data: seq<Byte>)
    ensures |Encode(a, data)| == RequiredEncodeSize(|data|) == 4 * ((|data| + 2) / 3)
    decreases |data|
  {
    hide Alpha, Sextet0, Sextet1, Sextet2, Sextet3;
    if |data| >= 3 {
      EncodedSize(a, data[3..]);
    }
  }

  /** The characters in front of the first padding character. */
  function Sextets(s: seq<Byte>): (k: nat)
    ensures k <= |s| && (k < |s| ==> s[k] == PAD) && forall i :: 0 <= i < k ==> s[i] != PAD
  {
    if s == [] || s[0] == PAD then 0 else 1 + Sextets(s[1..])
  }

  lemma {:induction false} DecodedSizeFrom(a: Alphabet, bits: nat, last: Byte, s: seq<Byte>, strict: bool)
    requires BitCount(bits)
    ensures var r := Decode(a, bits, last, s, strict);
            r.Ok? ==> |r.value| == (bits + 6 * Sextets(s)) / 8
    decreases |s|
  {
    hide Value, Merge;
    if s != [] && s[0] != PAD {
      var v := Value(a, s[0]);
      if v.Some? {
        DecodedSizeFrom(v.value.alphabet, if bits >= 2 then bits - 2 else bits + 6, v.value.value, s[1..], strict);
      }
    }
  }

  /** After k sextets exactly floor(6k / 8) bytes are written, never more than the size
      function promises, nor more than were read. */
  lemma DecodedSize(a: Alphabet, s: seq<Byte>, strict: bool)
    requires Decoded(a, s, strict).Ok?
    ensures var n := |Decoded(a, s, strict).value|;
            n == 6 * Sextets(s) / 8 && n <= MaxDecodeSize(|s|) && n <= |s|
  {
    DecodedSizeFrom(a, 0, 0, s, strict);
  }

  // ---- Which texts decode -----------------------------------------------------------

  predicate InAlphabet(a: Alphabet, s: seq<Byte>) {
    forall i :: 0 <= i < |s| ==> Value(a, s[i]).Some?
  }

  predicate PaddingOk(s: seq<Byte>, strict: bool) {
    strict ==> AllPads(s[Sextets(s)..])
  }

  lemma {:induction false} FixedDecodesExactly(a: Alphabet, bits: nat, last: Byte, s: seq<Byte>, strict: bool)
    requires BitCount(bits) && a != Auto
    ensures Decode(a, bits, last, s, strict).Ok? <==> InAlphabet(a, s[..Sextets(s)]) && PaddingOk(s, strict)
    decreases |s|
  {
    hide Merge;
    if s == [] || s[0] == PAD {
      DecodeEnds(a, bits, last, s, strict);
      assert s[0..] == s;
    } else {
      var v := Value(a, s[0]);
      var k := Sextets(s);
      assert s[..k] == [s[0]] + s[1..][..k - 1] && s[k..] == s[1..][k - 1..];
      if v.Some? {
        assert v.value.alphabet == a;
        FixedDecodesExactly(a, if bits >= 2 then bits - 2 else bits + 6, v.value.value, s[1..], strict);
        DecodeUnfolds(a, bits, last, s, strict);
        InAlphabetCons(a, s[0], s[1..][..k - 1]);
      } else {
        assert s[..k][0] == s[0];
      }
    }
  }

  lemma InAlphabetCons(a: Alphabet, c: Byte, s: seq<Byte>)
    ensures InAlphabet(a, [c] + s) <==> Value(a, c).Some? && InAlphabet(a, s)
  {
    hide Value;
    var t := [c] + s;
    assert t[0] == c && forall i :: 0 <= i < |s| ==> t[i + 1] == s[i];
    if InAlphabet(a, t) {
      forall i | 0 <= i < |s| ensures Value(a, s[i]).Some? {
        assert Value(a, t[i + 1]).Some?;
      }
    }
  }

  /** Detection decodes what one of the two alphabets decodes, to the same bytes. */
  lemma {:induction false} AutoExactly(bits: nat, last: Byte, s: seq<Byte>, strict: bool)
    requires BitCount(bits)
    ensures var r := Decode(Auto, bits, last, s, strict);
            var std, url := Decode(Standard, bits, last, s, strict), Decode(UrlSafe, bits, last, s, strict);
            r == if std.Ok? then std else url
    decreases |s|
  {
    if s == [] || s[0] == PAD {
      DecodeEnds(Auto, bits, last, s, strict);
      DecodeEnds(Standard, bits, last, s, strict);
      DecodeEnds(UrlSafe, bits, last, s, strict);
    } else {
      hide Decode, Merge;
      DecodeUnfolds(Auto, bits, last, s, strict);
      DecodeUnfolds(Standard, bits, last, s, strict);
      DecodeUnfolds(UrlSafe, bits, last, s, strict);
      Detection(s[0]);
      var v := Value(Auto, s[0]);
      if v.Some? && v.value.alphabet == Auto {
        AutoExactly(if bits >= 2 then bits - 2 else bits + 6, v.value.value, s[1..], strict);
      }
    }
  }

  lemma Detection(c: Byte)
    ensures var v, std, url := Value(Auto, c), Value(Standard, c), Value(UrlSafe, c);
            if v.None? then std.None? && url.None?
            else if v.value.alphabet == Auto then
              std == Some(Sextet(v.value.value, Standard)) && url == Some(Sextet(v.value.value, UrlSafe))
            else if v.value.alphabet == Standard then std == v && url.None?
            else url == v && std.None?
  {
  }

  // ---- The alphabets and the bits ---------------------------------------------------

  lemma OneGroup(a: Alphabet, b0: Byte, b1: Byte, b2: Byte)
    ensures Encode(a, [b0, b1, b2]) == Group3(a, b0, b1, b2)
  {
    hide Group3;
    assert [b0, b1, b2][3..] == [];
    EncodeNothing(a);
    assert Group3(a, b0, b1, b2) + [] == Group3(a, b0, b1, b2);
  }

  /** All sextets in order give the alphabet of table 1 of RFC 4648; table 2 differs in the last two. */
  lemma AlphabetSpelled()
    ensures Encode(Standard, [0x00, 0x10, 0x83]) == [0x41, 0x42, 0x43, 0x44] // ABCD
    ensures Encode(Standard, [0x10, 0x51, 0x87]) == [0x45, 0x46, 0x47, 0x48] // EFGH
    ensures Encode(Standard, [0x20, 0x92, 0x8B]) == [0x49, 0x4A, 0x4B, 0x4C] // IJKL
    ensures Encode(Standard, [0x30, 0xD3, 0x8F]) == [0x4D, 0x4E, 0x4F, 0x50] // MNOP
    ensures Encode(Standard, [0x41, 0x14, 0x93]) == [0x51, 0x52, 0x53, 0x54] // QRST
    ensures Encode(Standard, [0x51, 0x55, 0x97]) == [0x55, 0x56, 0x57, 0x58] // UVWX
    ensures Encode(Standard, [0x61, 0x96, 0x9B]) == [0x59, 0x5A, 0x61, 0x62] // YZab
    ensures Encode(Standard, [0x71, 0xD7, 0x9F]) == [0x63, 0x64, 0x65, 0x66] // cdef
    ensures Encode(Standard, [0x82, 0x18, 0xA3]) == [0x67, 0x68, 0x69, 0x6A] // ghij
    ensures Encode(Standard, [0x92, 0x59, 0xA7]) == [0x6B, 0x6C, 0x6D, 0x6E] // klmn
    ensures Encode(Standard, [0xA2, 0x9A, 0xAB]) == [0x6F, 0x70, 0x71, 0x72] // opqr
    ensures Encode(Standard, [0xB2, 0xDB, 0xAF]) == [0x73, 0x74, 0x75, 0x76] // stuv
    ensures Encode(Standard, [0xC3, 0x1C, 0xB3]) == [0x77, 0x78, 0x79, 0x7A] // wxyz
    ensures Encode(Standard, [0xD3, 0x5D, 0xB7]) == [0x30, 0x31, 0x32, 0x33] // 0123
    ensures Encode(Standard, [0xE3, 0x9E, 0xBB]) == [0x34, 0x35, 0x36, 0x37] // 4567
    ensures Encode(Standard, [0xF3, 0xDF, 0xBF]) == [0x38, 0x39, 0x2B, 0x2F] // 89+/
    ensures Encode(UrlSafe, [0xF3, 0xDF, 0xBF]) == [0x38, 0x39, 0x2D, 0x5F] // 89-_
  {
    hide Encode;
    OneGroup(Standard, 0x00, 0x10, 0x83);
    OneGroup(Standard, 0x10, 0x51, 0x87);
    OneGroup(Standard, 0x20, 0x92, 0x8B);
    OneGroup(Standard, 0x30, 0xD3, 0x8F);
    OneGroup(Standard, 0x41, 0x14, 0x93);
    OneGroup(Standard, 0x51, 0x55, 0x97);
    OneGroup(Standard, 0x61, 0x96, 0x9B);
    OneGroup(Standard, 0x71, 0xD7, 0x9F);
    OneGroup(Standard, 0x82, 0x18, 0xA3);
    OneGroup(Standard, 0x92, 0x59, 0xA7);
    OneGroup(Standard, 0xA2, 0x9A, 0xAB);
    OneGroup(Standard, 0xB2, 0xDB, 0xAF);
    OneGroup(Standard, 0xC3, 0x1C, 0xB3);
    OneGroup(Standard, 0xD3, 0x5D, 0xB7);
    OneGroup(Standard, 0xE3, 0x9E, 0xBB);
    OneGroup(Standard, 0xF3, 0xDF, 0xBF);
    OneGroup(UrlSafe, 0xF3, 0xDF, 0xBF);
  }

  /** Three bytes and their four sextets are the same 24 bits, from the left. */
  lemma SameBits(b0: Byte, b1: Byte, b2: Byte)
    ensures ((b0 as bv24) << 16) | ((b1 as bv24) << 8) | (b2 as bv24)
         == ((Sextet0(b0) as bv24) << 18) | ((Sextet1(b0, b1) as bv24) << 12) |
            ((Sextet2(b1, b2) as bv24) << 6) | (Sextet3(b2) as bv24)
  {
  }

  /** One or two bytes are padded to four characters (section 10 of RFC 4648: `Zg==` and `Zm8=`). */
  lemma PaddingSpelled()
    ensures Encode(Standard, [0x66]) == [0x5A, 0x67, 0x3D, 0x3D]
    ensures Encode(Standard, [0x66, 0x6F]) == [0x5A, 0x6D, 0x38, 0x3D]
  {
  }
}
