/** UTF-8 as the line editor codes and walks it: `append_utf8`, `decode_utf8`,
    `prev_utf8_char_pos` and `next_utf8_char_pos`, and how they agree on encoded lines. */
module Utf8 {
  import opened Bytes

  type CodePoint = bv32
  type Text = seq<CodePoint>

  const MAX_CODE_POINT: CodePoint := 0x10FFFF

  predicate IsContinuation(b: Byte) {
    b & 0xC0 == 0x80
  }

  // The bytes of a multi-byte encoding: the three lead bytes, and the continuation bytes for
  // bits 0-5, 6-11 and 12-17.
  function Head2(ch: CodePoint): Byte { 0xC0 | (((ch >> 6) & 0x1F) as Byte) }
  function Head3(ch: CodePoint): Byte { 0xE0 | (((ch >> 12) & 0x0F) as Byte) }
  function Head4(ch: CodePoint): Byte { 0xF0 | (((ch >> 18) & 0x07) as Byte) }
  function Tail0(ch: CodePoint): Byte { 0x80 | ((ch & 0x3F) as Byte) }
  function Tail6(ch: CodePoint): Byte { 0x80 | (((ch >> 6) & 0x3F) as Byte) }
  function Tail12(ch: CodePoint): Byte { 0x80 | (((ch >> 12) & 0x3F) as Byte) }

  function AppendUtf8(ch: CodePoint): (out: seq<Byte>)
    ensures |out| <= 4
  {
    if ch <= 0x7F then [ch as Byte]
    else if ch <= 0x7FF then [Head2(ch), Tail0(ch)]
    else if ch <= 0xFFFF then [Head3(ch), Tail6(ch), Tail0(ch)]
    else if ch <= MAX_CODE_POINT then [Head4(ch), Tail12(ch), Tail6(ch), Tail0(ch)]
    else []
  }

  /** A decoded code point and how many bytes it took. */
  datatype Decoded = Decoded(cp: CodePoint, advance: nat)

  const REPLACEMENT := Decoded(0xFFFD, 1)

  predicate IsAscii(c: Byte) { c & 0x80 == 0 }
  predicate IsHead2(c: Byte) { c & 0xE0 == 0xC0 }
  predicate IsHead3(c: Byte) { c & 0xF0 == 0xE0 }
  predicate IsHead4(c: Byte) { c & 0xF8 == 0xF0 }

  function Low6(b: Byte): CodePoint { (b & 0x3F) as CodePoint }

  function Join2(c: Byte, c1: Byte): CodePoint {
    (((c & 0x1F) as CodePoint) << 6) | Low6(c1)
  }

  function Join3(c: Byte, c1: Byte, c2: Byte): CodePoint {
    (((c & 0x0F) as CodePoint) << 12) | (Low6(c1) << 6) | Low6(c2)
  }

  function Join4(c: Byte, c1: Byte, c2: Byte, c3: Byte): CodePoint {
    (((c & 0x07) as CodePoint) << 18) | (Low6(c1) << 12) | (Low6(c2) << 6) | Low6(c3)
  }

  function DecodeUtf8(input: seq<Byte>, pos: nat): (d: Decoded)
    requires pos < |input|
    ensures 1 <= d.advance && pos + d.advance <= |input|
  {
    var c := input[pos];
    if IsAscii(c) then Decoded(c as CodePoint, 1)
    else if IsHead2(c) && pos + 1 < |input| then
      if !IsContinuation(input[pos + 1]) then REPLACEMENT
      else Decoded(Join2(c, input[pos + 1]), 2)
    else if IsHead3(c) && pos + 2 < |input| then
      if !IsContinuation(input[pos + 1]) || !IsContinuation(input[pos + 2]) then REPLACEMENT
      else Decoded(Join3(c, input[pos + 1], input[pos + 2]), 3)
    else if IsHead4(c) && pos + 3 < |input| then
      if !IsContinuation(input[pos + 1]) || !IsContinuation(input[pos + 2]) || !IsContinuation(input[pos + 3])
      then REPLACEMENT
      else Decoded(Join4(c, input[pos + 1], input[pos + 2], input[pos + 3]), 4)
    else REPLACEMENT
  }

  predicate Encodable(text: Text) {
    forall i :: 0 <= i < |text| ==> text[i] <= MAX_CODE_POINT
  }

  function Encode(text: Text): seq<Byte> {
    if text == [] then [] else AppendUtf8(text[0]) + Encode(text[1..])
  }

  /** Byte offset of code point `i`. */
  function Offset(text: Text, i: nat): nat
    requires i <= |text|
  {
    |Encode(text[..i])|
  }

  /** The lead byte is no continuation byte, the others are. */
  predicate CharShape(e: seq<Byte>) {
    e != [] && !IsContinuation(e[0]) && forall k :: 1 <= k < |e| ==> IsContinuation(e[k])
  }

  lemma EncodedShape(ch: CodePoint)
    requires ch <= MAX_CODE_POINT
    ensures CharShape(AppendUtf8(ch))
  {
    hide Head2, Head3, Head4, Tail0, Tail6, Tail12, IsContinuation, Join2, Join3, Join4;
    if ch <= 0x7F {
      OneByte(ch, ch as Byte);
    } else if ch <= 0x7FF {
      TwoBytes(ch);
    } else if ch <= 0xFFFF {
      ThreeBytes(ch);
    } else {
      FourBytes(ch);
    }
  }

  /** Decoding an encoded code point, whatever stands around it. */
  lemma DecodeEncoded(pre: seq<Byte>, ch: CodePoint, post: seq<Byte>)
    requires ch <= MAX_CODE_POINT
    ensures AppendUtf8(ch) != []
    ensures DecodeUtf8(pre + AppendUtf8(ch) + post, |pre|) == Decoded(ch, |AppendUtf8(ch)|)
  {
    var e := AppendUtf8(ch);
    var s := pre + e + post;
    assert forall k :: 0 <= k < |e| ==> s[|pre| + k] == e[k];
    DecodeShape(ch, s, |pre|);
  }

  lemma DecodeShape(ch: CodePoint, s: seq<Byte>, at: nat)
    requires ch <= MAX_CODE_POINT
    requires at + |AppendUtf8(ch)| <= |s| && s[at..at + |AppendUtf8(ch)|] == AppendUtf8(ch)
    ensures AppendUtf8(ch) != [] && DecodeUtf8(s, at) == Decoded(ch, |AppendUtf8(ch)|)
  {
    hide Head2, Head3, Head4, Tail0, Tail6, Tail12, IsContinuation, Join2, Join3, Join4;
    hide IsAscii, IsHead2, IsHead3, IsHead4;
    var e := s[at..at + |AppendUtf8(ch)|];
    if ch <= 0x7F {
      assert s[at] == e[0];
      OneByte(ch, s[at]);
    } else if ch <= 0x7FF {
      assert s[at] == e[0] && s[at + 1] == e[1];
      TwoBytes(ch);
    } else if ch <= 0xFFFF {
      assert s[at] == e[0] && s[at + 1] == e[1] && s[at + 2] == e[2];
      ThreeBytes(ch);
    } else {
      assert s[at] == e[0] && s[at + 1] == e[1] && s[at + 2] == e[2] && s[at + 3] == e[3];
      FourBytes(ch);
    }
  }

  lemma OneByte(ch: CodePoint, b: Byte)
    requires ch <= 0x7F && b == ch as Byte
    ensures IsAscii(b) && !IsContinuation(b) && b as CodePoint == ch
  {
  }

  lemma TwoBytes(ch: CodePoint)
    requires 0x7F < ch <= 0x7FF
    ensures !IsAscii(Head2(ch)) && !IsContinuation(Head2(ch)) && IsHead2(Head2(ch)) && IsContinuation(Tail0(ch))
    ensures Join2(Head2(ch), Tail0(ch)) == ch
  {
  }

  lemma ThreeBytes(ch: CodePoint)
    requires 0x7FF < ch <= 0xFFFF
    ensures !IsAscii(Head3(ch)) && !IsContinuation(Head3(ch)) && !IsHead2(Head3(ch)) && IsHead3(Head3(ch))
    ensures IsContinuation(Tail6(ch)) && IsContinuation(Tail0(ch))
    ensures Join3(Head3(ch), Tail6(ch), Tail0(ch)) == ch
  {
  }

  lemma FourBytes(ch: CodePoint)
    requires 0xFFFF < ch <= MAX_CODE_POINT
    ensures !IsAscii(Head4(ch)) && !IsContinuation(Head4(ch))
    ensures !IsHead2(Head4(ch)) && !IsHead3(Head4(ch)) && IsHead4(Head4(ch))
    ensures IsContinuation(Tail12(ch)) && IsContinuation(Tail6(ch)) && IsContinuation(Tail0(ch))
    ensures Join4(Head4(ch), Tail12(ch), Tail6(ch), Tail0(ch)) == ch
  {
  }

  lemma {:induction false} EncodeAppend(a: Text, b: Text)
    ensures Encode(a + b) == Encode(a) + Encode(b)
    decreases |a|
  {
    hide AppendUtf8;
    if a == [] {
      assert a + b == b;
    } else {
      assert (a + b)[1..] == a[1..] + b;
      EncodeAppend(a[1..], b);
    }
  }

  lemma EncodeOne(ch: CodePoint)
    ensures Encode([ch]) == AppendUtf8(ch)
  {
    hide AppendUtf8;
    assert [ch][1..] == [];
  }

  /** The encoded line around code point `i`. */
  lemma SplitAt(text: Text, i: nat)
    requires i < |text|
    ensures Encode(text) == Encode(text[..i]) + AppendUtf8(text[i]) + Encode(text[i + 1..])
    ensures Offset(text, i + 1) == Offset(text, i) + |AppendUtf8(text[i])| <= |Encode(text)|
  {
    hide AppendUtf8, Encode;
    assert text[..i + 1] == text[..i] + [text[i]];
    EncodeAppend(text[..i], [text[i]]);
    EncodeOne(text[i]);
    assert text == text[..i + 1] + text[i + 1..];
    EncodeAppend(text[..i + 1], text[i + 1..]);
  }

  lemma OffsetEnds(text: Text)
    ensures Offset(text, 0) == 0 && Offset(text, |text|) == |Encode(text)|
  {
    assert text[..0] == [] && text[..|text|] == text;
  }

  lemma OffsetBound(text: Text, i: nat)
    requires i <= |text|
    ensures Offset(text, i) <= |Encode(text)|
    ensures Encode(text)[..Offset(text, i)] == Encode(text[..i])
    ensures Encode(text)[Offset(text, i)..] == Encode(text[i..])
  {
    hide AppendUtf8, Encode;
    assert text == text[..i] + text[i..];
    EncodeAppend(text[..i], text[i..]);
  }

  /** Code point `i` is decoded at its offset. */
  lemma DecodeAt(text: Text, i: nat)
    requires i < |text| && Encodable(text)
    ensures Offset(text, i) < |Encode(text)|
    ensures var d := DecodeUtf8(Encode(text), Offset(text, i));
            d.cp == text[i] && Offset(text, i) + d.advance == Offset(text, i + 1)
  {
    hide AppendUtf8, Encode, DecodeUtf8;
    SplitAt(text, i);
    DecodeEncoded(Encode(text[..i]), text[i], Encode(text[i + 1..]));
  }

  /** The bytes of code point `i`: one lead byte, then continuation bytes only. */
  lemma BytesAt(text: Text, i: nat)
    requires i < |text| && Encodable(text)
    ensures Offset(text, i) < Offset(text, i + 1) <= |Encode(text)|
    ensures !IsContinuation(Encode(text)[Offset(text, i)])
    ensures forall k :: Offset(text, i) < k < Offset(text, i + 1) ==> IsContinuation(Encode(text)[k])
  {
    hide AppendUtf8, Encode, IsContinuation;
    SplitAt(text, i);
    EncodedShape(text[i]);
    var e, at := AppendUtf8(text[i]), Offset(text, i);
    assert forall k :: at <= k < at + |e| ==> Encode(text)[k] == e[k - at];
  }

  lemma {:induction false} OffsetAtLeast(text: Text, i: nat)
    requires i <= |text| && Encodable(text)
    ensures i <= Offset(text, i)
  {
    hide Encode, AppendUtf8;
    if i == 0 {
      OffsetEnds(text);
    } else {
      OffsetAtLeast(text, i - 1);
      BytesAt(text, i - 1);
    }
  }

  // ---- Walking over bytes -----------------------------------------------------------

  /** `p` is where the character before `pos` starts, as far as continuation bytes tell. */
  predicate StartsBefore(line: seq<Byte>, pos: nat, p: nat)
    requires pos <= |line|
  {
    if pos == 0 then p == 0
    else
      && p < pos
      && (p == 0 || !IsContinuation(line[p]))
      && forall k :: p < k < pos ==> IsContinuation(line[k])
  }

  predicate StartsAfter(line: seq<Byte>, pos: nat, p: nat) {
    if pos >= |line| then p == |line|
    else
      && pos < p <= |line|
      && (p == |line| || !IsContinuation(line[p]))
      && forall k :: pos < k < p ==> IsContinuation(line[k])
  }

  method PrevUtf8CharPos(line: seq<Byte>, pos: nat) returns (p: nat)
    requires pos <= |line|
    ensures StartsBefore(line, pos, p)
  {
    if pos == 0 {
      return 0;
    }
    p := pos - 1;
    while p > 0 && line[p] & 0xC0 == 0x80
      invariant p < pos
      invariant forall k :: p < k < pos ==> IsContinuation(line[k])
    {
      p := p - 1;
    }
  }

  method NextUtf8CharPos(line: seq<Byte>, pos: nat) returns (p: nat)
    ensures StartsAfter(line, pos, p)
  {
    if pos >= |line| {
      return |line|;
    }
    p := pos + 1;
    while p < |line| && line[p] & 0xC0 == 0x80
      invariant pos < p <= |line|
      invariant forall k :: pos < k < p ==> IsContinuation(line[k])
    {
      p := p + 1;
    }
  }

  /** On encoded lines the walks step from code point to code point. */
  lemma PrevIsPrevious(text: Text, i: nat, p: nat)
    requires 0 < i <= |text| && Encodable(text)
    requires Offset(text, i) <= |Encode(text)| && StartsBefore(Encode(text), Offset(text, i), p)
    ensures p == Offset(text, i - 1)
  {
    hide AppendUtf8, Encode, IsContinuation;
    BytesAt(text, i - 1);
  }

  lemma NextIsNext(text: Text, i: nat, p: nat)
    requires i < |text| && Encodable(text)
    requires StartsAfter(Encode(text), Offset(text, i), p)
    ensures p == Offset(text, i + 1)
  {
    hide AppendUtf8, Encode, IsContinuation;
    BytesAt(text, i);
    if i + 1 < |text| {
      BytesAt(text, i + 1);
    } else {
      OffsetEnds(text);
    }
  }

  // ---- Reading a whole line ---------------------------------------------------------

  function DecodeAll(line: seq<Byte>, pos: nat): Text
    requires pos <= |line|
    decreases |line| - pos
  {
    if pos == |line| then []
    else var d := DecodeUtf8(line, pos); [d.cp] + DecodeAll(line, pos + d.advance)
  }

  lemma {:induction false} DecodeAllEncoded(text: Text, i: nat)
    requires i <= |text| && Encodable(text)
    ensures Offset(text, i) <= |Encode(text)|
    ensures DecodeAll(Encode(text), Offset(text, i)) == text[i..]
    decreases |text| - i
  {
    hide AppendUtf8, Encode, DecodeUtf8;
    OffsetBound(text, i);
    if i == |text| {
      OffsetEnds(text);
    } else {
      DecodeAt(text, i);
      DecodeAllEncoded(text, i + 1);
    }
  }

  ghost predicate WellEncoded(line: seq<Byte>) {
    exists text :: Encodable(text) && line == Encode(text)
  }

  /** Decoding inverts encoding, so a well-encoded line is the encoding of what it decodes to. */
  lemma DecodeInvertsEncode(text: Text)
    requires Encodable(text)
    ensures DecodeAll(Encode(text), 0) == text
  {
    hide AppendUtf8, Encode, DecodeUtf8;
    OffsetEnds(text);
    DecodeAllEncoded(text, 0);
  }

  // ---- Encodings at inputs ----------------------------------------------------------

  /** The first and the last code point of each length, and code points of the examples in
      section 7 of RFC 3629; behind the last one there is no encoding. */
  lemma EncodingsSpelled()
    ensures AppendUtf8(0x7F) == [0x7F] && AppendUtf8(0x41) == [0x41]
    ensures AppendUtf8(0x80) == [0xC2, 0x80] && AppendUtf8(0x7FF) == [0xDF, 0xBF]
    ensures AppendUtf8(0x0391) == [0xCE, 0x91]
    ensures AppendUtf8(0x800) == [0xE0, 0xA0, 0x80] && AppendUtf8(0xFFFF) == [0xEF, 0xBF, 0xBF]
    ensures AppendUtf8(0x2262) == [0xE2, 0x89, 0xA2] && AppendUtf8(0x65E5) == [0xE6, 0x97, 0xA5]
    ensures AppendUtf8(0x10000) == [0xF0, 0x90, 0x80, 0x80] && AppendUtf8(0x10FFFF) == [0xF4, 0x8F, 0xBF, 0xBF]
    ensures AppendUtf8(0x233B4) == [0xF0, 0xA3, 0x8E, 0xB4] && AppendUtf8(0x110000) == []
  {
  }

  // ---- Bytes that are no encoding ---------------------------------------------------

  predicate Continues(input: seq<Byte>, from: nat, n: nat) {
    from + n <= |input| && forall k :: from <= k < from + n ==> 0x80 <= input[k] <= 0xBF
  }

  /** One replacement character for one byte, exactly where the byte starts no complete group. */
  lemma ReplacedExactly(input: seq<Byte>, pos: nat)
    requires pos < |input|
    ensures var c, d := input[pos], DecodeUtf8(input, pos);
            && (c < 0x80 ==> d == Decoded(c as CodePoint, 1))
            && (c >= 0x80 ==>
                  var n := if 0xC0 <= c <= 0xDF then 1 else if 0xE0 <= c <= 0xEF then 2
                           else if 0xF0 <= c <= 0xF7 then 3 else 0;
                  if n > 0 && Continues(input, pos + 1, n) then d.advance == n + 1 else d == Decoded(0xFFFD, 1))
  {
    var c := input[pos];
    LeadRanges(c);
    forall k | pos < k < |input| ensures IsContinuation(input[k]) <==> 0x80 <= input[k] <= 0xBF {
      TailRange(input[k]);
    }
    hide IsContinuation, IsAscii, IsHead2, IsHead3, IsHead4, Join2, Join3, Join4;
    if Continues(input, pos + 1, 1) {
      assert 0x80 <= input[pos + 1] <= 0xBF;
    }
  }

  lemma LeadRanges(c: Byte)
    ensures IsAscii(c) <==> c < 0x80
    ensures IsHead2(c) <==> 0xC0 <= c <= 0xDF
    ensures IsHead3(c) <==> 0xE0 <= c <= 0xEF
    ensures IsHead4(c) <==> 0xF0 <= c <= 0xF7
    ensures c < 0x80 ==> c as CodePoint < 0x80
  {
  }

  lemma TailRange(b: Byte)
    ensures IsContinuation(b) <==> 0x80 <= b <= 0xBF
  {
  }
}
