/** Cutting markup into segments (`segmentize_markers`). */
module MarkerSegments {
  import opened Wrappers
  import opened Sequences

  datatype SegmentType = PlainText | Marker

  datatype Segment = Segment(kind: SegmentType, value: string)

  predicate IsOpener(c: char) {
    c == '<' || c == '['
  }

  predicate IsCloser(opener: char, c: char) {
    (opener == '<' && c == '>') || (opener == '[' && c == ']')
  }

  function TextUnlessEmpty(s: string): seq<Segment> {
    if s == "" then [] else [Segment(PlainText, s)]
  }

  /** The segments of `pending + rest`, where `pending` is the text since the last border and
      `opener` the bracket it started with, if any. */
  function Cut(pending: string, opener: Option<char>, rest: string): seq<Segment>
    decreases |rest|
  {
    if rest == "" then TextUnlessEmpty(pending)
    else
      var c := rest[0];
      if opener.None? && IsOpener(c) then TextUnlessEmpty(pending) + Cut([c], Some(c), rest[1..])
      else if opener.Some? && IsCloser(opener.value, c) then
        [Segment(Marker, pending + [c])] + Cut("", None, rest[1..])
      else Cut(pending + [c], opener, rest[1..])
  }

  function Segments(text: string): seq<Segment> {
    Cut("", None, text)
  }

  method SegmentizeMarkers(text: string) returns (segments: seq<Segment>)
    ensures segments == Segments(text)
  {
    segments := [];
    var inMarker, markerOpener := false, '\0';
    var lastBorder := 0;
    var cur := 0;
    while cur < |text|
      invariant 0 <= lastBorder <= cur <= |text|
      invariant segments + Cut(text[lastBorder..cur], if inMarker then Some(markerOpener) else None, text[cur..])
             == Segments(text)
    {
      ghost var pending, rest := text[lastBorder..cur], text[cur..];
      ghost var opener := if inMarker then Some(markerOpener) else None;
      var c := text[cur];
      assert rest[0] == c && rest[1..] == text[cur + 1..];
      assert text[lastBorder..cur + 1] == pending + [c];
      assert text[cur..cur + 1] == [c] && text[cur + 1..cur + 1] == "";
      if !inMarker && IsOpener(c) {
        Assoc(segments, TextUnlessEmpty(pending), Cut([c], Some(c), rest[1..]));
        if lastBorder < cur {
          segments := segments + [Segment(PlainText, text[lastBorder..cur])];
        } else {
          assert segments + [] == segments;
        }
        lastBorder, inMarker, markerOpener := cur, true, c;
      } else if inMarker && IsCloser(markerOpener, c) {
        Assoc(segments, [Segment(Marker, pending + [c])], Cut("", None, rest[1..]));
        segments := segments + [Segment(Marker, text[lastBorder..cur + 1])];
        lastBorder, inMarker, markerOpener := cur + 1, false, '\0';
      }
      cur := cur + 1;
    }
    assert text[lastBorder..cur] == text[lastBorder..] && text[cur..] == "";
    if lastBorder < |text| {
      segments := segments + [Segment(PlainText, text[lastBorder..])];
    } else {
      assert segments + [] == segments;
    }
  }

  // ---- What the segments are --------------------------------------------------------

  function Concat(segments: seq<Segment>): string {
    if segments == [] then "" else segments[0].value + Concat(segments[1..])
  }

  predicate NoOpeners(s: string) {
    forall i :: 0 <= i < |s| ==> !IsOpener(s[i])
  }

  /** Starts with an opener that nothing closes before the last character. */
  predicate OpenedOnly(s: string) {
    s != "" && IsOpener(s[0]) && forall i :: 1 <= i < |s| - 1 ==> !IsCloser(s[0], s[i])
  }

  predicate Unclosed(s: string) {
    s != "" && IsOpener(s[0]) && forall i :: 1 <= i < |s| ==> !IsCloser(s[0], s[i])
  }

  predicate WellCut(seg: Segment, last: bool) {
    match seg.kind
    case Marker => |seg.value| >= 2 && OpenedOnly(seg.value) && IsCloser(seg.value[0], seg.value[|seg.value| - 1])
    case PlainText => seg.value != "" && (NoOpeners(seg.value) || (last && Unclosed(seg.value)))
  }

  predicate AllWellCut(segments: seq<Segment>) {
    forall i :: 0 <= i < |segments| ==> WellCut(segments[i], i == |segments| - 1)
  }

  predicate PendingFits(pending: string, opener: Option<char>) {
    if opener.Some? then Unclosed(pending) && pending[0] == opener.value else NoOpeners(pending)
  }

  lemma {:induction false} CutMeans(pending: string, opener: Option<char>, rest: string)
    requires PendingFits(pending, opener)
    ensures Concat(Cut(pending, opener, rest)) == pending + rest
    ensures AllWellCut(Cut(pending, opener, rest))
    decreases |rest|
  {
    if rest == "" {
      OneSegment(pending, opener);
      assert pending + rest == pending;
    } else {
      var c := rest[0];
      assert pending + rest == (pending + [c]) + rest[1..];
      if opener.None? && IsOpener(c) {
        CutMeans([c], Some(c), rest[1..]);
        TextThen(pending, Cut([c], Some(c), rest[1..]));
        assert pending + rest == pending + ([c] + rest[1..]);
      } else if opener.Some? && IsCloser(opener.value, c) {
        CutMeans("", None, rest[1..]);
        SegmentThen(Segment(Marker, pending + [c]), Cut("", None, rest[1..]));
      } else {
        CutMeans(pending + [c], opener, rest[1..]);
      }
    }
  }

  lemma OneSegment(pending: string, opener: Option<char>)
    requires PendingFits(pending, opener)
    ensures Concat(TextUnlessEmpty(pending)) == pending && AllWellCut(TextUnlessEmpty(pending))
  {
    if pending != "" {
      assert TextUnlessEmpty(pending)[1..] == [];
    }
  }

  lemma SegmentThen(seg: Segment, rest: seq<Segment>)
    requires WellCut(seg, false) && AllWellCut(rest)
    ensures Concat([seg] + rest) == seg.value + Concat(rest) && AllWellCut([seg] + rest)
  {
    assert ([seg] + rest)[1..] == rest;
    assert forall i :: 1 <= i < |rest| + 1 ==> ([seg] + rest)[i] == rest[i - 1];
  }

  lemma TextThen(pending: string, rest: seq<Segment>)
    requires NoOpeners(pending) && AllWellCut(rest)
    ensures Concat(TextUnlessEmpty(pending) + rest) == pending + Concat(rest)
    ensures AllWellCut(TextUnlessEmpty(pending) + rest)
  {
    if pending != "" {
      SegmentThen(Segment(PlainText, pending), rest);
    } else {
      assert TextUnlessEmpty(pending) + rest == rest && pending + Concat(rest) == Concat(rest);
    }
  }

  /** The segments concatenate to the text and none is empty; a marker runs from an opener to
      its first closer, a text holds no opener, except a last one that nothing closes. */
  lemma SegmentsConserve(text: string)
    ensures Concat(Segments(text)) == text
    ensures AllWellCut(Segments(text))
  {
    CutMeans("", None, text);
    assert "" + text == text;
  }

  // ---- Where the cuts are -----------------------------------------------------------

  lemma {:induction false} InsideMarker(open: char, close: char, pending: string, s: string, rest: string)
    requires (open == '<' && close == '>') || (open == '[' && close == ']')
    requires forall i :: 0 <= i < |s| ==> s[i] != close
    ensures Cut(pending, Some(open), s + ([close] + rest)) == [Segment(Marker, pending + s + [close])] + Segments(rest)
    decreases |s|
  {
    var t := s + ([close] + rest);
    if s == "" {
      assert t == [close] + rest && t[1..] == rest && pending + s == pending;
    } else {
      assert t[0] == s[0] && t[1..] == s[1..] + ([close] + rest);
      InsideMarker(open, close, pending + [s[0]], s[1..], rest);
      assert pending + [s[0]] + s[1..] == pending + s;
    }
  }

  /** A marker runs from `<` to the first `>`, or from `[` to the first `]`. */
  lemma MarkerFirst(open: char, s: string, close: char, rest: string)
    requires (open == '<' && close == '>') || (open == '[' && close == ']')
    requires forall i :: 0 <= i < |s| ==> s[i] != close
    ensures Segments([open] + s + [close] + rest) == [Segment(Marker, [open] + s + [close])] + Segments(rest)
  {
    var t := [open] + s + [close] + rest;
    assert t[1..] == s + ([close] + rest);
    InsideMarker(open, close, [open], s, rest);
    assert [] + Cut([open], Some(open), t[1..]) == Cut([open], Some(open), t[1..]);
  }

  lemma {:induction false} TextUntil(pending: string, t: string, rest: string)
    requires forall i :: 0 <= i < |t| ==> t[i] != '<' && t[i] != '['
    requires rest == "" || rest[0] == '<' || rest[0] == '['
    requires pending + t != ""
    ensures Cut(pending, None, t + rest) == [Segment(PlainText, pending + t)] + Segments(rest)
    decreases |t|
  {
    if t == "" {
      assert t + rest == rest && pending + t == pending;
      if rest != "" {
        assert [] + Cut([rest[0]], Some(rest[0]), rest[1..]) == Cut([rest[0]], Some(rest[0]), rest[1..]);
      }
    } else {
      assert (t + rest)[1..] == t[1..] + rest;
      assert pending + [t[0]] + t[1..] == pending + t;
      TextUntil(pending + [t[0]], t[1..], rest);
    }
  }

  /** Text runs up to the next `<` or `[`. */
  lemma TextFirst(t: string, rest: string)
    requires t != "" && forall i :: 0 <= i < |t| ==> t[i] != '<' && t[i] != '['
    requires rest == "" || rest[0] == '<' || rest[0] == '['
    ensures Segments(t + rest) == [Segment(PlainText, t)] + Segments(rest)
  {
    TextUntil("", t, rest);
    assert "" + t == t;
  }

  lemma {:induction false} NeverClosed(open: char, close: char, pending: string, s: string)
    requires (open == '<' && close == '>') || (open == '[' && close == ']')
    requires pending != "" && forall i :: 0 <= i < |s| ==> s[i] != close
    ensures Cut(pending, Some(open), s) == [Segment(PlainText, pending + s)]
    decreases |s|
  {
    if s == "" {
      assert pending + s == pending;
    } else {
      assert pending + [s[0]] + s[1..] == pending + s;
      NeverClosed(open, close, pending + [s[0]], s[1..]);
    }
  }

  /** Without its closing bracket the rest is text. */
  lemma UnclosedFirst(open: char, close: char, s: string)
    requires (open == '<' && close == '>') || (open == '[' && close == ']')
    requires forall i :: 0 <= i < |s| ==> s[i] != close
    ensures Segments([open] + s) == [Segment(PlainText, [open] + s)]
  {
    NeverClosed(open, close, [open], s);
    assert ([open] + s)[1..] == s;
    assert [] + Cut([open], Some(open), s) == Cut([open], Some(open), s);
  }
}
