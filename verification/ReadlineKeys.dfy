/** What each key shows: the text and the cursor after it, in terms of the text, the cursor and
    the history before it. */
module ReadlineKeys {
  import opened Bytes
  import opened Wrappers
  import opened Utf8
  import opened LineDoc
  import opened Readline
  import opened ReadlineLaws

  // ---- Editing and moving -----------------------------------------------------------

  /** Left, Right, Home and End keep the text and move the cursor by one, or to an end. */
  lemma CursorKeys(s: Session, isSpace: Class)
    requires ValidSession(s)
    ensures var t, c := s.doc.text, s.doc.cursor;
            && KeyStep(s, Left, isSpace).doc == Doc(t, if c == 0 then 0 else c - 1)
            && KeyStep(s, Right, isSpace).doc == Doc(t, if c == |t| then |t| else c + 1)
            && KeyStep(s, Home, isSpace).doc == Doc(t, 0)
            && KeyStep(s, End, isSpace).doc == Doc(t, |t|)
  {
  }

  /** A character goes in at the cursor, which passes it; Delete takes the one at the cursor and
      Backspace the one in front of it; a Tab without candidates is a character. */
  lemma EditingKeys(s: Session, cp: CodePoint, isSpace: Class)
    requires ValidSession(s)
    ensures var t, c := s.doc.text, s.doc.cursor;
            && KeyStep(s, Character(cp), isSpace).doc == Doc(t[..c] + [cp] + t[c..], c + 1)
            && KeyStep(s, Delete, isSpace).doc == (if c == |t| then s.doc else Doc(t[..c] + t[c + 1..], c))
            && KeyStep(s, Backspace, isSpace).doc == (if c == 0 then s.doc else Doc(t[..c - 1] + t[c..], c - 1))
            && KeyStep(s, Completion([]), isSpace).doc == Doc(t[..c] + [0x09] + t[c..], c + 1)
  {
  }

  /** The word keys keep the text. To the left the cursor crosses spaces and then a whole word. */
  lemma WordLeftKey(s: Session, isSpace: Class, p: nat)
    requires ValidSession(s) && p <= s.doc.cursor
    ensures var t, c := s.doc.text, s.doc.cursor;
            KeyStep(s, WordLeft, isSpace).doc == Doc(t, p) <==>
            exists q :: && p <= q <= c
                        && AllSpaces(t, q, c, isSpace, true) && AllSpaces(t, p, q, isSpace, false)
                        && (q == 0 || !isSpace(t[q - 1])) && (p == 0 || isSpace(t[p - 1]))
  {
    hide WordStart, AllSpaces;
    WordStartExactly(s.doc.text, s.doc.cursor, isSpace, p);
  }

  /** To the right it crosses spaces, a whole word and the spaces behind it, if they are there. */
  lemma WordRightKey(s: Session, isSpace: Class, r: nat)
    requires ValidSession(s) && s.doc.cursor <= r <= |s.doc.text|
    ensures var t, c := s.doc.text, s.doc.cursor;
            KeyStep(s, WordRight, isSpace).doc == Doc(t, r) <==>
            exists p, q :: && c <= p <= q <= r && AllSpaces(t, c, p, isSpace, true)
                           && AllSpaces(t, p, q, isSpace, false) && AllSpaces(t, q, r, isSpace, true)
                           && (p == |t| || !isSpace(t[p])) && (q == |t| || isSpace(t[q]))
                           && (r == |t| || !isSpace(t[r]))
  {
    hide RunRight;
    var t, c := s.doc.text, s.doc.cursor;
    var p0 := RunRight(t, c, isSpace, true);
    var q0 := RunRight(t, p0, isSpace, false);
    RunRightMeans(t, c, isSpace, true);
    RunRightMeans(t, p0, isSpace, false);
    RunRightMeans(t, q0, isSpace, true);
    if exists p, q :: && c <= p <= q <= r && AllSpaces(t, c, p, isSpace, true)
                      && AllSpaces(t, p, q, isSpace, false) && AllSpaces(t, q, r, isSpace, true)
                      && (p == |t| || !isSpace(t[p])) && (q == |t| || isSpace(t[q]))
                      && (r == |t| || !isSpace(t[r]))
    {
      var p, q :| && c <= p <= q <= r && AllSpaces(t, c, p, isSpace, true)
                  && AllSpaces(t, p, q, isSpace, false) && AllSpaces(t, q, r, isSpace, true)
                  && (p == |t| || !isSpace(t[p])) && (q == |t| || isSpace(t[q]))
                  && (r == |t| || !isSpace(t[r]));
      assert p == p0;
      assert q == q0;
    }
  }

  /** The keys that edit or move leave the history alone. */
  lemma HistoryUntouched(s: Session, k: Key, isSpace: Class)
    requires ValidSession(s) && !k.Up? && !k.Down?
    ensures KeyStep(s, k, isSpace).hist == s.hist
  {
    hide Loaded, Encode;
  }

  /** After any key but an accepted completion, the mark is set exactly when the line ends with a
      backslash or a slash. */
  lemma MarkShown(s: Session, k: Key, isSpace: Class)
    requires ValidSession(s) && !Accepted(k)
    ensures var r := KeyStep(s, k, isSpace);
            r.special <==> r.doc.text != [] && r.doc.text[|r.doc.text| - 1] in [0x5C, 0x2F]
  {
    hide UpKey, DownKey, EditKey, InsertAt;
  }

  // ---- Completions ------------------------------------------------------------------

  /** The line that is accepted, unless it is the only candidate and on the screen already; the
      cursor stands in front of the byte it asks for, or at the end. */
  lemma CompletionShows(s: Session, k: Key, text: Text, isSpace: Class)
    requires Good(s) && Accepted(k) && Encodable(text) && k.candidates[0].0 == Encode(text)
    ensures ValidSession(s)
    ensures var r, pos := KeyStep(s, k, isSpace).doc, k.candidates[0].1;
            && r.text == text
            && (|k.candidates| == 1 && s.doc.text == text ==> r == s.doc)
            && (|k.candidates| > 1 || s.doc.text != text ==>
                  if pos < 0 then r.cursor == |text|
                  else && r.cursor <= |text|
                       && Offset(text, r.cursor) <= pos
                       && (r.cursor < |text| ==> pos < Offset(text, r.cursor + 1)))
  {
    hide Encode, DecodeAll;
    DecodeInvertsEncode(text);
    DecodeInvertsEncode(s.doc.text);
    NoOffset(text);
    CursorAtMeans(text, 0, k.candidates[0].1);
  }

  lemma NoOffset(text: Text)
    ensures Offset(text, 0) == 0
  {
  }

  lemma {:induction false} CursorAtMeans(text: Text, i: nat, pos: int)
    requires i <= |text| && Encodable(text)
    ensures var c := CursorAt(text, i, pos);
            && (Offset(text, i) <= pos ==> Offset(text, c) <= pos)
            && (c < |text| ==> pos < Offset(text, c + 1))
    decreases |text| - i
  {
    hide Offset;
    if i < |text| && Offset(text, i + 1) <= pos {
      CursorAtMeans(text, i + 1, pos);
    }
  }

  // ---- History ----------------------------------------------------------------------

  /** The line shows history entry `line`, with the cursor at its end. */
  predicate Shows(d: Doc, line: seq<Byte>) {
    Encodable(d.text) && Encode(d.text) == line && d.cursor == |d.text|
  }

  lemma LoadedShows(line: seq<Byte>)
    requires WellEncoded(line)
    ensures Shows(Loaded(line, -1), line)
  {
    hide Encode, DecodeAll;
    LoadedGood(line, -1);
    var text :| Encodable(text) && line == Encode(text);
    DecodeInvertsEncode(text);
  }

  lemma UpOnce(s: Session, isSpace: Class)
    requires Good(s) && s.hist.entries != []
    ensures var from := if s.hist.viewing.Some? then s.hist.viewing.value else |s.hist.entries|;
            var i := if from == 0 then 0 else from - 1;
            && ValidSession(s) && Shows(KeyStep(s, Up, isSpace).doc, s.hist.entries[i])
            && KeyStep(s, Up, isSpace).hist.viewing == Some(i)
            && KeyStep(s, Up, isSpace).hist.entries == s.hist.entries
  {
    hide Encode, DecodeAll, Loaded, WellEncoded, Shows;
    HistoryKeysGood(s, Up, isSpace);
    var from := if s.hist.viewing.Some? then s.hist.viewing.value else |s.hist.entries|;
    LoadedShows(s.hist.entries[if from == 0 then 0 else from - 1]);
  }

  /** `n` times Up from the typed line shows the entry `n` places from the end, or the first. */
  lemma UpsShow(s: Session, n: nat, isSpace: Class)
    requires Good(s) && s.hist.viewing.None? && s.hist.entries != [] && n > 0
    ensures Shows(Repeated(s, Up, n, isSpace).doc,
                  s.hist.entries[if n <= |s.hist.entries| then |s.hist.entries| - n else 0])
  {
    hide Shows, Encode, Good, KeyStep;
    var before := Repeated(s, Up, n - 1, isSpace);
    if n > 1 {
      AfterUps(s, n - 1, isSpace);
    }
    UpOnce(before, isSpace);
  }

  /** Each Down shows the next entry; the one behind the last brings the typed line back. */
  lemma DownShows(s: Session, isSpace: Class)
    requires Good(s) && s.hist.viewing.Some? && s.hist.entries != []
    ensures var i := s.hist.viewing.value + 1;
            && ValidSession(s)
            && (i < |s.hist.entries| ==>
                  && Shows(KeyStep(s, Down, isSpace).doc, s.hist.entries[i])
                  && KeyStep(s, Down, isSpace).hist == s.hist.(viewing := Some(i)))
            && (i >= |s.hist.entries| ==>
                  && Shows(KeyStep(s, Down, isSpace).doc, s.hist.backup)
                  && KeyStep(s, Down, isSpace).hist == Hist(s.hist.entries, None, []))
  {
    hide Encode, DecodeAll, Loaded, WellEncoded, Shows;
    HistoryKeysGood(s, Down, isSpace);
    var i := s.hist.viewing.value + 1;
    LoadedShows(if i < |s.hist.entries| then s.hist.entries[i] else s.hist.backup);
  }

  /** With nothing to go to the line stays: Up in an empty history, Down on the typed line. */
  lemma NothingShown(s: Session, isSpace: Class)
    requires Good(s)
    ensures ValidSession(s)
    ensures s.hist.entries == [] ==> KeyStep(s, Up, isSpace).doc == s.doc
    ensures s.hist.viewing.None? ==> KeyStep(s, Down, isSpace).doc == s.doc && KeyStep(s, Down, isSpace).hist == s.hist
  {
    hide Encode, DecodeAll, Loaded, WellEncoded;
  }

  /** Enter appends the line to the history, unless it is empty or the last entry again. */
  lemma LineAdded(h: Hist, line: seq<Byte>)
    ensures line == [] ==> Add(h, line) == h
    ensures line != [] ==>
              && Add(h, line).viewing.None? && Add(h, line).backup == []
              && Add(h, line).entries ==
                 if h.entries != [] && h.entries[|h.entries| - 1] == line then h.entries else h.entries + [line]
  {
  }

  /** The line feed at the end of a line is not remembered. */
  lemma LineFeedForgotten(line: seq<Byte>)
    ensures HistoryLine(line + [0x0A]) == line
    ensures line == [] || line[|line| - 1] != 0x0A ==> HistoryLine(line) == line
  {
  }
}
