/** Laws of the line editor's specification: what keys undo, what a word move means, what the
    history gives back, and which lines are handed back unharmed. */
module ReadlineLaws {
  import opened Bytes
  import opened Wrappers
  import opened Utf8
  import opened LineDoc
  import opened Readline

  // ---- Editing ----------------------------------------------------------------------

  /** Backspace takes back an insertion, and Delete takes it back from the left of it. */
  lemma InsertUndone(d: Doc, cp: CodePoint)
    requires d.cursor <= |d.text|
    ensures BackspaceAt(InsertAt(d, cp)) == d
    ensures DeleteAt(InsertAt(d, cp).(cursor := d.cursor)) == d
  {
    var t := InsertAt(d, cp).text;
    assert t[..d.cursor] == d.text[..d.cursor] && t[d.cursor + 1..] == d.text[d.cursor..];
    assert d.text[..d.cursor] + d.text[d.cursor..] == d.text;
  }

  /** Every character from `i` up to `j` is a space (or none is). */
  predicate AllSpaces(text: Text, i: nat, j: nat, isSpace: Class, spaces: bool)
    requires i <= j <= |text|
  {
    forall k :: i <= k < j ==> isSpace(text[k]) == spaces
  }

  lemma {:induction false} RunLeftMeans(text: Text, i: nat, isSpace: Class, spaces: bool)
    requires i <= |text|
    ensures var r := RunLeft(text, i, isSpace, spaces);
            AllSpaces(text, r, i, isSpace, spaces) && (r == 0 || isSpace(text[r - 1]) != spaces)
  {
    if i > 0 && isSpace(text[i - 1]) == spaces {
      RunLeftMeans(text, i - 1, isSpace, spaces);
    }
  }

  lemma {:induction false} RunRightMeans(text: Text, i: nat, isSpace: Class, spaces: bool)
    requires i <= |text|
    ensures var r := RunRight(text, i, isSpace, spaces);
            AllSpaces(text, i, r, isSpace, spaces) && (r == |text| || isSpace(text[r]) != spaces)
    decreases |text| - i
  {
    if i < |text| && isSpace(text[i]) == spaces {
      RunRightMeans(text, i + 1, isSpace, spaces);
    }
  }

  /** A word move to the left stops at the start of a word (or of the line): it crosses
      spaces, then one whole word, and is the only position that does. */
  lemma WordStartExactly(text: Text, i: nat, isSpace: Class, p: nat)
    requires p <= i <= |text|
    ensures p == WordStart(text, i, isSpace) <==>
            exists q :: && p <= q <= i
                        && AllSpaces(text, q, i, isSpace, true) && AllSpaces(text, p, q, isSpace, false)
                        && (q == 0 || !isSpace(text[q - 1])) && (p == 0 || isSpace(text[p - 1]))
  {
    var q0 := RunLeft(text, i, isSpace, true);
    var p0 := WordStart(text, i, isSpace);
    RunLeftMeans(text, i, isSpace, true);
    RunLeftMeans(text, q0, isSpace, false);
    if exists q :: && p <= q <= i
                   && AllSpaces(text, q, i, isSpace, true) && AllSpaces(text, p, q, isSpace, false)
                   && (q == 0 || !isSpace(text[q - 1])) && (p == 0 || isSpace(text[p - 1]))
    {
      var q :| && p <= q <= i
               && AllSpaces(text, q, i, isSpace, true) && AllSpaces(text, p, q, isSpace, false)
               && (q == 0 || !isSpace(text[q - 1])) && (p == 0 || isSpace(text[p - 1]));
      assert q == q0;
      assert p == p0;
    }
  }

  /** A word move to the right ends at the next word (or at the end), behind the word the
      cursor was in or in front of, and moves unless the line ends. */
  lemma NextWordMeans(text: Text, i: nat, isSpace: Class)
    requires i <= |text|
    ensures var r := NextWord(text, i, isSpace);
            && (r == |text| || !isSpace(text[r]))
            && (i < |text| ==> i < r)
            && (exists p, q :: i <= p <= q <= r && AllSpaces(text, i, p, isSpace, true)
                               && AllSpaces(text, p, q, isSpace, false) && AllSpaces(text, q, r, isSpace, true))
  {
    var p := RunRight(text, i, isSpace, true);
    var q := RunRight(text, p, isSpace, false);
    RunRightMeans(text, i, isSpace, true);
    RunRightMeans(text, p, isSpace, false);
    RunRightMeans(text, q, isSpace, true);
  }

  // ---- History ----------------------------------------------------------------------

  ghost function Repeated(s: Session, k: Key, n: nat, isSpace: Class): (r: Session)
    requires Good(s) && (k.Up? || k.Down?)
    ensures Good(r)
  {
    if n == 0 then s
    else
      var before := Repeated(s, k, n - 1, isSpace);
      HistoryKeysGood(before, k, isSpace);
      KeyStep(before, k, isSpace)
  }

  function UpIndex(h: Hist, n: nat): nat {
    if n <= |h.entries| then |h.entries| - n else 0
  }

  lemma {:induction false} AfterUps(s: Session, n: nat, isSpace: Class)
    requires Good(s) && s.hist.viewing.None? && s.hist.entries != [] && n > 0
    ensures Repeated(s, Up, n, isSpace).hist
         == Hist(s.hist.entries, Some(UpIndex(s.hist, n)), Encode(s.doc.text))
  {
    hide Encode, DecodeAll, Loaded, WellEncoded;
    if n > 1 {
      AfterUps(s, n - 1, isSpace);
    }
    var before := Repeated(s, Up, n - 1, isSpace);
    HistoryKeysGood(before, Up, isSpace);
  }

  lemma {:induction false} AfterDowns(s: Session, text: Text, n: nat, isSpace: Class)
    requires Good(s) && Encodable(text) && s.hist.backup == Encode(text)
    requires s.hist.viewing.Some? && n > 0 && s.hist.viewing.value + n == |s.hist.entries|
    ensures Repeated(s, Down, n, isSpace).doc == Doc(text, |text|)
    ensures Repeated(s, Down, n, isSpace).hist == Hist(s.hist.entries, None, [])
  {
    hide Encode, Loaded, WellEncoded, Good, KeyStep;
    DownsBefore(s, n - 1, isSpace);
    LastDown(Repeated(s, Down, n - 1, isSpace), text, isSpace);
  }

  /** Down on the last entry brings back the line that was put aside. */
  lemma LastDown(s: Session, text: Text, isSpace: Class)
    requires Good(s) && Encodable(text) && s.hist.backup == Encode(text)
    requires s.hist.viewing.Some? && s.hist.viewing.value + 1 == |s.hist.entries|
    ensures KeyStep(s, Down, isSpace).doc == Doc(text, |text|)
    ensures KeyStep(s, Down, isSpace).hist == Hist(s.hist.entries, None, [])
  {
    hide Encode, DecodeAll, Loaded, WellEncoded;
    HistoryKeysGood(s, Down, isSpace);
    EncodedLine(text);
  }

  lemma DownKeyMoves(s: Session, isSpace: Class)
    requires Good(s) && s.hist.viewing.Some? && s.hist.viewing.value + 1 < |s.hist.entries|
    ensures KeyStep(s, Down, isSpace).hist == s.hist.(viewing := Some(s.hist.viewing.value + 1))
  {
    hide Encode, DecodeAll, Loaded, WellEncoded;
    HistoryKeysGood(s, Down, isSpace);
  }

  lemma {:induction false} DownsBefore(s: Session, n: nat, isSpace: Class)
    requires Good(s) && s.hist.viewing.Some? && s.hist.viewing.value + n < |s.hist.entries|
    ensures Repeated(s, Down, n, isSpace).hist == s.hist.(viewing := Some(s.hist.viewing.value + n))
  {
    hide Good, KeyStep;
    if n > 0 {
      DownsBefore(s, n - 1, isSpace);
      DownKeyMoves(Repeated(s, Down, n - 1, isSpace), isSpace);
    }
  }

  /** Going up through the history and down again as far brings back the line that was being
      typed, cursor at its end, and leaves the entries and the viewing state as they were. */
  lemma UpsThenDowns(s: Session, n: nat, isSpace: Class)
    requires Good(s) && s.hist.viewing.None? && s.hist.entries != [] && n > 0
    ensures var up := Repeated(s, Up, n, isSpace);
            var downs := if n <= |s.hist.entries| then n else |s.hist.entries|;
            var back := Repeated(up, Down, downs, isSpace);
            && back.doc == Doc(s.doc.text, |s.doc.text|)
            && back.hist == Hist(s.hist.entries, None, [])
  {
    hide Encode;
    AfterUps(s, n, isSpace);
    var downs := if n <= |s.hist.entries| then n else |s.hist.entries|;
    AfterDowns(Repeated(s, Up, n, isSpace), s.doc.text, downs, isSpace);
  }

  // ---- The continuation mark --------------------------------------------------------

  predicate Marked(s: Session) {
    s.special == EndsSpecial(s.doc.text)
  }

  predicate Accepted(k: Key) {
    k.Completion? && k.candidates != []
  }

  /** The number of keys up to the last one that is not an accepted completion. */
  function LastOrdinary(keys: seq<Key>): (n: nat)
    ensures n <= |keys|
    ensures n > 0 ==> !Accepted(keys[n - 1])
    ensures forall i :: n <= i < |keys| ==> Accepted(keys[i])
  {
    if keys == [] || !Accepted(keys[|keys| - 1]) then |keys| else LastOrdinary(keys[..|keys| - 1])
  }

  lemma {:induction false} RunCut(s: Session, keys: seq<Key>, n: nat, isSpace: Class)
    requires Good(s) && KeysFine(keys) && n <= |keys|
    ensures KeysFine(keys[..n]) && KeysFine(keys[n..])
    ensures Run(s, keys, isSpace) == Run(Run(s, keys[..n], isSpace), keys[n..], isSpace)
    decreases n
  {
    hide Good, KeyFine, KeyStep, Run;
    if n == 0 {
      assert keys[0..] == keys;
      NoMoreKeys(s, keys[..0], isSpace);
    } else {
      RunUnfolds(s, keys, isSpace);
      RunCut(KeyStep(s, keys[0], isSpace), keys[1..], n - 1, isSpace);
      RunUnfolds(s, keys[..n], isSpace);
      assert keys[..n][1..] == keys[1..][..n - 1] && keys[n..] == keys[1..][n - 1..];
    }
  }

  lemma RunSnoc(s: Session, keys: seq<Key>, isSpace: Class)
    requires Good(s) && KeysFine(keys) && keys != []
    ensures var front := keys[..|keys| - 1];
            && KeysFine(front) && ValidSession(Run(s, front, isSpace))
            && Run(s, keys, isSpace) == KeyStep(Run(s, front, isSpace), keys[|keys| - 1], isSpace)
  {
    hide Good, KeyFine, KeyStep, Run;
    var n := |keys| - 1;
    RunCut(s, keys, n, isSpace);
    var before := Run(s, keys[..n], isSpace);
    StepGood(before, keys[n], isSpace);
    RunUnfolds(before, keys[n..], isSpace);
    NoMoreKeys(KeyStep(before, keys[n], isSpace), keys[n..][1..], isSpace);
  }

  /** The mark tells whether the line ended with one after the last key that was no accepted
      completion. */
  lemma {:induction false} MarkIs(s: Session, keys: seq<Key>, isSpace: Class)
    requires Good(s) && KeysFine(keys) && Marked(s)
    ensures Run(s, keys, isSpace).special
         == EndsSpecial(Run(s, keys[..LastOrdinary(keys)], isSpace).doc.text)
    decreases |keys|
  {
    hide Good, KeyFine, KeyStep, EndsSpecial, Run;
    if keys == [] {
      NoMoreKeys(s, keys, isSpace);
    } else {
      RunSnoc(s, keys, isSpace);
      var front, last := keys[..|keys| - 1], keys[|keys| - 1];
      var before := Run(s, front, isSpace);
      if Accepted(last) {
        MarkIs(s, front, isSpace);
        CompletionKeepsMark(before, last, isSpace);
        assert keys[..LastOrdinary(keys)] == front[..LastOrdinary(front)];
      } else {
        StepMarks(before, last, isSpace);
        assert keys[..|keys|] == keys;
      }
    }
  }

  lemma CompletionKeepsMark(s: Session, k: Key, isSpace: Class)
    requires ValidSession(s) && Accepted(k)
    ensures KeyStep(s, k, isSpace).special == s.special
  {
    hide Loaded, Encode;
  }

  /** The mark is right exactly when the completions accepted since the last other key have not
      changed whether the line ends with a backslash or slash. */
  lemma MarkExactly(s: Session, keys: seq<Key>, isSpace: Class)
    requires Good(s) && KeysFine(keys) && Marked(s)
    ensures Marked(Run(s, keys, isSpace)) <==>
            (EndsSpecial(Run(s, keys, isSpace).doc.text)
             == EndsSpecial(Run(s, keys[..LastOrdinary(keys)], isSpace).doc.text))
  {
    hide Good, Run, EndsSpecial;
    MarkIs(s, keys, isSpace);
  }

  lemma StepMarks(s: Session, k: Key, isSpace: Class)
    requires ValidSession(s) && !AcceptsCompletion(s, k)
    ensures Marked(KeyStep(s, k, isSpace))
  {
    hide UpKey, DownKey, EditKey, InsertAt;
  }

  /** What Enter should hand back for a text: a trailing backslash continues the line, a
      trailing slash ends the input, and both are removed. */
  function Handed(text: Text, endOfStream: bool, multiline: bool): (Text, bool) {
    if EndsSpecial(text) then
      var rest := text[..|text| - 1];
      if text[|text| - 1] == '\\' as CodePoint then (rest + [0x0A], !multiline)
      else (if rest == [0x20] then [] else rest, false)
    else if endOfStream then (text, false)
    else (text + [0x0A], multiline)
  }

  lemma EncodeLast(text: Text, ch: CodePoint)
    requires ch <= 0x7F
    ensures Encode(text + [ch]) == Encode(text) + [ch as Byte]
  {
    EncodeAppend(text, [ch]);
    EncodeOne(ch);
  }

  lemma OnlyBlank(text: Text)
    requires Encodable(text)
    ensures Encode(text) == [BLANK] <==> text == [0x20]
  {
    if Encode(text) == [BLANK] {
      hide Encode;
      DecodeInvertsEncode(text);
      EncodeOne(0x20);
      DecodeInvertsEncode([0x20]);
    } else {
      EncodeOne(0x20);
    }
  }

  /** With the right mark, Enter hands back the encoding of exactly that text, so the history
      stays well-encoded. */
  lemma SubmittedFaithfully(text: Text, endOfStream: bool, multiline: bool)
    requires Encodable(text)
    ensures EndsSpecial(text) ==> Encode(text) != []
    ensures var r := Submit(Encode(text), EndsSpecial(text), endOfStream, multiline);
            var h := Handed(text, endOfStream, multiline);
            r.line == Encode(h.0) && r.hasMore == h.1
  {
    hide Encode, AppendUtf8;
    LastByte(text);
    EncodeLast(text, 0x0A);
    NewlineByte();
    if EndsSpecial(text) {
      var rest, last := text[..|text| - 1], text[|text| - 1];
      assert text == rest + [last];
      EncodeLast(rest, last);
      EncodeLast(rest, 0x0A);
      OnlyBlank(rest);
      EncodeNothing();
      assert Encode(text)[..|Encode(text)| - 1] == Encode(rest);
    }
  }

  /** Enter hands back what it should exactly when the mark is right. */
  lemma SubmittedExactly(text: Text, special: bool, endOfStream: bool, multiline: bool)
    requires Encodable(text)
    requires special ==> Encode(text) != []
    ensures var r := Submit(Encode(text), special, endOfStream, multiline);
            var h := Handed(text, endOfStream, multiline);
            r.line == Encode(h.0) && r.hasMore == h.1 <==> special == EndsSpecial(text)
  {
    hide Encode, AppendUtf8;
    SubmittedFaithfully(text, endOfStream, multiline);
    if special != EndsSpecial(text) {
      LastByte(text);
      EncodeLast(text, 0x0A);
      if EndsSpecial(text) {
        var rest, last := text[..|text| - 1], text[|text| - 1];
        assert text == rest + [last];
        EncodeLast(rest, last);
        EncodeLast(rest, 0x0A);
        EncodeNothing();
        SameLengthOtherEnd(text, rest, last);
      }
    }
  }

  lemma SameLengthOtherEnd(text: Text, rest: Text, last: CodePoint)
    requires last == '\\' as CodePoint || last == '/' as CodePoint
    requires Encode(text) == Encode(rest) + [last as Byte]
    ensures Encode(text) != Encode(rest) + [NEWLINE]
  {
    hide Encode;
    assert (Encode(rest) + [last as Byte])[|Encode(rest)|] != (Encode(rest) + [NEWLINE])[|Encode(rest)|];
  }

  lemma NewlineByte()
    ensures 0x0A as CodePoint as Byte == NEWLINE
  {
  }

  /** After an accepted completion the mark is stale: typing a slash, completing the line to
      one that does not end with it, and pressing Enter loses the last character. */
  lemma CompletionLosesCharacter(isSpace: Class, a: CodePoint)
    requires a <= 0x7F && a != '\\' as CodePoint && a != '/' as CodePoint
    ensures var slash := '/' as CodePoint;
            var line := Encode([slash, a]);
            var s := Session(Doc([], 0), Hist([], None, []), false);
            var typed := KeyStep(s, Character(slash), isSpace);
            && ValidSession(typed)
            && (var done := KeyStep(typed, Completion([(line, 2)]), isSpace);
                && done.doc.text == [slash, a] && done.special && !EndsSpecial(done.doc.text)
                && line != [] && Submit(line, done.special, false, false).line == Encode([slash]))
  {
    hide Encode, AppendUtf8, DecodeAll, CursorAt;
    var slash := '/' as CodePoint;
    var s := Session(Doc([], 0), Hist([], None, []), false);
    var typed := KeyStep(s, Character(slash), isSpace);
    assert typed.doc.text == [slash];
    DecodeInvertsEncode([slash, a]);
    DecodeInvertsEncode([slash]);
    assert [slash, a] == [slash] + [a];
    EncodeLast([slash], a);
    LastByte([slash, a]);
    assert Encode([slash, a])[..|Encode([slash, a])| - 1] == Encode([slash]);
    assert Encode([slash]) != [BLANK] by { OnlyBlank([slash]); }
  }

  // ---- The mark on an empty line ----------------------------------------------------

  predicate Empties(k: Key) {
    Accepted(k) && k.candidates[0].0 == []
  }

  /** After a completion the line is empty exactly when the completion was. */
  lemma EmptiedExactly(s: Session, k: Key, isSpace: Class)
    requires Good(s) && KeyFine(k) && Accepted(k)
    ensures ValidSession(s) && (KeyStep(s, k, isSpace).doc.text == [] <==> Empties(k))
  {
    hide Encode, DecodeAll;
    var line := k.candidates[0].0;
    var text :| Encodable(text) && line == Encode(text);
    DecodeInvertsEncode(text);
    LastByte(text);
    LastByte(s.doc.text);
  }

  /** Key `i` reads from an empty line exactly when the completion in front of it emptied the
      line and, before the completions in a row, it ended with a backslash or slash. */
  lemma ReadsNothingExactly(s: Session, keys: seq<Key>, i: nat, isSpace: Class)
    requires Good(s) && KeysFine(keys) && Marked(s) && i < |keys|
    ensures KeysFine(keys[..i])
    ensures ReadsNothing(Run(s, keys[..i], isSpace), keys[i]) <==>
            !Accepted(keys[i]) && StaleOnEmpty(s, keys[..i], isSpace)
  {
    hide Good, KeyFine, KeyStep, EndsSpecial, Run;
    var before := keys[..i];
    var st := Run(s, before, isSpace);
    MarkIs(s, before, isSpace);
    if before == [] {
      NoMoreKeys(s, before, isSpace);
      EmptyIsPlain();
    } else {
      RunSnoc(s, before, isSpace);
      var front, last := Run(s, before[..|before| - 1], isSpace), before[|before| - 1];
      if Accepted(last) {
        EmptiedExactly(front, last, isSpace);
      } else {
        assert before[..|before|] == before;
        EmptyIsPlain();
      }
    }
  }

  lemma EmptyIsPlain()
    ensures !EndsSpecial([])
  {
  }

  ghost predicate StaleOnEmpty(s: Session, keys: seq<Key>, isSpace: Class)
    requires Good(s) && KeysFine(keys)
  {
    && keys != [] && Empties(keys[|keys| - 1])
    && EndsSpecial(Run(s, keys[..LastOrdinary(keys)], isSpace).doc.text)
  }

  lemma {:induction false} DefinedSteps(s: Session, keys: seq<Key>, isSpace: Class)
    requires Good(s) && KeysFine(keys)
    ensures RunDefined(s, keys, isSpace) <==>
            forall i :: 0 <= i < |keys| ==> !ReadsNothing(Run(s, keys[..i], isSpace), keys[i])
    decreases |keys|
  {
    hide Good, KeyFine, KeyStep, ReadsNothing, Run, RunDefined;
    if keys == [] {
      NoMoreKeys(s, keys, isSpace);
    } else {
      RunUnfolds(s, keys, isSpace);
      var next, rest := KeyStep(s, keys[0], isSpace), keys[1..];
      DefinedSteps(next, rest, isSpace);
      NoMoreKeys(s, keys[..0], isSpace);
      forall i | 1 <= i < |keys| ensures Run(s, keys[..i], isSpace) == Run(next, rest[..i - 1], isSpace) {
        RunUnfolds(s, keys[..i], isSpace);
        assert keys[..i][1..] == rest[..i - 1];
      }
      forall i | 0 <= i < |rest|
        ensures ReadsNothing(Run(next, rest[..i], isSpace), rest[i])
           <==> ReadsNothing(Run(s, keys[..i + 1], isSpace), keys[i + 1]) {
      }
    }
  }

  /** A run never reads from an empty line exactly when no key that is not an accepted
      completion follows a completion to the empty line made while the mark was set. */
  lemma RunDefinedExactly(s: Session, keys: seq<Key>, isSpace: Class)
    requires Good(s) && KeysFine(keys) && Marked(s)
    ensures RunDefined(s, keys, isSpace) <==>
            forall i :: 0 <= i < |keys| && !Accepted(keys[i]) ==> !StaleOnEmpty(s, keys[..i], isSpace)
  {
    hide Good, KeyFine, ReadsNothing, Run, RunDefined, StaleOnEmpty, Accepted, Marked;
    DefinedSteps(s, keys, isSpace);
    forall i | 0 <= i < |keys|
      ensures ReadsNothing(Run(s, keys[..i], isSpace), keys[i]) <==>
              !Accepted(keys[i]) && StaleOnEmpty(s, keys[..i], isSpace)
    {
      ReadsNothingExactly(s, keys, i, isSpace);
    }
  }

  /** A typed slash, a completion to the empty line, and any other key. */
  lemma CompletionEmptiesMarkedLine(isSpace: Class, k: Key)
    requires !Accepted(k)
    ensures var s := Session(Doc([], 0), Hist([], None, []), false);
            var typed := KeyStep(s, Character('/' as CodePoint), isSpace);
            && ValidSession(typed)
            && (var done := KeyStep(typed, Completion([([], 0)]), isSpace);
                done.special && done.doc.text == [] && ReadsNothing(done, k))
  {
    hide Encode;
    var slash := '/' as CodePoint;
    EncodeOne(slash);
    LastByte([slash]);
    var typed := KeyStep(Session(Doc([], 0), Hist([], None, []), false), Character(slash), isSpace);
    assert typed.doc.text == [slash];
  }
}
