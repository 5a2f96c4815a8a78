/** The line editor's specification: a text of code points with a cursor, a history of encoded
    lines, and what each key does to them. */
module LineDoc {
  import opened Bytes
  import opened Wrappers
  import opened Utf8

  /** Keys after escape sequences have been recognised. `Completion` is a Tab with the
      candidates the callback offers for it: a line and a byte position for the cursor. */
  datatype Key =
    | Character(cp: CodePoint)
    | Backspace
    | Delete
    | Left
    | Right
    | WordLeft
    | WordRight
    | Home
    | End
    | Up
    | Down
    | Completion(candidates: seq<(seq<Byte>, int)>)

  datatype Doc = Doc(text: Text, cursor: nat)

  datatype Hist = Hist(entries: seq<seq<Byte>>, viewing: Option<nat>, backup: seq<Byte>)

  /** `special`: the last character is shown as a pending continuation mark. */
  datatype Session = Session(doc: Doc, hist: Hist, special: bool)

  predicate ValidDoc(d: Doc) {
    Encodable(d.text) && d.cursor <= |d.text|
  }

  function InsertAt(d: Doc, cp: CodePoint): Doc
    requires d.cursor <= |d.text|
  {
    Doc(d.text[..d.cursor] + [cp] + d.text[d.cursor..], d.cursor + 1)
  }

  function DeleteAt(d: Doc): Doc {
    if d.cursor < |d.text| then d.(text := d.text[..d.cursor] + d.text[d.cursor + 1..]) else d
  }

  function BackspaceAt(d: Doc): Doc {
    if d.cursor > 0 then DeleteAt(d.(cursor := d.cursor - 1)) else d
  }

  type Class = CodePoint -> bool

  /** The start of the run of characters left of `i` that are spaces (or that are not). */
  function RunLeft(text: Text, i: nat, isSpace: Class, spaces: bool): (r: nat)
    requires i <= |text|
    ensures r <= i
  {
    if i > 0 && isSpace(text[i - 1]) == spaces then RunLeft(text, i - 1, isSpace, spaces) else i
  }

  function RunRight(text: Text, i: nat, isSpace: Class, spaces: bool): (r: nat)
    requires i <= |text|
    ensures i <= r <= |text|
    decreases |text| - i
  {
    if i < |text| && isSpace(text[i]) == spaces then RunRight(text, i + 1, isSpace, spaces) else i
  }

  function WordStart(text: Text, i: nat, isSpace: Class): (r: nat)
    requires i <= |text|
    ensures r <= i
  {
    RunLeft(text, RunLeft(text, i, isSpace, true), isSpace, false)
  }

  function NextWord(text: Text, i: nat, isSpace: Class): (r: nat)
    requires i <= |text|
    ensures i <= r <= |text|
  {
    RunRight(text, RunRight(text, RunRight(text, i, isSpace, true), isSpace, false), isSpace, true)
  }

  /** How many leading code points end at or before byte `pos`. */
  function CursorAt(text: Text, i: nat, pos: int): (r: nat)
    requires i <= |text|
    ensures i <= r <= |text|
    decreases |text| - i
  {
    if i < |text| && Offset(text, i + 1) <= pos then CursorAt(text, i + 1, pos) else i
  }

  /** A new line; a negative `pos` puts the cursor at the end. */
  function Loaded(line: seq<Byte>, pos: int): Doc {
    var text := DecodeAll(line, 0);
    Doc(text, if pos < 0 then |text| else CursorAt(text, 0, pos))
  }

  // ---- History ----------------------------------------------------------------------

  function Begin(h: Hist, line: seq<Byte>): Hist {
    h.(backup := line, viewing := Some(|h.entries|))
  }

  function EndViewing(h: Hist): Hist {
    h.(viewing := None, backup := [])
  }

  function Add(h: Hist, line: seq<Byte>): Hist {
    if line == [] then h
    else EndViewing(if h.entries == [] || h.entries[|h.entries| - 1] != line
                    then h.(entries := h.entries + [line]) else h)
  }

  predicate ValidHist(h: Hist) {
    h.viewing.Some? ==> h.viewing.value <= |h.entries|
  }

  /** The history after asking for the previous entry, and the entry if there is one. */
  function Prev(h: Hist): (Hist, Option<seq<Byte>>)
    requires ValidHist(h)
  {
    if h.entries == [] || h.viewing.None? then (h, None)
    else
      var i := if h.viewing.value > 0 then h.viewing.value - 1 else 0;
      (h.(viewing := Some(i)), Some(h.entries[i]))
  }

  function Next(h: Hist): (Hist, Option<seq<Byte>>)
    requires ValidHist(h)
  {
    if h.entries == [] || h.viewing.None? then (h, None)
    else if h.viewing.value + 1 >= |h.entries| then (EndViewing(h), Some(h.backup))
    else (h.(viewing := Some(h.viewing.value + 1)), Some(h.entries[h.viewing.value + 1]))
  }

  // ---- Keys -------------------------------------------------------------------------

  function EndsSpecial(text: Text): bool {
    text != [] && (text[|text| - 1] == '\\' as CodePoint || text[|text| - 1] == '/' as CodePoint)
  }

  function EditKey(d: Doc, k: Key, isSpace: Class): Doc
    requires ValidDoc(d)
  {
    match k
    case Character(cp) => InsertAt(d, cp)
    case Backspace => BackspaceAt(d)
    case Delete => DeleteAt(d)
    case Left => if d.cursor > 0 then d.(cursor := d.cursor - 1) else d
    case Right => if d.cursor < |d.text| then d.(cursor := d.cursor + 1) else d
    case WordLeft => d.(cursor := WordStart(d.text, d.cursor, isSpace))
    case WordRight => d.(cursor := NextWord(d.text, d.cursor, isSpace))
    case Home => d.(cursor := 0)
    case End => d.(cursor := |d.text|)
    case _ => d
  }

  predicate ValidSession(s: Session) {
    ValidDoc(s.doc) && ValidHist(s.hist)
  }

  function UpKey(s: Session): Session
    requires ValidSession(s)
  {
    var h := if s.hist.viewing.None? then Begin(s.hist, Encode(s.doc.text)) else s.hist;
    var (h', line) := Prev(h);
    Session(if line.Some? then Loaded(line.value, -1) else s.doc, h', s.special)
  }

  function DownKey(s: Session): Session
    requires ValidSession(s)
  {
    var (h', line) := Next(s.hist);
    Session(if line.Some? then Loaded(line.value, -1) else s.doc, h', s.special)
  }

  predicate AcceptsCompletion(s: Session, k: Key) {
    k.Completion? && k.candidates != []
  }

  function CompletionKey(s: Session, k: Key): Session
    requires AcceptsCompletion(s, k)
  {
    if |k.candidates| > 1 || k.candidates[0].0 != Encode(s.doc.text)
    then s.(doc := Loaded(k.candidates[0].0, k.candidates[0].1)) else s
  }

  const TAB: CodePoint := 9

  /** The effect of any other key on text, cursor and history. */
  function PlainStep(s: Session, k: Key, isSpace: Class): Session
    requires ValidSession(s)
  {
    match k
    case Up => UpKey(s)
    case Down => DownKey(s)
    case Completion(_) => s.(doc := InsertAt(s.doc, TAB))
    case _ => s.(doc := EditKey(s.doc, k, isSpace))
  }

  /** One round of the editor's loop. After an accepted completion the loop starts over
      before the continuation mark is looked at. */
  function KeyStep(s: Session, k: Key, isSpace: Class): Session
    requires ValidSession(s)
  {
    if AcceptsCompletion(s, k) then CompletionKey(s, k)
    else
      var s' := PlainStep(s, k, isSpace);
      s'.(special := EndsSpecial(s'.doc.text))
  }
}
