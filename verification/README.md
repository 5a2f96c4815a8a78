# Verification of the text engines behind the chat app

The Android app wraps a vendored copy of llama.cpp. Between the model's tokens and the user's
screen sit a number of self-contained text engines. This project models them in Dafny and proves
what they are for. `dafny verify dfyconfig.toml` checks everything.

Loops and objects of the original are loops and classes here. Each is proved against a function on
values, and the laws are lemmas about that function.

| modules | component | what is proved |
|---|---|---|
| `QuoteNormalizer`, `QuoteMeaning`, `QuoteWords`, `QuoteLiterals`, `QuoteStreaming` | Python literals to JSON | every value tree and every bare word is rewritten to its JSON rendering; exact conditions for identity, for equal meaning of a literal and for streaming |
| `JsonReader`, `JsonMeaning` | JSON texts | a reader of RFC 8259: JSON texts are unchanged, and trees keep their value exactly when their literals are spelled alike |
| `JsonStrings`, `PegMapper`, `PegMapperRuns`, `PegMapperCalls`, `PegMapperTexts`, `CallMeaning` | messages from parser events | state invariant, defined runs, texts, names, ids, and arguments that read as the JSON object of the events' names and values |
| `ChatMessage`, `ChatDeltas`, `CallStreaming`, `TruncatedStreaming` | message deltas | when deltas rebuild, throw or stay silent; a client follows every stream of truncated parses cut safely |
| `Utf8`, `LineDoc`, `LineHistory`, `LineEditor`, `Readline`, `ReadlineLaws`, `ReadlineKeys` | the line editor | what every key shows; every run of keys refines a code point sequence with a cursor, and the terminal column agrees |
| `MarkerSegments`, `DiffSplit`, `DiffLoop`, `DiffConservation`, `DiffEnds`, `DiffPromise` | two-ended template diff | the loop in closed form; for all pairs of texts, exactly when both are conserved and when the documented split results |
| `Glob`, `GlobLaws`, `CommonSubstring`, `Escapes`, `CpuMask`, `StringReplace` | string algorithms | the language, maximum, unescaping, bits and replacement they promise |
| `Base64`, `Base64Canonical` | Base64 codec | round trips both ways, sizes, in-place decoding, detection of the alphabet |
| `TokenCache`, `TokenRuns`, `TokenText`, `PromptBatches` | JNI bridge | what each token hands out, what is lost, what blocks, what is UTF-8; the prompt is sent once and in order |
| `RepoNames`, `CsvRow` | two codecs | round trips with their exact conditions |
| `Ascii`, `Bytes`, `Sequences`, `Wrappers` | shared | character classes, concatenation, `Option` and `Result` |

## What the code does not do

Where a promise of the code or its documentation fails, the model keeps the code and states exactly
when the promise holds.

- Quote normalising keeps escapes inside double quotes as they are. `"\'"` is a Python string but
  not a JSON one (`QuoteLiterals.DoubleQuotedApostropheLost`), and a pair of `\u` surrogates is two
  characters in Python and one in JSON (`QuoteLiterals.SurrogatePairJoined`).
  `QuoteLiterals.LiteralMeaningExactly` and `JsonMeaning.TreeMeaningExactly` say which literals and
  trees keep their meaning.
- The comment that prefix matching keeps streamed partials monotonic
  (`chat-peg-parser.cpp:158`) fails at the inputs of `QuoteStreaming.WithdrawnOutput` and holds
  exactly at the cuts of `QuoteStreaming.MonotoneExactly`. At the others the delta computation
  throws (`TruncatedStreaming.TruncationThrowsExactly`).
- The flush after the visit (`chat-peg-parser.cpp:249-260`) is never reached
  (`PegMapperRuns.FlushNeverFires`).
- After a call without a name event is closed, `current_tool` points into an empty optional.
  `PegMapperCalls.UseAfterUnnamedClose` follows it; `PegMapperCalls.RunDefinedExactly` says which
  runs do not (`PegMapperCalls.ArgsAfterUnnamedClose` for one of each kind).
- An empty second piece of a string value writes a quote too many (`chat-peg-parser.cpp:369-372`,
  exactly the case of `PegMapperTexts.PiecesJoin`).
- A name event with blank text moves the call into the message without a name, and closing does not
  remove it (`PegMapperCalls.BlankNameKept`, exactly the case of `PegMapperCalls.CallNamed`).
- `compute_diffs` does not look at calls before the last known one and is silent about withdrawn
  text (`ChatDeltas.EarlierCallUnseen`, `ChatDeltas.WithdrawnTextIsSilent`);
  `ChatDeltas.SilentExactly` gives all such pairs.
- An accepted completion leaves the loop before the mark of a trailing slash or backslash is
  renewed (`console.cpp:807`). Enter may then drop the last character of the completed line
  (`ReadlineLaws.CompletionLosesCharacter`); the mark is right exactly under
  `ReadlineLaws.MarkExactly`, and the line handed back exactly then (`ReadlineLaws.SubmittedExactly`).
  If the completion emptied the line, the next key reads the last byte of an empty string
  (`ReadlineLaws.CompletionEmptiesMarkedLine`, `ReadlineLaws.RunDefinedExactly`).
- An input beyond 0x10FFFF adds a width but no bytes, and exactly then the buffers fall out of step
  (`LineEditor.Editor.Insert`).
- The diff can count a segment twice (`DiffConservation.DifferenceLost`,
  `DiffConservation.ConservedExactly`), and then show no difference between different texts
  (`DiffConservation.NoDifferenceExactly`). The header describes a longest prefix and a suffix
  excluding it (`chat-auto-parser-helpers.h:14`); the code takes segments from both ends in turn and
  the suffix first at character level (`DiffPromise.MarkerMissed`, `DiffPromise.PrefixMissed`,
  `DiffPromise.PromiseExactly`).
- `\x` escapes accept what `strtol` accepts (`Escapes.SignedHexAccepted`,
  `Escapes.HexEscapeExactly`).
- Text behind a NUL byte is not handed out (`TokenRuns.BytesLost`,
  `TokenRuns.NothingLostExactly`). Bytes that no continuation completes block all later output
  (`TokenRuns.BlockingBytes`, `TokenRuns.BlockedExactly`).
- `is_valid_utf8` accepts overlong forms, surrogates and code points beyond 0x10FFFF
  (`TokenText.AcceptedAnyway`); `TokenText.WellFormedExactly` separates them from UTF-8.
- Base64 decoding accepts left-over bits, missing padding and a single last sextet
  (`Base64Canonical.OtherTextsAccepted`, `Base64Canonical.SingleSextetAccepted`,
  `Base64Canonical.CanonicalExactly`).

## Model

| member | source | states |
|---|---|---|
| QuoteNormalizer.NormalizeQuotesToJson | llama/src/main/cpp/llama.cpp/common/chat-peg-parser.cpp:83-185 | The index loop with its two quote flags computes `Normalize`, a left-to-right rewriting in three modes; the laws below are about that function. |
| QuoteNormalizer.Round | llama/src/main/cpp/llama.cpp/common/chat-peg-parser.cpp:92-181 | One iteration: what is appended, how far the index moves and the two flags afterwards are one step of the rewriting, and the flags are never both set. |
| QuoteNormalizer.MeasureWord | llama/src/main/cpp/llama.cpp/common/chat-peg-parser.cpp:162-165 | The inner loop finds the whole bare word: all letters, digits and underscores, stopped only by another character or the end. |
| QuoteMeaning.MeaningPreserved | llama/src/main/cpp/llama.cpp/common/chat-peg-parser.cpp:83-185 | For every value tree (dict, list, string in either quote, number, True/False/None) with any white space around any value and key and inside empty brackets, its Python or JSON rendering is turned into exactly the JSON rendering of the same tree; so a second pass changes nothing. |
| QuoteMeaning.TreeRewritten | llama/src/main/cpp/llama.cpp/common/chat-peg-parser.cpp:83-185 | The same inside any surrounding text that does not continue the last word: rewriting a tree does not disturb what follows it. |
| QuoteMeaning.LiteralRewritten | llama/src/main/cpp/llama.cpp/common/chat-peg-parser.cpp:95-155 | A string literal in either quote becomes one double-quoted literal, whatever escapes and quotes its body holds, and the scanner is outside strings behind it. |
| QuoteMeaning.IdentityExactly | llama/src/main/cpp/llama.cpp/common/chat-peg-parser.cpp:83-185 | A text is left unchanged if and only if, read with JSON's string rules, it has no single quote and no bare prefix of True/False/None outside its strings. |
| QuoteWords.WordRewritten | llama/src/main/cpp/llama.cpp/common/chat-peg-parser.cpp:156-178 | A whole word of letters, digits and underscores outside literals, behind any other character and whatever follows: a beginning of True, False or None becomes as much of true, false or null, any other word is copied, and the texts around it are rewritten on their own. |
| QuoteWords.WordBehindLiteral | llama/src/main/cpp/llama.cpp/common/chat-peg-parser.cpp:127-178 | The same for a word right behind a string literal. |
| JsonReader.JsonTextUnchanged | llama/src/main/cpp/llama.cpp/common/chat-peg-parser.cpp:83-185 | Every JSON text, as a reader of RFC 8259 accepts it (white space of section 2, numbers of section 6, strings of section 7), is left unchanged. |
| JsonMeaning.TreeTextRead | llama/src/main/cpp/llama.cpp/common/chat-peg-parser.cpp:83-185 | The JSON rendering of every tree whose numbers are JSON numbers reads back as the value of the tree, and is rejected if a literal of it is none in JSON. |
| JsonMeaning.TreeMeaningExactly | llama/src/main/cpp/llama.cpp/common/chat-peg-parser.cpp:83-185 | The normalised Python rendering of such a tree reads, as JSON, as exactly the value the tree denotes in Python if and only if all its literals use spellings both languages read alike. |
| QuoteLiterals.LiteralMeaningExactly | llama/src/main/cpp/llama.cpp/common/chat-peg-parser.cpp:95-155 | The JSON literal produced denotes the same characters as the Python literal read if and only if every character and escape of its body is one both languages read alike (`\'` only inside single quotes, `\uXXXX` only for other characters than surrogates). |
| QuoteLiterals.DoubleQuotedApostropheLost | llama/src/main/cpp/llama.cpp/common/chat-peg-parser.cpp:120-126 | The smallest loss: the Python literal `"\'"` is passed through with an escape JSON does not have. |
| QuoteLiterals.SurrogatePairJoined | llama/src/main/cpp/llama.cpp/common/chat-peg-parser.cpp:96-118 | At an input: the two surrogates Python reads in `\ud83d\ude00` are passed through and become one character in JSON (section 7 of RFC 8259). |
| QuoteStreaming.MonotoneExactly | llama/src/main/cpp/llama.cpp/common/chat-peg-parser.cpp:156-178 | For every text and cut point, the normalised prefix is a prefix of the normalised text if and only if the cut is safe: not between a backslash and the single quote it escapes, and not inside a bare word that only looks like a keyword so far. |
| QuoteStreaming.KeywordTextsStream | llama/src/main/cpp/llama.cpp/common/chat-peg-parser.cpp:96-118 | When all bare words starting with T, F or N are keyword prefixes, the split escaped single quote is the only unsafe cut. |
| QuoteStreaming.ComparableExactly | llama/src/main/cpp/llama.cpp/common/chat-peg-parser.cpp:156-178 | Of the two texts one is a prefix of the other if and only if the cut is safe: behind an unsafe cut they part. |
| QuoteStreaming.SafeCutWithin | llama/src/main/cpp/llama.cpp/common/chat-peg-parser.cpp:156-178 | Safe cuts stay safe in every longer part of the text that ends in a safe cut. |
| QuoteStreaming.WithdrawnOutput | llama/src/main/cpp/llama.cpp/common/chat-peg-parser.cpp:99-106 | The two unsafe cuts at inputs: `Trust` behind `Tr`, and the literal of one apostrophe behind its backslash. |
| JsonStrings.JsonBraceDepth | llama/src/main/cpp/llama.cpp/common/chat-peg-parser.cpp:41-67 | The loop with its in-string and escaped flags counts opening minus closing braces outside strings. |
| JsonStrings.DumpNeutral | llama/src/main/cpp/llama.cpp/common/chat-peg-parser.cpp:41-67 | The brace counter passes every dumped string without a change, whatever characters it holds. |
| JsonStrings.DepthExactly | llama/src/main/cpp/llama.cpp/common/chat-peg-parser.cpp:41-67 | Outside strings opening braces count up, closing ones down and no other character counts; a dumped string in between counts for nothing. |
| JsonStrings.EscapesSpelled | llama/src/main/cpp/llama.cpp/common/chat-peg-parser.cpp:70-76 | Character by character what a dumped string holds: letters for quote, backslash and five control characters, two hex digits for the other control characters, any other as it is. |
| JsonMeaning.EscapedReadsBack | llama/src/main/cpp/llama.cpp/common/chat-peg-parser.cpp:70-76 | The escaped inner text of every string reads, as the inside of a JSON string, as exactly its characters. |
| JsonMeaning.DumpRead | llama/src/main/cpp/llama.cpp/common/chat-peg-parser.cpp:355-355 | In front of any text a dumped name reads as a JSON string with exactly its characters. |
| JsonReader.JsonTextNeutral | llama/src/main/cpp/llama.cpp/common/chat-peg-parser.cpp:41-67 | Every JSON text leaves the brace counter as it found it. |
| JsonStrings.TreeNeutral | llama/src/main/cpp/llama.cpp/common/chat-peg-parser.cpp:41-67 | The JSON rendering of every value tree leaves the brace counter as it found it, at any depth. |
| JsonStrings.EscapeInnerAppend | llama/src/main/cpp/llama.cpp/common/chat-peg-parser.cpp:379-379 | Escaping a value piece by piece or whole gives the same text. |
| PegMapper.TrimTrailing | llama/src/main/cpp/llama.cpp/common/chat-peg-parser.cpp:11-21 | The longest beginning that does not end in white space. |
| PegMapperTexts.TrimTrailingExactly | llama/src/main/cpp/llama.cpp/common/chat-peg-parser.cpp:11-21 | The same with the white space spelled out: blank, tab, line feed, vertical tab, form feed, carriage return. |
| PegMapperTexts.TrimExactly | llama/src/main/cpp/llama.cpp/common/chat-peg-parser.cpp:23-37 | An argument name loses one leading white space character and all trailing ones. |
| PegMapper.Mapper.Map | llama/src/main/cpp/llama.cpp/common/chat-peg-parser.cpp:277-418 | For every event the fields afterwards are the next state of the event machine, unless the event follows the pointer into an emptied optional, which is reported exactly then; reasoning goes behind the reasoning and content behind the content. |
| PegMapper.Mapper.FromAst | llama/src/main/cpp/llama.cpp/common/chat-peg-parser.cpp:246-275 | A whole visit is the run of its events followed by the flush and the discarding of blank reasoning, unless an event of it follows the dangling pointer, which is reported exactly then. |
| PegMapperTexts.VisitTexts | llama/src/main/cpp/llama.cpp/common/chat-peg-parser.cpp:246-291 | After every visit the content is the initial one followed by the texts of the content events in order, and the reasoning likewise, or empty if it is all blanks, tabs and line ends. |
| PegMapper.Mapper.MapName | llama/src/main/cpp/llama.cpp/common/chat-peg-parser.cpp:320-335 | The name event: the buffer becomes the arguments, or an opening brace does, and a pending call moves to the end of the message. |
| PegMapper.Mapper.MapArgName | llama/src/main/cpp/llama.cpp/common/chat-peg-parser.cpp:350-363 | An argument name appends a comma from the second one on, the quoted trimmed name and a colon to the buffer or the arguments, opening the object when empty. |
| PegMapper.Mapper.MapValue | llama/src/main/cpp/llama.cpp/common/chat-peg-parser.cpp:365-386 | A value appends escaped string text behind one opening quote, or a normalised container. |
| PegMapper.Mapper.MapClose | llama/src/main/cpp/llama.cpp/common/chat-peg-parser.cpp:395-417 | Closing flushes the buffer of an unnamed call, closes an open string and the open braces, and drops the call if it has no name. |
| PegMapper.Mapper.AddClosingBraces | llama/src/main/cpp/llama.cpp/common/chat-peg-parser.cpp:406-409 | As many braces are added as the counter says are open, none when it is negative. |
| PegMapperRuns.StepKeeps | llama/src/main/cpp/llama.cpp/common/chat-peg-parser.cpp:277-418 | Every event keeps the state consistent (a pending call is unnamed, without arguments and the current one; otherwise the current call is the last) and changes no call but the last. |
| PegMapperRuns.RunKeeps | llama/src/main/cpp/llama.cpp/common/chat-peg-parser.cpp:277-418 | The invariant holds in every reachable state. |
| PegMapperRuns.FlushNeverFires | llama/src/main/cpp/llama.cpp/common/chat-peg-parser.cpp:249-260 | After every run from a fresh mapper the final flush finds nothing to do: its condition cannot arise. |
| PegMapperRuns.CallAssembled | llama/src/main/cpp/llama.cpp/common/chat-peg-parser.cpp:277-418 | From any state, the events of a call with a non-blank name and any list of string or balanced container arguments append exactly one call whose arguments are the JSON object of those pairs, with brace depth 0. |
| PegMapperRuns.CallAssembledAnywhere | llama/src/main/cpp/llama.cpp/common/chat-peg-parser.cpp:238-240 | The result is the same wherever among the argument events the name arrives. |
| PegMapperRuns.NameAnywhere | llama/src/main/cpp/llama.cpp/common/chat-peg-parser.cpp:320-335 | In general: delaying the name past any events in argument order changes nothing about the state from then on. |
| PegMapperRuns.TreeTextIsBalanced | llama/src/main/cpp/llama.cpp/common/chat-peg-parser.cpp:380-383 | Every rendered value tree is a balanced container argument. |
| PegMapperRuns.OneCallPerName | llama/src/main/cpp/llama.cpp/common/chat-peg-parser.cpp:304-335 | Whatever events lie between open and close, exactly one call is added if a name is among them and none otherwise. |
| PegMapperCalls.RunDefinedExactly | llama/src/main/cpp/llama.cpp/common/chat-peg-parser.cpp:277-418 | A run on a fresh mapper never follows the dangling pointer if and only if no event uses the tool between the close of a call that got no name and the next open; a whole-arguments event uses it only if its text starts an object. |
| PegMapperCalls.UseAfterUnnamedClose | llama/src/main/cpp/llama.cpp/common/chat-peg-parser.cpp:395-417 | The smallest failing run: open, close, name. |
| PegMapperCalls.ArgsAfterUnnamedClose | llama/src/main/cpp/llama.cpp/common/chat-peg-parser.cpp:337-344 | Open, close, whole arguments is defined if and only if their text, trailing white space aside, does not start with a brace. |
| PegMapperCalls.MessageAssembled | llama/src/main/cpp/llama.cpp/common/chat-peg-parser.cpp:246-418 | A visit over the events of any list of calls, each with its name anywhere among its argument events, is defined and leaves exactly those calls, with their JSON arguments, behind the ones there were. |
| PegMapperCalls.CallNamed | llama/src/main/cpp/llama.cpp/common/chat-peg-parser.cpp:320-335 | The call that open, events and close add is named by its last name event without trailing white space; it has no name if and only if that text is blank. |
| PegMapperCalls.BlankNameKept | llama/src/main/cpp/llama.cpp/common/chat-peg-parser.cpp:410-416 | At an input: a call named with one blank stays in the message without a name. |
| PegMapperTexts.CallIdentified | llama/src/main/cpp/llama.cpp/common/chat-peg-parser.cpp:312-318 | The call a run adds has the id of its last id event, without trailing white space and without the double quotes around it, and none without such an event. |
| PegMapperTexts.ArgumentAlone | llama/src/main/cpp/llama.cpp/common/chat-peg-parser.cpp:346-393 | An argument is written as comma, name, colon and value whether or not the value before it was closed. |
| PegMapperTexts.PiecesJoin | llama/src/main/cpp/llama.cpp/common/chat-peg-parser.cpp:361-393 | A string value that arrives in two pieces is written as the value of both together if and only if the second is not empty: an empty one writes a quote too many. |
| CallMeaning.ObjectReads | llama/src/main/cpp/llama.cpp/common/chat-peg-parser.cpp:350-386 | For every list of arguments whose containers normalise to JSON texts, the arguments of the call read as the JSON object of exactly those names and values, in order. |
| CallMeaning.CallReads | llama/src/main/cpp/llama.cpp/common/chat-peg-parser.cpp:277-418 | So do the arguments of the one call its events add, wherever the name stands. |
| CallMeaning.TreeArgument | llama/src/main/cpp/llama.cpp/common/chat-peg-parser.cpp:380-383 | The Python rendering of a tree is such a container and gives the value it denotes in Python if and only if both languages read all its literals alike. |
| PegMapperRuns.WholeAssembled | llama/src/main/cpp/llama.cpp/common/chat-peg-parser.cpp:337-344 | Arguments that arrive in one event become the arguments of the call with the braces they lack; a text that starts no object is dropped and leaves the empty object. |
| CallMeaning.WholeReads | llama/src/main/cpp/llama.cpp/common/chat-peg-parser.cpp:337-344 | A whole JSON object, before or behind the name, is kept as it came, trailing white space aside. |
| PegMapperRuns.ContainerStreams | llama/src/main/cpp/llama.cpp/common/chat-peg-parser.cpp:380-383 | The arguments seen with a truncated container value are a prefix of those seen with the whole one if and only if the cut is safe for the normaliser. |
| PegMapperRuns.StringStreams | llama/src/main/cpp/llama.cpp/common/chat-peg-parser.cpp:369-379 | With a truncated string value they always are. |
| ChatDeltas.ComputeDiffs | llama/src/main/cpp/llama.cpp/common/chat.cpp:212-278 | The deltas, or the exception, are those of the specification: texts, then the last known call, then new calls in order; the next rows say what they carry. |
| ChatDeltas.DeltasExactly | llama/src/main/cpp/llama.cpp/common/chat.cpp:212-278 | The list of deltas, one by one: each changed text with what it gained, the last known call if it was renamed or gained arguments, with name and id only if one of them changed, and every new call whole. |
| ChatDeltas.NothingNew | llama/src/main/cpp/llama.cpp/common/chat.cpp:212-278 | Equal messages have no deltas. |
| ChatDeltas.DiffCall | llama/src/main/cpp/llama.cpp/common/chat.cpp:247-269 | The delta of the last known call: the mismatch exception, silence, or arguments, with the new id and name if one of them changed and neither otherwise. |
| ChatDeltas.StringRebuilt | llama/src/main/cpp/llama.cpp/common/chat.cpp:54-67 | Appending the string delta gives the new text if and only if it extends the old one. |
| ChatDeltas.RebuiltExactly | llama/src/main/cpp/llama.cpp/common/chat.cpp:212-278 | Computing succeeds and applying the deltas to the old message gives the new one if and only if the message grew: texts and the last call's arguments by appending, its name or id visibly, earlier calls not at all. |
| ChatDeltas.GrowingStreamRebuilt | llama/src/main/cpp/llama.cpp/common/chat.cpp:212-278 | Over every growing run of snapshots no delta fails, and a client applying them all holds the last snapshot. |
| ChatDeltas.DeltasTelescope | llama/src/main/cpp/llama.cpp/common/chat.cpp:212-278 | From the empty message, any first snapshot included. |
| ChatDeltas.WithdrawnTextIsSilent | llama/src/main/cpp/llama.cpp/common/chat.cpp:58-63 | Text that is taken back produces no exception and no correction: the client keeps the longer text. |
| ChatDeltas.EarlierCallUnseen | llama/src/main/cpp/llama.cpp/common/chat.cpp:245-248 | A change of a call before the last known one gives no delta. |
| ChatDeltas.ThrowsExactly | llama/src/main/cpp/llama.cpp/common/chat.cpp:212-278 | Computing throws if and only if a text is neither extended nor taken back, calls disappear, or the last known call gets a name that does not extend its own. |
| ChatDeltas.SilentExactly | llama/src/main/cpp/llama.cpp/common/chat.cpp:212-278 | A client ends with another message without an exception if and only if nothing clashes and the message has not grown. |
| CallStreaming.StepGrowsExactly | llama/src/main/cpp/llama.cpp/common/chat-peg-parser.cpp:277-418 | A mapper event makes the message grow, in a way that composes, if and only if it only adds to the call it is for: a second name extends the first, a nameless call gets no other id, and buffered or whole arguments and a close extend what is there. |
| CallStreaming.SnapshotsGrow | llama/src/main/cpp/llama.cpp/common/chat-peg-parser.cpp:277-418 | So the snapshots of every such run are a growing stream ending in the mapper's message. |
| CallStreaming.CallStreams | llama/src/main/cpp/llama.cpp/common/chat-peg-parser.cpp:277-418 | Event by event: a client fed the deltas after each event of a call, with the name anywhere, ends with exactly that call and its complete JSON arguments. |
| CallStreaming.WholeCallStreams | llama/src/main/cpp/llama.cpp/common/chat-peg-parser.cpp:337-344 | The same for a call whose arguments arrive in one event behind its name, whatever their text. |
| TruncatedStreaming.TruncationThrowsExactly | llama/src/main/cpp/llama.cpp/common/chat-peg-parser.cpp:156-178 | While a container value is read, the delta from the truncated to the whole value throws if and only if the cut was unsafe for the normaliser. |
| TruncatedStreaming.TruncationGrows | llama/src/main/cpp/llama.cpp/common/chat-peg-parser.cpp:277-418 | For every node whose text may be truncated, the message with more of the text goes on from the one with less. |
| TruncatedStreaming.TruncatedStream | llama/src/main/cpp/llama.cpp/common/chat-peg-parser.cpp:246-275 | Any snapshots of an appending run taken in order, between events or inside their texts: no delta throws and a client that starts from nothing holds the last snapshot. |
| TruncatedStreaming.CallStreamsTruncated | llama/src/main/cpp/llama.cpp/common/chat-peg-parser.cpp:246-418 | End to end: however the snapshots of a call are taken, inside its name, its strings or (at safe cuts) its containers, wherever the name stands, the client ends with the message and the whole call. |
| Utf8.DecodeEncoded | llama/src/main/cpp/llama.cpp/common/console.cpp:365-429 | Decoding at the start of any encoded code point up to 0x10FFFF, inside any bytes, gives it back with its length. |
| Utf8.EncodedShape | llama/src/main/cpp/llama.cpp/common/console.cpp:411-429 | An encoding starts with a byte that is not a continuation byte and has only continuation bytes behind it. |
| Utf8.EncodingsSpelled | llama/src/main/cpp/llama.cpp/common/console.cpp:411-429 | At inputs: the first and last code point of each length and examples of section 7 of RFC 3629. |
| Utf8.ReplacedExactly | llama/src/main/cpp/llama.cpp/common/console.cpp:365-409 | A byte is decoded to one replacement character if and only if it starts no complete group of a lead byte (ranges spelled out) and its continuation bytes. |
| Utf8.DecodeInvertsEncode | llama/src/main/cpp/llama.cpp/common/console.cpp:507-511 | Decoding a whole encoded line gives its code points. |
| Utf8.PrevUtf8CharPos | llama/src/main/cpp/llama.cpp/common/console.cpp:432-439 | The last position before the given one that is no continuation byte, or the start. |
| Utf8.NextUtf8CharPos | llama/src/main/cpp/llama.cpp/common/console.cpp:441-448 | The first position behind the given one that is no continuation byte, or the end. |
| Utf8.PrevIsPrevious | llama/src/main/cpp/llama.cpp/common/console.cpp:432-439 | On encoded text that position is the start of the previous code point. |
| Utf8.NextIsNext | llama/src/main/cpp/llama.cpp/common/console.cpp:441-448 | And that one the start of the next code point. |
| LineEditor.Editor.MoveLeft | llama/src/main/cpp/llama.cpp/common/console.cpp:838-843 | Moves one code point left; bytes, widths and terminal column stay in step. |
| LineEditor.Editor.MoveRight | llama/src/main/cpp/llama.cpp/common/console.cpp:847-852 | Moves one code point right, likewise. |
| LineEditor.Editor.MoveToLineStart | llama/src/main/cpp/llama.cpp/common/console.cpp:529-537 | Home: both cursors and the column are 0, the buffers are as they were. |
| LineEditor.Editor.MoveToLineEnd | llama/src/main/cpp/llama.cpp/common/console.cpp:539-547 | End: the cursor is behind the last code point and the column is the whole width. |
| LineEditor.Editor.MoveWordLeft | llama/src/main/cpp/llama.cpp/common/console.cpp:581-617 | Two decoding loops over bytes act as the word start on the code point sequence. |
| LineEditor.Editor.MoveWordRight | llama/src/main/cpp/llama.cpp/common/console.cpp:619-664 | Three decoding loops act as the next word start. |
| LineEditor.Editor.DeleteAtCursor | llama/src/main/cpp/llama.cpp/common/console.cpp:456-482 | Removes the code point at the cursor from line and widths; after the redraw the column is the cursor's again. |
| LineEditor.Editor.BackspaceKey | llama/src/main/cpp/llama.cpp/common/console.cpp:929-957 | Removes the code point left of the cursor, likewise. |
| LineEditor.Editor.Insert | llama/src/main/cpp/llama.cpp/common/console.cpp:958-996 | A code point up to 0x10FFFF is inserted at the cursor and the column follows; beyond that only `widths` grows, and the buffers fall out of step. |
| LineEditor.Editor.SetLineContents | llama/src/main/cpp/llama.cpp/common/console.cpp:497-527 | Loads any well-encoded line; the cursor is at the end, or at the last code point boundary not beyond the given byte offset. |
| LineEditor.Editor.RedrawTail | llama/src/main/cpp/llama.cpp/common/console.cpp:469-475 | Redrawing moves the column by the widths of the redrawn code points. |
| LineEditor.Editor.ClearCurrentLine | llama/src/main/cpp/llama.cpp/common/console.cpp:484-495 | Clearing leaves the column where it was. |
| LineEditor.Editor.constructor | llama/src/main/cpp/llama.cpp/common/console.cpp:758-764 | An empty line with all buffers in step. |
| LineHistory.History.AddLine | llama/src/main/cpp/llama.cpp/common/console.cpp:703-713 | Adds a non-empty line unless it repeats the last entry, and ends viewing. |
| LineHistory.History.PrevLine | llama/src/main/cpp/llama.cpp/common/console.cpp:714-726 | Steps to the previous entry and stays at the first. |
| LineHistory.History.NextLine | llama/src/main/cpp/llama.cpp/common/console.cpp:727-739 | Steps to the next entry; behind the last one returns the backed-up line and ends viewing. |
| LineHistory.History.BeginView | llama/src/main/cpp/llama.cpp/common/console.cpp:740-743 | Backs up the line and views behind the last entry. |
| LineHistory.History.EndView | llama/src/main/cpp/llama.cpp/common/console.cpp:744-747 | Ends viewing and drops the backup. |
| ReadlineKeys.LineAdded | llama/src/main/cpp/llama.cpp/common/console.cpp:703-713 | A line is appended to the history unless it is empty or the last entry again; viewing ends with it. |
| ReadlineKeys.UpsShow | llama/src/main/cpp/llama.cpp/common/console.cpp:714-726 | n times Up from the typed line shows, cursor at its end, the entry n places from the end of the history, or the first one. |
| ReadlineKeys.DownShows | llama/src/main/cpp/llama.cpp/common/console.cpp:727-739 | Each Down shows the next entry, cursor at its end; behind the last one it brings the line back that was put aside. |
| ReadlineKeys.NothingShown | llama/src/main/cpp/llama.cpp/common/console.cpp:770-792 | Up in an empty history and Down on the typed line leave the line as it is. |
| ReadlineKeys.CursorKeys | llama/src/main/cpp/llama.cpp/common/console.cpp:896-917 | Left, Right, Home and End keep the text and put the cursor one back, one on, at 0 and at the end. |
| ReadlineKeys.EditingKeys | llama/src/main/cpp/llama.cpp/common/console.cpp:918-996 | A character goes in at the cursor, which passes it; Delete takes the character at the cursor, Backspace the one in front of it; Tab without candidates is a character. |
| ReadlineKeys.WordLeftKey | llama/src/main/cpp/llama.cpp/common/console.cpp:581-617 | Word left keeps the text and goes exactly to the place behind which a whole word and then only spaces stand. |
| ReadlineKeys.WordRightKey | llama/src/main/cpp/llama.cpp/common/console.cpp:619-664 | Word right keeps the text and goes exactly behind spaces, a whole word and the spaces behind it. |
| ReadlineKeys.MarkShown | llama/src/main/cpp/llama.cpp/common/console.cpp:998-1002 | After any key but an accepted completion the mark is set if and only if the line ends with a backslash or a slash. |
| ReadlineKeys.CompletionShows | llama/src/main/cpp/llama.cpp/common/console.cpp:797-809 | An accepted completion shows its line with the cursor in front of the byte it asks for, or at the end. |
| ReadlineKeys.LineFeedForgotten | llama/src/main/cpp/llama.cpp/common/console.cpp:1031-1039 | The line feed at the end of a line is not remembered. |
| Readline.HandleKey | llama/src/main/cpp/llama.cpp/common/console.cpp:797-1001 | For every key, one round of the loop on bytes, widths and two cursors is one step on a code point sequence with a cursor, a history and the mark, and the column is the sum of the widths left of the cursor; a key that makes the source read the last byte of an empty line is reported exactly then. |
| Readline.OrdinaryKey | llama/src/main/cpp/llama.cpp/common/console.cpp:821-996 | The branches between clearing and setting the mark, history keys and editing keys alike, act as the specification's step on text, cursor and history. |
| Readline.HandleKeys | llama/src/main/cpp/llama.cpp/common/console.cpp:767-1002 | The refinement for every run of keys, up to a key that reads from an empty line, reported exactly then; the two assertions at the head of the loop hold throughout. |
| Readline.HistoryPrev | llama/src/main/cpp/llama.cpp/common/console.cpp:770-779 | Up: starts viewing if needed and loads the entry. |
| Readline.HistoryNext | llama/src/main/cpp/llama.cpp/common/console.cpp:780-788 | Down: only while viewing. |
| Readline.LastByte | llama/src/main/cpp/llama.cpp/common/console.cpp:998-1001 | The test of the last byte is the test of the last code point. |
| Readline.Finish | llama/src/main/cpp/llama.cpp/common/console.cpp:1004-1043 | The returned line and flag, and what enters the history: the line without its newline, unless the input ended or the line is empty; a mark on an empty line is reported exactly then. |
| ReadlineLaws.InsertUndone | llama/src/main/cpp/llama.cpp/common/console.cpp:929-996 | Backspace behind an insertion, or Delete in front of it, restores text and cursor. |
| ReadlineLaws.WordStartExactly | llama/src/main/cpp/llama.cpp/common/console.cpp:581-617 | A position is the target of a word move to the left if and only if only one word and then only spaces lie between it and the cursor, and both are maximal. |
| ReadlineLaws.NextWordMeans | llama/src/main/cpp/llama.cpp/common/console.cpp:619-664 | A word move to the right passes spaces, one word and spaces, and stops at a word or the end. |
| ReadlineLaws.UpsThenDowns | llama/src/main/cpp/llama.cpp/common/console.cpp:714-747 | Any number of Ups and as many Downs as took effect bring back the line being typed, cursor at its end, and the history unchanged. |
| ReadlineLaws.MarkExactly | llama/src/main/cpp/llama.cpp/common/console.cpp:816-819 | After every run the mark says whether the line ends in a backslash or slash if and only if the completions accepted since the last other key have not changed that. |
| ReadlineLaws.SubmittedExactly | llama/src/main/cpp/llama.cpp/common/console.cpp:1004-1030 | What is returned follows from the code points typed (a final backslash toggles the continuation, a final slash ends it, other lines get a newline, or none at the end of the input) if and only if the mark is right. |
| ReadlineLaws.CompletionLosesCharacter | llama/src/main/cpp/llama.cpp/common/console.cpp:797-809 | After a typed slash, an accepted completion and Enter, the last character of the completed line is dropped. |
| ReadlineLaws.RunDefinedExactly | llama/src/main/cpp/llama.cpp/common/console.cpp:816-819 | A run never reads the last byte of an empty line if and only if no other key follows a completion to the empty line made while the mark was set. |
| ReadlineLaws.CompletionEmptiesMarkedLine | llama/src/main/cpp/llama.cpp/common/console.cpp:797-819 | At an input: a typed slash, a completion to the empty line and any other key. |
| MarkerSegments.SegmentizeMarkers | llama/src/main/cpp/llama.cpp/common/chat-auto-parser-helpers.cpp:269-299 | The border-tracking loop computes the left-to-right cut into markers and text. |
| MarkerSegments.SegmentsConserve | llama/src/main/cpp/llama.cpp/common/chat-auto-parser-helpers.cpp:269-299 | The segments are non-empty and concatenate to the text; every marker runs from an opener to its first closer, no text holds an opener except an unclosed last one. |
| MarkerSegments.MarkerFirst | llama/src/main/cpp/llama.cpp/common/chat-auto-parser-helpers.cpp:273-293 | A marker runs from `<` to the first `>` or from `[` to the first `]`, whatever stands between and behind. |
| MarkerSegments.TextFirst | llama/src/main/cpp/llama.cpp/common/chat-auto-parser-helpers.cpp:273-299 | Text runs up to the next `<` or `[`. |
| MarkerSegments.UnclosedFirst | llama/src/main/cpp/llama.cpp/common/chat-auto-parser-helpers.cpp:296-298 | Without its closing bracket the rest is one text. |
| DiffSplit.CalculateDiffSplit | llama/src/main/cpp/llama.cpp/common/chat-auto-parser-helpers.cpp:87-207 | The four moving ends, two flags, character-level finish and two repairs compute `DiffOf`. |
| DiffSplit.MatchRound | llama/src/main/cpp/llama.cpp/common/chat-auto-parser-helpers.cpp:114-139 | One round matches at both ends; it either moves an end or changes nothing and stops. |
| DiffSplit.MatchLast | llama/src/main/cpp/llama.cpp/common/chat-auto-parser-helpers.cpp:141-165 | The three branches after the loop. |
| DiffSplit.CommonPrefixLen | llama/src/main/cpp/llama.cpp/common/chat-auto-parser-helpers.cpp:69-76 | The longest common prefix. |
| DiffSplit.CommonSuffixLen | llama/src/main/cpp/llama.cpp/common/chat-auto-parser-helpers.cpp:78-85 | The longest common suffix. |
| DiffSplit.PrefixLen | llama/src/main/cpp/llama.cpp/common/chat-auto-parser-helpers.cpp:69-76 | The prefixes of that length agree and the next characters, if any, differ. |
| DiffSplit.SuffixLen | llama/src/main/cpp/llama.cpp/common/chat-auto-parser-helpers.cpp:78-85 | The suffixes of that length agree and the characters before, if any, differ. |
| DiffSplit.LoopKeeps | llama/src/main/cpp/llama.cpp/common/chat-auto-parser-helpers.cpp:114-139 | Through the whole loop prefix and suffix are exactly the segments passed on both sides, and a flag is only set where that side is used up. |
| DiffLoop.LoopEnded | llama/src/main/cpp/llama.cpp/common/chat-auto-parser-helpers.cpp:114-139 | The loop in closed form: after t rounds it has taken min(t, p) segments from the front and min(t, s) from the back, p and s being the common ones; it stops when stuck or when a side has at most one segment left, and a side is done when none is. |
| DiffLoop.UsedUpExactly | llama/src/main/cpp/llama.cpp/common/chat-auto-parser-helpers.cpp:114-139 | The loop uses up exactly one side if and only if the sides differ in length and the shorter one is half a common front and half a common back. |
| DiffConservation.ConservedExactly | llama/src/main/cpp/llama.cpp/common/chat-auto-parser-helpers.cpp:87-207 | For every pair of texts, prefix+left+suffix and prefix+right+suffix are the two inputs if and only if no segment is counted twice, a test on the segments: the shorter side is half a common front and half a common back, the segment in the middle is matched again, and the prefix repair does not apply. |
| DiffConservation.NoDifferenceExactly | llama/src/main/cpp/llama.cpp/common/chat-auto-parser-helpers.cpp:185-190 | For every pair of texts, both differences are empty if and only if the texts are equal, or a segment is counted twice and one side has one segment more than the other. |
| DiffConservation.EqualTextsMatch | llama/src/main/cpp/llama.cpp/common/chat-auto-parser-helpers.cpp:185-190 | Equal texts are all prefix. |
| DiffConservation.DifferenceLost | llama/src/main/cpp/llama.cpp/common/chat-auto-parser-helpers.cpp:141-145 | `<a><x>` against `<a><x><x>` counts a segment twice and reports no difference. |
| DiffConservation.CharSplitConserves | llama/src/main/cpp/llama.cpp/common/chat-auto-parser-helpers.cpp:169-183 | The character-level finish never overlaps or drops characters. |
| DiffEnds.CharPrefixExactly | llama/src/main/cpp/llama.cpp/common/chat-auto-parser-helpers.cpp:175-183 | The character-level finish reaches the longest common prefix if and only if the longest common prefix and suffix do not overlap. |
| DiffPromise.PromiseExactly | llama/src/main/cpp/llama.cpp/common/chat-auto-parser-helpers.cpp:87-207 | For every pair of texts, marked up or not, the split is the one the header describes (longest prefix, then longest suffix of the rest, whole segments first and then text) if and only if no segment is counted twice, and the left text is a prefix of the right one or neither the common segments nor the common characters between them get in each other's way. |
| DiffPromise.PromisedConserves | llama/src/main/cpp/llama.cpp/common/chat-auto-parser-helpers.cpp:87-207 | The split the header describes always makes up both texts. |
| DiffPromise.PrefixMissed | llama/src/main/cpp/llama.cpp/common/chat-auto-parser-helpers.cpp:175-178 | At an input: `aab` against `aaab` gets an empty prefix although `aa` is common. |
| DiffPromise.FrontKeptExactly | llama/src/main/cpp/llama.cpp/common/chat-auto-parser-helpers.cpp:114-165 | Where no segment is counted twice, the prefix holds all common leading segments if and only if the left text is a prefix of the right one, or common front and back do not overlap, or the last common leading segment comes up while both sides have more than one left. |
| DiffPromise.MarkerMissed | llama/src/main/cpp/llama.cpp/common/chat-auto-parser-helpers.cpp:141-160 | At an input: of `<a><a>` and `<a>` nothing is counted twice, and the marker both start with is taken for the suffix. |
| Glob.GlobMatch | llama/src/main/cpp/llama.cpp/common/common.cpp:747-791 | The recursive matcher terminates and holds exactly when the text is in the language of the tokenised pattern. |
| Glob.GlobMatchStrings | llama/src/main/cpp/llama.cpp/common/common.cpp:793-795 | The string version, which sees both arguments up to their first NUL. |
| Glob.GlobClassMatch | llama/src/main/cpp/llama.cpp/common/common.cpp:706-744 | The class loop decides membership in the items and ranges of the class, with its negation and its literal first `]` or `-`. |
| Glob.MatchStar | llama/src/main/cpp/llama.cpp/common/common.cpp:757-763 | The loop for a single `*` tries every slash-free run. |
| Glob.PlainPattern | llama/src/main/cpp/llama.cpp/common/common.cpp:747-791 | A pattern without special characters matches exactly itself. |
| Glob.DirectoryPattern | llama/src/main/cpp/llama.cpp/common/common.cpp:747-791 | A plain path followed by `/**` matches exactly the texts under it. |
| Glob.EverythingPattern | llama/src/main/cpp/llama.cpp/common/common.cpp:751-756 | `**` matches every text. |
| GlobLaws.ClassFits | llama/src/main/cpp/llama.cpp/common/common.cpp:706-744 | A class of any characters and ranges, in front of any pattern: it matches one character that it lists or that lies in a range, and with `!` any other one. |
| GlobLaws.FirstSignFits | llama/src/main/cpp/llama.cpp/common/common.cpp:716-721 | A closing bracket or dash that comes first in a class is one of its characters. |
| GlobLaws.LastDashFits | llama/src/main/cpp/llama.cpp/common/common.cpp:726-741 | A dash that comes last in a class is one of its characters. |
| GlobLaws.NothingExcluded | llama/src/main/cpp/llama.cpp/common/common.cpp:710-744 | `[!]` matches any character. |
| GlobLaws.OpenBracketFits | llama/src/main/cpp/llama.cpp/common/common.cpp:768-786 | A bracket that nothing closes matches itself. |
| GlobLaws.ClassesAlone | llama/src/main/cpp/llama.cpp/common/common.cpp:706-744 | `[x-y]`, `[xy]` and `[!x]` match exactly the one-character texts from x to y, x or y, and all but x. |
| GlobLaws.LiteralFits | llama/src/main/cpp/llama.cpp/common/common.cpp:787-790 | A character that is no sign matches itself, in front of any pattern. |
| GlobLaws.QuestionMarkFits | llama/src/main/cpp/llama.cpp/common/common.cpp:764-766 | `?` matches exactly one character other than `/`, in front of any pattern. |
| GlobLaws.StarFits | llama/src/main/cpp/llama.cpp/common/common.cpp:757-763 | `*` matches exactly the texts without `/`, in front of any pattern. |
| GlobLaws.StarAlone | llama/src/main/cpp/llama.cpp/common/common.cpp:757-763 | `*` alone matches exactly the texts without `/`. |
| GlobLaws.StarsFit | llama/src/main/cpp/llama.cpp/common/common.cpp:751-756 | `**` matches any text, in front of any pattern. |
| CommonSubstring.StringLcs | llama/src/main/cpp/llama.cpp/common/common.cpp:448-467 | The result occurs in both texts, no common substring is longer, and none as long ends earlier in `a`. |
| CommonSubstring.SuffixAtMeans | llama/src/main/cpp/llama.cpp/common/common.cpp:455-465 | A table entry is the length of the longest common suffix of the two prefixes: shorter ones agree, longer ones do not. |
| Escapes.ProcessEscapes | llama/src/main/cpp/llama.cpp/common/common.cpp:623-658 | Rewriting the buffer over itself gives the left-to-right unescaping of the original content. |
| Escapes.SpellingsReadBack | llama/src/main/cpp/llama.cpp/common/common.cpp:623-658 | Every text whose characters are spelled plainly, by a named escape or by two hex digits in any mix reads back as what is spelled. |
| Escapes.EscapeReadBack | llama/src/main/cpp/llama.cpp/common/common.cpp:623-658 | An escaper using those spellings is inverted on every byte string. |
| Escapes.FixedExactly | llama/src/main/cpp/llama.cpp/common/common.cpp:623-658 | A text is unchanged if and only if, read from the left, it holds no backslash followed by a named letter or by `x` and two characters `strtol` takes. |
| Escapes.HexEscapeExactly | llama/src/main/cpp/llama.cpp/common/common.cpp:636-650 | A backslash, `x` and two characters become one byte if and only if the second is a hex digit and the first a hex digit, white space or a sign; otherwise backslash and `x` stay and the rest is read on its own. |
| Escapes.SignedHexAccepted | llama/src/main/cpp/llama.cpp/common/common.cpp:638-646 | `strtol` also accepts a blank or sign in front of a single digit: `\x+f`, `\x f` and `\x-f` are escapes. |
| CpuMask.ParseCpuMask | llama/src/main/cpp/llama.cpp/common/common.cpp:328-362 | True exactly for hex digits; then each mask bit is its old value or that bit of the number written by the first 128 digits. On a bad digit the digits before it have taken effect. |
| CpuMask.SetDigit | llama/src/main/cpp/llama.cpp/common/common.cpp:355-358 | One digit sets exactly its four bits and clears none. |
| CpuMask.DigitsExactly | llama/src/main/cpp/llama.cpp/common/common.cpp:329-337 | An optional `0x` is skipped and at most 128 digits are read behind it. |
| CpuMask.NumberExactly | llama/src/main/cpp/llama.cpp/common/common.cpp:339-358 | A digit in front of n others counts sixteen to the n times. |
| CpuMask.BitExactly | llama/src/main/cpp/llama.cpp/common/common.cpp:355-358 | Bit k of the mask is the one of weight two to the k. |
| Ascii.HexValueExactly | llama/src/main/cpp/llama.cpp/common/common.cpp:343-353 | The digits and both cases of A to F have their values and no other character has one. |
| StringReplace.StringReplaceAll | llama/src/main/cpp/llama.cpp/common/common.cpp:485-500 | Searching and copying computes the left-to-right replacement of non-overlapping matches, and an empty search changes nothing. |
| StringReplace.Find | llama/src/main/cpp/llama.cpp/common/common.cpp:493-493 | The first match at or behind a position: there is none before it. |
| StringReplace.OneReplaced | llama/src/main/cpp/llama.cpp/common/common.cpp:493-497 | One round copies up to the match, writes the replacement and goes on behind it. |
| RepoNames.IsValidRepoId | llama/src/main/cpp/llama.cpp/common/hf-cache.cpp:121-142 | True exactly for 1 to 256 allowed characters with one slash, where every special character has base characters on both sides. |
| RepoNames.ValidIdExactly | llama/src/main/cpp/llama.cpp/common/hf-cache.cpp:121-142 | With the characters spelled out: 1 to 256 letters, digits, underscores, and slashes, dots and dashes between two of them, with exactly one slash. |
| RepoNames.RepoToFolderName | llama/src/main/cpp/llama.cpp/common/hf-cache.cpp:79-84 | The prefix and the id with slashes as double dashes. |
| RepoNames.FolderNameToRepo | llama/src/main/cpp/llama.cpp/common/hf-cache.cpp:69-77 | Empty without the prefix, otherwise double dashes as slashes. |
| RepoNames.FolderSpelled | llama/src/main/cpp/llama.cpp/common/hf-cache.cpp:79-84 | The folder of owner/name is `models--owner--name`. |
| RepoNames.OtherFolders | llama/src/main/cpp/llama.cpp/common/hf-cache.cpp:69-77 | A folder without that prefix belongs to no repository. |
| RepoNames.FolderRoundTripExactly | llama/src/main/cpp/llama.cpp/common/hf-cache.cpp:69-84 | The id comes back from its folder name if and only if no dash in it is followed by a dash or a slash. |
| RepoNames.ValidIdsRoundTrip | llama/src/main/cpp/llama.cpp/common/hf-cache.cpp:69-84 | So every valid id comes back and two valid ids never share a folder. |
| RepoNames.InvalidIdsCollide | llama/src/main/cpp/llama.cpp/common/hf-cache.cpp:79-84 | `a/b` and the invalid `a--b` share one. |
| CsvRow.ParseCsvRow | llama/src/main/cpp/llama.cpp/common/arg.cpp:1001-1043 | The loop computes the reading of the row, field by field. |
| CsvRow.RowReadBack | llama/src/main/cpp/llama.cpp/common/arg.cpp:1001-1043 | For every non-empty list of fields, each bare where it may be or quoted with doubled quotes, joined by commas, parsing gives the fields. |
| CsvRow.BareExactly | llama/src/main/cpp/llama.cpp/common/arg.cpp:1009-1017 | A field left bare reads back if and only if it has no comma and does not start with a quote. |
| CsvRow.BehindQuotes | llama/src/main/cpp/llama.cpp/common/arg.cpp:1009-1030 | Text behind a closing quote joins the field, quotes included. |
| CsvRow.NeverClosed | llama/src/main/cpp/llama.cpp/common/arg.cpp:1009-1040 | Without its closing quote a field takes the rest of the row, commas included. |
| CsvRow.NothingAdded | llama/src/main/cpp/llama.cpp/common/arg.cpp:1006-1040 | The fields together are never longer than the row. |
| Base64.EncodeBytes | llama/src/main/cpp/llama.cpp/common/base64.hpp:79-144 | The loop over input groups computes the encoding. |
| Base64.EncodeGroup | llama/src/main/cpp/llama.cpp/common/base64.hpp:88-141 | One to three bytes become four characters with the padding they need. |
| Base64.AlphabetSpelled | llama/src/main/cpp/llama.cpp/common/base64.hpp:82-85 | All sextets in order give the alphabet of table 1 of RFC 4648; table 2 differs in the last two. |
| Base64.SameBits | llama/src/main/cpp/llama.cpp/common/base64.hpp:88-141 | Three bytes and their four sextets are the same 24 bits from the left. |
| Base64.PaddingSpelled | llama/src/main/cpp/llama.cpp/common/base64.hpp:97-141 | At inputs (section 10 of RFC 4648): one or two bytes are padded to four characters. |
| Base64.DecodeInto | llama/src/main/cpp/llama.cpp/common/base64.hpp:199-244 | The bit-accumulating loop fails exactly when the specification does and otherwise writes its bytes and nothing behind them, also when source and destination are the same buffer. |
| Base64.DecodeInplace | llama/src/main/cpp/llama.cpp/common/base64.hpp:294-313 | Decoding a buffer over itself gives the bytes that decoding a copy gives. |
| Base64.RoundTrip | llama/src/main/cpp/llama.cpp/common/base64.hpp:79-244 | For every byte sequence, either alphabet, strict or loose, decoding with the same or the detected alphabet gives the bytes back (sections 4 and 5 of RFC 4648). |
| Base64.EncodedSize | llama/src/main/cpp/llama.cpp/common/base64.hpp:338-341 | The encoding has exactly the promised length. |
| Base64.DecodedSizeFrom | llama/src/main/cpp/llama.cpp/common/base64.hpp:208-229 | After k sextets exactly floor((bits + 6k) / 8) bytes are written. |
| Base64.DecodedSize | llama/src/main/cpp/llama.cpp/common/base64.hpp:324-327 | A successful decoding has floor(6k/8) bytes for k sextets, at most what the size function promises and at most what was read. |
| Base64.FixedDecodesExactly | llama/src/main/cpp/llama.cpp/common/base64.hpp:355-367 | With a fixed alphabet decoding succeeds if and only if all characters before the first `=` are in it and, unless loose, only `=` follows. |
| Base64.AutoExactly | llama/src/main/cpp/llama.cpp/common/base64.hpp:367-386 | Detection decodes as the standard alphabet does where that succeeds and as the URL-safe one otherwise: mixed texts fail. |
| Base64.Detection | llama/src/main/cpp/llama.cpp/common/base64.hpp:344-389 | One character: it decides the alphabet exactly when only one of the two has it. |
| Base64Canonical.CanonicalExactly | llama/src/main/cpp/llama.cpp/common/base64.hpp:199-244 | Strict or loose, decoding and encoding again gives the text back if and only if it is canonical (section 3.5 of RFC 4648): whole groups of four, padded as far as needed, no left-over bit set. |
| Base64Canonical.SingleSextetAccepted | llama/src/main/cpp/llama.cpp/common/base64.hpp:218-226 | At an input: a single sextet is accepted and decodes to nothing. |
| Base64Canonical.OtherTextsAccepted | llama/src/main/cpp/llama.cpp/common/base64.hpp:199-244 | At inputs: left-over bits, missing padding and, only loosely, characters behind the padding are accepted. |
| TokenCache.IsValidUtf8 | llama/src/main/cpp/llama-android.cpp:46-65 | The loop accepts exactly the sequences of complete length-prefixed groups. |
| TokenCache.LeadExactly | llama/src/main/cpp/llama-android.cpp:46-65 | A byte with continuation bytes behind it is accepted if and only if they are as many as its range announces: below 0x80 none, 0xC0-0xDF one, 0xE0-0xEF two, 0xF0-0xF7 three. |
| TokenCache.TailsExactly | llama/src/main/cpp/llama-android.cpp:46-65 | A continuation byte is exactly one of 0x80 to 0xBF. |
| TokenCache.ValidAppend | llama/src/main/cpp/llama-android.cpp:46-65 | Behind accepted bytes, the whole is accepted if and only if the rest is. |
| TokenCache.Cache.Step | llama/src/main/cpp/llama-android.cpp:383-395 | One token: the cache grows by the piece and is handed out and emptied if complete, otherwise nothing is handed out. |
| TokenCache.Cache.Generate | llama/src/main/cpp/llama-android.cpp:383-395 | A whole generation is the run of its pieces. |
| TokenCache.OnlyCompleteText | llama/src/main/cpp/llama-android.cpp:389-395 | Over every run each string handed out passes the check, and the cache passes it exactly when all bytes so far do. |
| TokenCache.CacheEmptyExactly | llama/src/main/cpp/llama-android.cpp:389-395 | From an empty cache, it is empty again if and only if all bytes so far are complete text. |
| TokenRuns.CacheExactly | llama/src/main/cpp/llama-android.cpp:389-395 | After any pieces the cache holds exactly the bytes since the last token at which all bytes were complete text. |
| TokenRuns.OutputExactly | llama/src/main/cpp/llama-android.cpp:389-395 | What each token hands out: if all bytes so far are complete text, the bytes since the last token for which they were, up to the first NUL; otherwise nothing. |
| TokenRuns.NothingLostExactly | llama/src/main/cpp/llama-android.cpp:390-392 | What was handed out followed by the cache equals the concatenated pieces if and only if no beginning of the pieces is complete text with a NUL in it (`NewStringUTF` stops at one). |
| TokenRuns.BytesLost | llama/src/main/cpp/llama-android.cpp:390-392 | At an input: of `a`, NUL, `b` in one token only the `a` comes out, and the cache is empty. |
| TokenRuns.HopelessExactly | llama/src/main/cpp/llama-android.cpp:46-65 | Some continuation makes bytes complete text if and only if all groups but the last are complete and the last one has a lead byte and only continuation bytes so far. |
| TokenRuns.BlockedExactly | llama/src/main/cpp/llama-android.cpp:389-395 | Nothing is handed out any more, whatever tokens follow, if and only if the bytes so far are not such a beginning. |
| TokenRuns.BlockingBytes | llama/src/main/cpp/llama-android.cpp:53-60 | At inputs: a byte that starts no group behind a letter, and a lead byte that is not continued, block the output; a lead byte that is does not. |
| TokenText.WellFormedExactly | llama/src/main/cpp/llama-android.cpp:46-65 | Bytes are UTF-8 (section 4 of RFC 3629) if and only if the check accepts them and no group is overlong, a surrogate or beyond 0x10FFFF. |
| TokenText.AcceptedAnyway | llama/src/main/cpp/llama-android.cpp:53-60 | At inputs: an overlong NUL, a surrogate and a code point that does not exist are accepted. |
| TokenText.OutputWellFormedExactly | llama/src/main/cpp/llama-android.cpp:389-395 | A string of a run is UTF-8 if and only if its bytes, since the last complete text and up to the first NUL, hold no improper group. |
| TokenText.WellFormedRun | llama/src/main/cpp/llama-android.cpp:389-395 | A generation that is UTF-8 as a whole is handed out in UTF-8 strings only. |
| PromptBatches.Batch.Add | llama/src/main/cpp/llama-android.cpp:67-74 | One entry is appended to the four parallel arrays, the others stay. |
| PromptBatches.CompletionInit | llama/src/main/cpp/llama-android.cpp:329-358 | The batches concatenate to the last min(length, max_prompt) tokens with positions from 0, up to the first failing decode and completely if none fails; each has 1 to 512 entries, all but the last 512; the count leaves a quarter of the context free. |
| PromptBatches.AllEntries | llama/src/main/cpp/llama-android.cpp:343-352 | The entries are the kept end of the prompt, positions 0 to n-1, and exactly the final one asks for logits. |
| PromptBatches.MaxPrompt | llama/src/main/cpp/llama-android.cpp:330-331 | At least one token, and with the reply room exactly the context size. |
| PromptBatches.MaxPromptExactly | llama/src/main/cpp/llama-android.cpp:330-331 | A prompt may take three quarters of the context, rounded up, and always one token. |
| PromptBatches.SizesExactly | llama/src/main/cpp/llama-android.cpp:343-352 | The batch sizes spelled out: 512 entries in all but the last, 1 to 512 there. |

## Left out

- LineEditor.Editor.PutCodepoint: with an estimated width the terminal is taken to use that width. Without one the width is what the query reports; if there is no terminal to ask or the query fails, the source prints the character and returns -1, so the real column moves while the modelled one does not.
- LineEditor.Editor.MoveCursor: only the column is modelled, not line wrapping, the terminal's left edge or the Windows console.
- Readline.ReplaceLast: what is drawn at the cursor is not modelled, only that the column is unchanged; `replace_last` in the middle of a line draws over the wrong character.
- Readline.HandleKey: keys are already decoded; the escape sequences, `has_ctrl_modifier`, `getchar32` and the Windows key codes are not part of this model. The completion callback is a parameter, and history and completion lines are well-encoded. The run ends at a key that reads from an empty line, since that is undefined.
- Readline.Finish: the characters echoed on leaving the loop are not modelled.
- JsonStrings.DumpNeutral: `nlohmann::json` is a small escaping function here; its exception on invalid UTF-8 is not modelled.
- QuoteLiterals.LiteralMeaningExactly: the Python reader covers single escapes and `\u`; `\x`, octal, `\N`, `\U` and line continuation count as unread, as does every string with a character below a blank on the JSON side. An unpaired surrogate is accepted by the JSON reader, as the grammar has it, and denotes no character (section 8.2 of RFC 8259).
- PegMapper.Mapper.Map: the run ends at an event that follows the dangling pointer, since that is undefined. The order in which the parser visits its tree, and the grammars themselves, are replaced by the event list.
- PegMapper.Mapper.constructor: other message fields (role, tool name, content parts) are not modelled.
- TruncatedStreaming.CallStreamsTruncated: which nodes the parser may emit with a truncated text is taken from the atomic tags of `chat-peg-parser.h:79-94`; names are allowed to grow as well, as the delta computation expects.
- QuoteMeaning.MeaningPreserved: Python syntax JSON has no counterpart for (tuples, sets, trailing commas, other keys than strings) is not part of the trees; JSON numbers are required only where values are compared.
- ChatDeltas.ComputeDiffs: exceptions are one error value without their texts; log messages are left out. How a client applies deltas is this project's own definition.
- Glob.GlobClassMatch: characters are ordered by code; a platform with signed `char` orders bytes from 0x80 before ASCII in ranges.
- Escapes.ProcessEscapes: the buffer's `resize` is the returned length.
- CpuMask.ParseCpuMask: the log message on a bad digit is left out.
- Base64.EncodeBytes: iterators are sequences and arrays; reserved capacity is not modelled.
- TokenText.OutputWellFormedExactly: `NewStringUTF` expects Modified UTF-8, which differs beyond 0xFFFF; it is not part of this model.
- Base64.DecodeInto: what a failed decoding leaves in the destination is not stated.
- TokenCache.Cache.Step: token pieces are inputs; Modified UTF-8 of the Java side, the sampler and the end-of-generation test are not part of this model.
- PromptBatches.CompletionInit: `llama_decode` is a yes/no parameter; tokenising, clearing the cache and JNI strings are left out.
- Character classes (`isalnum`, `isspace`) are those of the C locale; `iswspace` and `wcwidth` are parameters of the editor.
- Lengths and indices are unbounded integers: `size_t` and `int` wrap-around does not arise below the address space.
- The PEG engine, grammar builders, Jinja rendering, JSON schema conversion and template heuristics: tables and combinators outside these engines.
- Model loading, decoding, sampling, downloads, caches on disk, the option table and floating-point code: foreign calls and plumbing.
