# Streamed tool calls and the algorithms around them

A Dafny model of the part of llama.cpp that turns a growing text into chat messages, and of stand-alone algorithms
of the same repository.

The streaming pipeline is run again on every longer text while the model writes. `JsonHealer` closes truncated JSON,
`ChatParser` finds reasoning blocks, `XmlParser` finds tool calls, and `ChatDiff` sends what is new to a client. The
theorems say that healing gives a document and loses one number or literal at most, that what is shown is not taken back,
of tool calls with all cuts named at which it is, that the deltas rebuild the message, that a failed tool-call parse leaves
no trace, and that parsing undoes printing. `XmlReader`, `XmlLive` and `XmlJsonReader` join the tool-call parser to the
JSON reader. `ExcludingGrammar` and `ArgChain` model the grammars that constrain the model's output, with their exact
languages; `GbnfText` prints the first one and reads it again.
`Lora` and its companions prove that operations on a pair of small tensors are operations on its product.
`LineEditor` proves that bytes, widths and two cursors are a sequence of code points with one cursor. `LogRing` proves
that the log is first-in first-out over all interleavings of its threads. `Base64`, `Escapes`, `Csv` and `Utf8` are
codecs with their round trips.

## How to read the files

Code that changes things step by step is a method or a class, and is proved equal to a function; the theorems are
lemmas about that function. Where an operation keeps its promise only sometimes, the lemma says exactly when, as an
if-and-only-if with a condition on the input.

- Characters are bytes, written as `char` below 256 (or as numbers below 256 where arithmetic is done on them).
- Bit operations are written as arithmetic. Unsigned wrap-around is written out where a loop depends on it (`ArgChain`).
- The clock, the terminal, the locale and threads are parameters or steps: `space` and `measure` in `LineEditor`, the
  interleaved steps of `LogRing`, the field `json` of `XmlToolCalls.Env` for the JSON values inside tool calls;
  `XmlReader.Reader` is the environment whose `json` is the healer of `JsonHealer` with the dump of `JsonDump`.
- An exception or a failed assertion is an answer: `Result`, `Option`, `Outcome`, `Halt`.

| file | contents |
|---|---|
| `Chars`, `Strings`, `Utf8`, `Wrappers` | characters, search, stripping, partial stops, cutting at a character boundary |
| `JsonAcceptor`, `JsonSax`, `JsonHealer`, `JsonHealing` | a pushdown acceptor for JSON, the container stack and where errors are, the healer, its theorem |
| `JsonDump`, `JsonMarkers`, `JsonCuts`, `JsonVerdict`, `JsonArguments` | the dump of a document, which markers come back in it, texts that are cut, the answer to any text, arguments as documents |
| `ChatParser`, `Streaming`, `ChatDiff` | reasoning blocks, monotonicity over growing texts, deltas |
| `XmlToolCalls`, `XmlParser`, `XmlAborts` | the tool-call parser as functions and as methods, and when it fails |
| `XmlArguments`, `XmlRoundTrip`, `XmlForms`, `XmlStreaming` | argument texts, the round trip, the forms, calls that are still being written |
| `XmlLastEnds`, `XmlJsonReader` | forms whose values are JSON: the round trip, and calls that are whole JSON objects |
| `XmlReader`, `XmlPrimitives`, `XmlLive` | the parser with the JSON reader: when it fails, which values wait, live calls |
| `ExcludingGrammar`, `ExcludingLanguage`, `GbnfText`, `ExcludingBytes` | the excluding grammar as a tree, its language, its text and how it is read, code points and bytes |
| `ArgChain` | the chain of argument rules |
| `Tensors`, `Lora`, `LoraShapes`, `LoraJoins` | tensors of any rank, and the pair (A, B) |
| `CodepointCodec`, `LineEditor` | UTF-8 as the console uses it, and the line editor |
| `LogRing` | the log queue |
| `Base64`, `Escapes`, `Csv` | codecs |

## Where the code is not what its comments or its callers suggest

- The comment above `make_gbnf_excluding` (common/chat-parser-xml-toolcall.cpp:81-83) promises that no forbidden
  string occurs. That is so if and only if no forbidden word occurs in another one before its end, and none can begin
  inside a chunk and go on after it (`ExcludingLanguage.ExcludesIff`); for one word, if and only if all its characters
  are the same (`ExcludingLanguage.ExcludesIffConstant`).
- A word with a hyphen or a caret has no grammar: both are printed in classes with a backslash, which the reader refuses
  (src/llama-grammar.cpp:161-176). For all other words of bytes the printed grammar has exactly the language of chunks
  (`GbnfText.PrintedGrammarIsExact`).
- Bytes from 128 on are printed as `\xNN` and read as code points, while text is matched after decoding. What is said of
  code points holds of the text for ASCII words (`ExcludingBytes.TextExcludesIff`), and a word that is not ASCII is let
  through (`ExcludingBytes.OneWordIffAscii`).
- Streaming is monotone with one exception, `Streaming.Withdraws`: blanks that were passed on as content are taken back
  while the text after them is an unfinished start tag. The server hides this by skipping empty messages
  (tools/server/server-task.cpp:168); `ChatDiff.WithdrawnBlankIsSentTwice` is what a client without that skip sees.
- Healing fails on one family, `JsonHealing.PseudoSurrogate`: an escaped backslash followed by text that looks like a
  high surrogate, and then an unfinished escape. `JsonHealing.HealingCanThrow` is a document of that family.
- `pause` of the log does not grow the ring (common/log.cpp:293-299). With more than capacity - 2 entries pending it
  never returns (`LogRing.PauseExact`), and every capacity reaches that state (`LogRing.PauseCanHang`).
- The question in the source whether the indexing of tuples is right (convert_lora_to_gguf.py:99) has the answer
  `Lora.TupleIndexExact`. `Lora.PlainIndexExact` and `LoraJoins.CatExact` say when a plain index and a join of more
  than two dimensions are right; `Lora.PlainIndexGoesWrong`, `Lora.TupleIndexGoesWrong` and `LoraJoins.CatGoesWrong` are
  pairs, the usual leading dimension 1 of A among them, for which they answer and are not.
- In `parse_xml_tool_calls` an empty optional is dereferenced when the text before the end of a name holds the
  alternative closing literal but no closing literal can be found (common/chat-parser-xml-toolcall.cpp:419-424).
  `XmlAborts.FindNameAborts` is the exact condition, which needs `last_tool_end`, and `XmlAborts.BraceInName` is a text
  for the form of common/chat-parser.cpp:930-947.
- The marker of a healed value need not be in the dump (common/chat-parser-xml-toolcall.cpp:533): when the text stops in a
  unicode escape, the healer puts zeros or a low surrogate between the text and the marker, and the dump has the decoded
  character instead. `XmlReader.MarkerLostExactly` says that this fails exactly when the cut swallows an escape
  (`JsonMarkers.Swallowed`: all digits but those of NUL, U+0010 and U+0030, and every surrogate pair), and
  `XmlReader.CutLetterFails` is a text for Kimi-K2. It does not need `last_tool_end`.
- These are the only ways to fail for the forms of the repository (`XmlReader.AbortsExplained`). A slice out of range
  (`XmlAborts.ViewOutOfRange`) is not one of them, because their separators end with ASCII (`XmlReader.KnownSeparators`).
- An exception of the JSON library is no `std::runtime_error` (vendor/nlohmann/json.hpp:4510), so that it leaves the parser
  (common/chat-parser-xml-toolcall.cpp:505) when what was healed is no document. `XmlReader.CutPairThrows` is such a text,
  and `JsonVerdict.ThrowsExactly` says of every text whether it happens.
- The templates of MiMo and Apriel 1.5 write a call as a JSON object, closed by two braces (models/templates/MiMo-VL.jinja:33-37,
  models/templates/unsloth-Apriel-1.5.jinja:104-108), where their forms close it by one
  (common/chat-parser.cpp:930-966). Text with one brace is read back (`XmlJsonReader.JsonListReadsBack`). An object of MiMo
  is parsed with its last argument as a string that ends with the brace (`XmlJsonReader.ObjectsLeaveBrace`), and a list of
  Apriel 1.5 that begins with an object is not taken for calls (`XmlJsonReader.AprielRefusesObjects`).
- A string value is shown as text while it is cut in a unicode escape, and not at all one character later, so that no deltas
  lead from one message to the other (`XmlLive.EscapeIsTakenBack`). `XmlLive.LiveCallsGrow` says that nothing is taken back
  at other cuts; `XmlLive.Wavering` names the cuts where the reader changes its mind.
- The line editor takes the newline that it has added to a line off again before it returns
  (common/console.cpp:1008-1012). A line is handed back without a newline, unless the input ends behind a backslash
  (`LineEditor.NewlineHandedBack`).

## Model

| member | source | states |
|---|---|---|
| Strings.StringStrip | common/common.cpp:410-420 | the two index loops return the part between the outermost characters that are not blank |
| Strings.StripMonotone | common/common.cpp:410-420 | stripping keeps the prefix order, so that stripped text of a growing text only grows |
| Strings.FindPartialStop | common/common.h:708-721 | the loop from the longest candidate down returns the least index whose rest begins the stop word |
| Strings.StopIndexSpec | common/common.h:708-721 | from the index on the text is a prefix of the stop word, and from no earlier index it is |
| Strings.PartialStopSafe | common/common.h:708-721 | if the stop word does not occur, it occurs in no continuation before the index |
| Strings.PartialStopAttained | common/common.h:708-721 | some continuation has the stop word at that index, so the bound cannot be improved |
| Strings.StopIndexMonotone | common/common.h:708-721 | the index never moves back while the text grows, and a completed stop word is not in front of it |
| Utf8.Utf8TruncateSafe | common/chat-parser-xml-toolcall.cpp:27-50 | the backward scan over at most four bytes computes `TruncateSafe` |
| Utf8.TruncationIsMaximal | common/chat-parser-xml-toolcall.cpp:27-50 | for every byte prefix of well-formed UTF-8 the scan gives the length of the longest well-formed prefix |
| JsonSax.KeyOnlyAboveObject | common/json-partial.cpp:56-112 | a key element of the stack stands directly above an object element only |
| JsonSax.JsonErrorLocator.SaxParse | common/json-partial.cpp:40-116 | the handler's stack is at every point the open containers of the pushdown acceptor, its assertions never fire, and the error is where the lexer stops, behind a misplaced token |
| JsonHealer.CommonJsonParse | common/json-partial.cpp:114-324 | the parse, the healing branches, the closing brackets and the marker are those of `Parse` |
| JsonHealing.TextInvHolds | common/json-partial.cpp:141-299 | in every state of the acceptor the end of the text looks as the branch conditions of the healer presume |
| JsonHealing.PaddingCompletes | common/json-partial.cpp:172-211 | the padding completes an unfinished escape, surrogate pairs included, exactly outside the failing family |
| JsonHealing.KeyPlaceHeals | common/json-partial.cpp:215-242 | inside an object value the branch that is chosen heals if and only if the text is not of the failing family |
| JsonHealing.ArrayPlaceHeals | common/json-partial.cpp:243-266 | the same inside an array |
| JsonHealing.ObjectPlaceHeals | common/json-partial.cpp:267-292 | the same where a key may stand |
| JsonHealing.HealingIsExact | common/json-partial.cpp:114-299 | a document cut anywhere inside a container is completed to a document that keeps all of the text but blanks and one number or literal at its end, if and only if it is not of the failing family |
| JsonMarkers.PaddingEcho | common/json-partial.cpp:172-211 | what completes an escape ends what is dumped so far if and only if no escape is swallowed |
| JsonMarkers.MarkerEcho | common/json-partial.cpp:213-299 | the dump of a healed document goes on with the marker, behind what was put before it if and only if no escape is swallowed |
| JsonMarkers.HealedMarker | common/json-partial.cpp:114-324 | of every text that is healed, cut back ones and top-level strings included, the dump holds what was put in, unless an escape is swallowed |
| JsonCuts.AliveParses | common/json-partial.cpp:114-324 | a text that can be read so far is taken whole, but for numbers, literals and blanks outside containers, strings there in an escape, and the failing family |
| JsonCuts.DecidedStays | common/json-partial.cpp:48-54 | when the token at an error is complete, the error and what is found stay the same whatever follows |
| JsonCuts.NeverAgain | common/json-partial.cpp:114-324 | a text that is given up while a misplaced token is open is not taken later |
| JsonArguments.ArgumentsAreJson | common/chat-parser-xml-toolcall.cpp:595-600 | the text of arguments that are strings is a document, and reading and dumping it gives it back |
| JsonHealing.HealingCanThrow | common/json-partial.cpp:171-299 | a document and a cut of the failing family on which healing throws |
| ChatParser.ChatMsgParser.AddToolCall | common/chat-parser.cpp:159-173 | a call without a name is refused and changes nothing, another one is appended |
| ChatParser.ChatMsgParser.ConsumeSpaces | common/chat-parser.cpp:232-240 | the cursor moves to the next character that is not blank |
| ChatParser.ChatMsgParser.TryFindLiteral | common/chat-parser.cpp:257-279 | the first occurrence, or in partial mode its beginning at the end of the text; the cursor moves behind it |
| ChatParser.ChatMsgParser.ParseBlocks | common/chat-parser.cpp:381-430 | the loop shows exactly the blocks that `Scan` finds and stops where they end |
| ChatParser.ChatMsgParser.TryParseReasoning | common/chat-parser.cpp:287-431 | content, reasoning and cursor are those of `Reasoning`; tool calls are untouched |
| ChatParser.ChatMsgParser.ParseContentOnly | common/chat-parser.cpp:1518-1521 | the message is `ContentOnly` of the text |
| Streaming.ScanGoesOn | common/chat-parser.cpp:381-430 | in a longer text closed blocks stay as they are, and an open one goes on |
| Streaming.ShownGrows | common/chat-parser.cpp:309-327 | what is shown of blocks that go on grows, stripped blanks and partial tags included |
| Streaming.StreamingMonotone | common/chat-parser.cpp:287-431 | for all tags, options and numbers of blocks, reasoning and content of a prefix are prefixes of those of the text, if and only if the text does not withdraw blanks |
| Streaming.WithdrawnIsEmpty | common/chat-parser.cpp:341-379 | a text that withdraws blanks has an empty message |
| ChatDiff.ComputeDiffs | common/chat.cpp:136-183 | the loop builds the deltas of `Diffs`, or fails where it throws |
| ChatDiff.RebuildsIffGrows | common/chat.cpp:37-50 | the deltas exist and rebuild the new message from the old one if and only if the new one grows the old one |
| ChatDiff.DiffsTelescope | common/chat.cpp:136-183 | along every run of growing snapshots nothing throws, and all deltas in order rebuild the last snapshot |
| ChatDiff.TaskResultState.UpdateChatMsg | tools/server/server-task.cpp:157-174 | every step of the server sends deltas that rebuild its message, which is never taken back |
| ChatDiff.SnapshotGrows | tools/server/server-task.cpp:157-174 | because empty messages are skipped, every snapshot grows the one before |
| ChatDiff.WithdrawnBlankIsSentTwice | common/chat-parser.cpp:341-379 | without the skip there are three texts after which a client holds a blank too many |
| XmlToolCalls.ParseTools | common/chat-parser-xml-toolcall.cpp:399-632 | calls are only ever added, and the cursor stays between the start and the end of the text |
| XmlToolCalls.FalseOnlyWhenRecoverable | common/chat-parser-xml-toolcall.cpp:306-312 | false is answered only while recovery is possible, and then no call has been added |
| XmlToolCalls.Transactional | common/chat-parser-xml-toolcall.cpp:640-648 | when the answer is false, cursor and tool calls are those on entry; otherwise calls are only added |
| XmlParser.TryFindTwo | common/chat-parser-xml-toolcall.cpp:60-79 | the search loop is `FindTwo` and leaves the cursor behind what it found, or where it was |
| XmlParser.TryFindClose | common/chat-parser-xml-toolcall.cpp:345-376 | the two or three searches with their saved cursors are `FindClose` |
| XmlParser.GenPartialJson | common/chat-parser-xml-toolcall.cpp:332-343 | at most one call is added, with the argument text cut at the flag |
| XmlParser.ParseOneArg | common/chat-parser-xml-toolcall.cpp:448-583 | the body of the loop over keys and values is `ParseArg`; nothing but its partial call is added |
| XmlParser.ParseAllArgs | common/chat-parser-xml-toolcall.cpp:448-584 | the loop over keys and values is `ParseArgs`, and `keys` tells whether it read one |
| XmlParser.ParseOneTool | common/chat-parser-xml-toolcall.cpp:409-611 | the body of the loop over tool calls is `ParseTool`; a complete call is added, or one partial call |
| XmlParser.ParseXmlToolCalls | common/chat-parser-xml-toolcall.cpp:298-633 | the whole parser is `ParseXml`; content and reasoning are untouched |
| XmlParser.TryConsumeXmlToolCalls | common/chat-parser-xml-toolcall.cpp:640-648 | when the answer is false, the message parser is as it was: cursor, content, reasoning and tool calls |
| XmlAborts.FindNameAborts | common/chat-parser-xml-toolcall.cpp:409-424 | the search for the end of a name fails if and only if the alternative closing literal stands before what is found and no closing literal follows |
| XmlAborts.ViewOutOfRange | common/chat-parser-xml-toolcall.cpp:507-517 | the view of a value that is no JSON is out of range if and only if the value begins behind the point where the whole text is cut to complete characters |
| XmlReader.MarkerLostExactly | common/chat-parser-xml-toolcall.cpp:525-545 | a structured value at the end of a text that is cut fails the assertion if and only if the cut swallows an escape |
| XmlReader.SwallowedEnds | common/json-partial.cpp:172-211 | a text that stops in a swallowed escape ends with an unfinished escape or the first half of a pair |
| XmlReader.AbortsExplained | common/chat-parser-xml-toolcall.cpp:298-633 | the parser fails only at the end of a name, with an alternative closing literal of calls, or for JSON values of a text that is cut in an escape |
| XmlReader.KnownSeparators | common/chat-parser.cpp:882-966 | the separators of all forms end with an ASCII character |
| XmlReader.CutLetterFails | common/chat-parser.cpp:913-930 | a call of Kimi-K2 that is cut inside an escaped letter fails, whatever the marker is |
| XmlReader.CutPairThrows | common/chat-parser-xml-toolcall.cpp:502-506 | a call of Kimi-K2 that is cut in the failing family passes on the exception of the library |
| JsonVerdict.VerdictIsRight | common/json-partial.cpp:114-324 | for every text, conditions on the text alone decide which of its five answers the reader gives, and up to where it takes the text, cut back texts and strings outside containers included |
| JsonVerdict.AnyMarker | common/chat-parser.cpp:137-143 | whatever marker is drawn, a text is taken, healed or refused alike and up to the same place |
| JsonVerdict.ThrowsExactly | common/json-partial.cpp:114-324 | the exception leaves the reader if and only if a container is open, the text cannot be read to the error or is of the failing family, and no value is due at the last character to cut back to |
| XmlAborts.BraceInName | common/chat-parser.cpp:930-947 | with the form of Apriel 1.5, a name with a closing brace in it and no brace behind it makes the parser fail |
| XmlRoundTrip.ParsesArgs | common/chat-parser-xml-toolcall.cpp:448-584 | printed keys and values are read in order, raw values as text and others as the JSON reader finds them, up to text that does not open another one |
| XmlRoundTrip.ParsesTool | common/chat-parser-xml-toolcall.cpp:409-602 | a printed call is read with its name and arguments, whether the separator is blank or not and with or without arguments |
| XmlRoundTrip.ParserUndoesPrinter | common/chat-parser-xml-toolcall.cpp:298-633 | every list of calls with text and JSON values, printed anywhere in a text with any blanks between the parts, is parsed to exactly those calls, and the cursor ends behind them |
| XmlLastEnds.ValueCloses | common/chat-parser-xml-toolcall.cpp:345-381 | behind a value its closing literal is found, and behind the last one the end of the call in its place, of either kind |
| XmlLastEnds.CallCloses | common/chat-parser-xml-toolcall.cpp:382-384 | the end of a call is found behind blanks, and that of the last call where the end of the scope follows |
| XmlLastEnds.ParserUndoesList | common/chat-parser-xml-toolcall.cpp:298-633 | the round trip for forms whose last value has no closing literal and whose last call may have one of its own |
| XmlLastEnds.JsonForms | common/chat-parser.cpp:912-966 | the forms of Kimi-K2, Apriel 1.5 and MiMo are such forms |
| XmlJsonReader.JsonListReadsBack | common/chat-parser-xml-toolcall.cpp:298-633 | with such a form and the JSON reader every list of calls whose values are documents is parsed to exactly those calls, wherever it stands |
| XmlJsonReader.ObjectsLeaveBrace | models/templates/MiMo-VL.jinja:29-38 | calls as this template writes them are parsed with the last argument of each as a text that ends with a brace |
| XmlJsonReader.MimoIsUnscoped | common/chat-parser.cpp:951-967 | the form of MiMo is one of those this is about |
| XmlJsonReader.AprielRefusesObjects | models/templates/unsloth-Apriel-1.5.jinja:102-111 | a list that begins with a call as this template writes it is answered false and leaves nothing behind |
| XmlRoundTrip.DistinctKeysKeepOrder | common/chat-parser-xml-toolcall.cpp:440-476 | with distinct keys the arguments are the printed ones in the printed order |
| XmlRoundTrip.FreshFirst | common/chat-parser.cpp:257-266 | a delimiter whose first character does not occur before it is found where it was printed |
| XmlRoundTrip.ApartStops | common/chat-parser-xml-toolcall.cpp:448-456 | a loop that looks for one delimiter stops at another one when neither begins the other |
| XmlForms.MinimaxIsTagged | common/chat-parser.cpp:882-893 | the form of MiniMax-M2 consists of tags |
| XmlForms.Qwen3CoderIsTagged | common/chat-parser.cpp:896-910 | so does the form of Qwen3-coder |
| XmlForms.SeedOssIsTagged | common/chat-parser.cpp:1384-1394 | so does the form of Seed-OSS |
| XmlForms.Glm45IsTagged | common/chat-parser.cpp:1057-1068 | so does the form of GLM 4.5 |
| XmlForms.NotPrimitive | common/chat-parser-xml-toolcall.cpp:507-517 | a value with a tag behind it is not taken for the beginning of a literal or a number |
| XmlForms.TidyReadBack | common/chat-parser-xml-toolcall.cpp:298-633 | with such a form every list of calls whose names, keys and values do not hold the characters that end them is parsed to exactly those calls |
| XmlArguments.DumpReadBack | common/chat-parser-xml-toolcall.cpp:595-600 | the argument text of string arguments determines them and their order |
| XmlArguments.CutsAtLastFlag | common/chat-parser-xml-toolcall.cpp:314-330 | a text whose last string ends with the flag is cut there, or one quote earlier |
| XmlArguments.PartialValueKept | common/chat-parser-xml-toolcall.cpp:332-343 | what is sent of an unfinished value is a prefix of the argument text for every continuation of it |
| XmlArguments.PartialKeyKept | common/chat-parser-xml-toolcall.cpp:466-475 | the same for an unfinished key |
| XmlArguments.StreamedValueKept | common/chat-parser-xml-toolcall.cpp:557-582 | across two texts, the argument text sent while a value is being written is a prefix of the one after it is complete |
| XmlStreaming.SearchCut | common/chat-parser-xml-toolcall.cpp:399-611 | a delimiter is not found, found in part or found whole, by where the text is cut |
| XmlStreaming.ValueCut | common/chat-parser-xml-toolcall.cpp:501-583 | of a value that is cut the certain part of its text is shown, and nothing while it waits |
| XmlStreaming.ArgsCut | common/chat-parser-xml-toolcall.cpp:448-583 | of arguments that are cut anywhere exactly the certain part of their text is added |
| XmlStreaming.StreamedCalls | common/chat-parser-xml-toolcall.cpp:298-633 | of a beginning of printed calls exactly the complete calls are parsed, and of the cut one its name and what is certain of its arguments, with text and JSON values |
| XmlStreaming.CallsShownGrow | common/chat-parser-xml-toolcall.cpp:314-343 | what is shown of printed calls grows with the text, where what is shown of the cut value is steady |
| XmlStreaming.CallsShownExactly | common/chat-parser-xml-toolcall.cpp:501-583 | while one value is written it grows if and only if the value waits at first, or nothing of it is shown, or it does not wait later |
| XmlStreaming.StreamedCallsGrow | common/chat.cpp:136-183 | between the messages of two such beginnings the deltas exist and rebuild the later one |
| XmlStreaming.StreamedValueExactly | common/chat.cpp:136-183 | within one value they do if and only if what is shown of it is not taken back |
| XmlStreaming.StreamedCallsReachPrinted | common/chat-parser-xml-toolcall.cpp:298-633 | the calls of a beginning grow to the printed ones |
| XmlPrimitives.BeginningPasses | common/chat-parser-xml-toolcall.cpp:507-517 | blanks and every beginning of a top-level number or literal pass the test for them |
| XmlPrimitives.LikeBegins | common/chat-parser-xml-toolcall.cpp:507-517 | with a text all its beginnings pass that test |
| XmlLive.ReaderFits | common/chat-parser-xml-toolcall.cpp:501-583 | of a value before its closing tag the JSON reader finds what is meant |
| XmlLive.ReaderReadsBack | common/chat-parser-xml-toolcall.cpp:298-633 | with a form of tags and that reader every list of tidy calls with text and JSON values is read back |
| XmlLive.CutSettles | common/chat-parser-xml-toolcall.cpp:501-583 | whether a value that is cut waits is decided by its text |
| XmlLive.JsonWaits | common/chat-parser-xml-toolcall.cpp:525-545 | a JSON value waits at each cut, unless the reader is blind to it |
| XmlLive.TextWaitsBefore | common/chat-parser-xml-toolcall.cpp:501-583 | whatever markers are drawn, a text value that waits at one cut waits at all earlier ones that are not wavering |
| XmlLive.StreamedForms | common/chat-parser.cpp:882-1400 | the forms of MiniMax-M2, Qwen3-coder, Seed-OSS and GLM 4.5 are forms to which this applies |
| XmlLive.LiveCallsGrow | common/chat.cpp:136-183 | between the messages of two beginnings, each parsed with a marker of its own, the deltas exist and rebuild the later one, if the first is not cut where the reader changes its mind |
| XmlLive.LiveValueExactly | common/chat.cpp:136-183 | while one value is being written they do if and only if the value waits at the first cut, or nothing of it is shown there, or it does not wait at the second |
| XmlLive.LiveStreamsRebuild | tools/server/server-task.cpp:157-174 | along every run of such cuts, with a new marker for each parse, no step throws, and all deltas in order rebuild the last message |
| XmlLive.LiveStreamsEnd | tools/server/server-task.cpp:157-174 | with the parse of the whole text behind such a run, a client that applied all deltas holds exactly the printed calls |
| XmlLive.EscapeIsTakenBack | common/chat-parser-xml-toolcall.cpp:501-583 | two cuts of a string with an escape between which no deltas rebuild the message, whatever markers are drawn |
| ExcludingGrammar.CollectChildren | common/chat-parser-xml-toolcall.cpp:99-115 | the two index loops collect the groups of words by their next character |
| ExcludingGrammar.BuildExpr | common/chat-parser-xml-toolcall.cpp:98-148 | the recursion on ranges of the sorted words builds `Build` |
| ExcludingGrammar.MakeExpr | common/chat-parser-xml-toolcall.cpp:98-156 | the whole builder returns the tree `Grammar` |
| GbnfText.MakeGbnfExcluding | common/chat-parser-xml-toolcall.cpp:84-161 | the text is that of the tree, with the escapes of classes and literals, and repeated |
| ExcludingGrammar.GrammarIsExact | common/chat-parser-xml-toolcall.cpp:84-161 | the repeated expression matches exactly a proper prefix of a forbidden word with one more character that leaves all of them; for no words any character, for empty words nothing but the empty text |
| ExcludingGrammar.LanguageIsExact | common/chat-parser-xml-toolcall.cpp:157-160 | the repetition generates exactly the texts made of such chunks |
| GbnfText.ReadsClassChar | src/llama-grammar.cpp:161-182 | a printed character of a class is read back, but for the hyphen and the caret, at which the reader throws |
| GbnfText.ReadsExpr | src/llama-grammar.cpp:450-600 | a printed expression is read as one group with the items of its tree, or the reader throws at a class with one of the two |
| GbnfText.ReadsGrammar | src/llama-grammar.cpp:433-600 | the whole text is read to its end if and only if no word holds one of the two; otherwise the reader throws |
| GbnfText.PrintedGrammarIsExact | src/llama-grammar.cpp:433-760 | what is read matches exactly the texts made of chunks, code point by code point |
| ExcludingLanguage.DecompositionIsUnique | common/chat-parser-xml-toolcall.cpp:84-161 | a text has one decomposition into chunks at most |
| ExcludingLanguage.BoundaryIsSafe | common/chat-parser-xml-toolcall.cpp:81-161 | when no word but the empty one begins another, no forbidden word starts at a chunk boundary of an accepted text |
| ExcludingLanguage.FreeExtends | common/chat-parser-xml-toolcall.cpp:81-161 | every text free of the words, fewer than there are code points, can be continued to an accepted one |
| ExcludingLanguage.ExcludesIff | common/chat-parser-xml-toolcall.cpp:81-83 | for every list of words the comment holds if and only if no word occurs in another one before its end, and none can begin inside a chunk and go on after it |
| ExcludingLanguage.ExcludesIffConstant | common/chat-parser-xml-toolcall.cpp:81-83 | for one word the comment holds if and only if its characters are all the same |
| ExcludingBytes.TextBoundaryIsSafe | src/llama-grammar.cpp:1392-1402 | an ASCII word does not stand at a chunk boundary in the bytes of an accepted text |
| ExcludingBytes.TextExcludesIff | common/chat-parser-xml-toolcall.cpp:81-83 | for ASCII words the comment holds of the bytes under the same condition |
| ExcludingBytes.OneWordIffAscii | src/llama-grammar.cpp:161-182 | in its bytes, one word is kept from the beginning of a text if and only if it is ASCII |
| ArgChain.BuildArgChain | common/chat-parser-xml-toolcall.cpp:246-257 | the loop over an unsigned index that ends by wrapping around terminates and adds two rules an argument, also for none |
| ArgChain.ArgGrammarIsExact | common/chat-parser-xml-toolcall.cpp:246-257 | the rules derive exactly the texts of the selections in order that contain every required argument, empty when nothing is selected |
| ArgChain.TextInjective | common/chat-parser-xml-toolcall.cpp:246-257 | different selections have different texts |
| Lora.PermuteCommutes | convert_lora_to_gguf.py:163-174 | whenever `permute` answers, for all ranks and shapes, its pair stands for the permuted product |
| Lora.TransposeCommutes | convert_lora_to_gguf.py:176-180 | whenever `transpose` answers, its pair stands for the product with the two axes exchanged |
| Lora.IndexedCommutes | convert_lora_to_gguf.py:59-113 | fitting selections of both parts stand for the indexed product |
| Lora.TupleIndexExact | convert_lora_to_gguf.py:79-111 | a tuple of indices is right if and only if the last two are slices and every other slice falls where A is 1 or takes all places |
| Lora.PlainIndexExact | convert_lora_to_gguf.py:68-78 | a single index is right if and only if a matrix is sliced, or the index is in range for A and takes one place of A or as many as of B |
| Lora.PlainIndexGoesWrong | convert_lora_to_gguf.py:68-78 | with the usual leading dimension 1 of A a slice is answered that is not right |
| Lora.TupleIndexGoesWrong | convert_lora_to_gguf.py:79-111 | a tuple with a slice of a leading dimension of A is answered that is not right |
| LoraShapes.ReshapableParts | convert_lora_to_gguf.py:147-155 | both parts can be reshaped only when the leading dimensions of A are 1 and the numbers of entries agree |
| LoraShapes.ReshapeCommutes | convert_lora_to_gguf.py:131-155 | whenever `reshape` answers, with -1 resolved, its pair stands for the product read in the new shape, which has as many entries unless the rank is zero |
| LoraJoins.StackCommutes | convert_lora_to_gguf.py:199-206 | whenever pairs are stacked, the result stands for the stack of their products |
| LoraJoins.CatMatricesCommutes | convert_lora_to_gguf.py:216-220 | matrices that share A are joined to a pair that stands for the joined products |
| LoraJoins.CatExact | convert_lora_to_gguf.py:211-215 | with more dimensions joining is right if and only if there is one pair, or every A is as long as its B |
| LoraJoins.CatGoesWrong | convert_lora_to_gguf.py:211-215 | two stacks with the usual leading dimension 1 of A are joined to a pair that is not right |
| CodepointCodec.DecodeEncoded | common/console.cpp:363-407 | decoding at the beginning of an encoded character gives it back, whatever stands around it |
| CodepointCodec.PrevUtf8CharPos | common/console.cpp:430-437 | the loop over continuation bytes computes `PrevPos` |
| CodepointCodec.NextUtf8CharPos | common/console.cpp:439-446 | the loop over continuation bytes computes `NextPos` |
| CodepointCodec.PrevIsBefore | common/console.cpp:430-437 | in an encoded text, stepping back leads to the beginning of the character before |
| CodepointCodec.NextIsAfter | common/console.cpp:439-446 | ... and stepping forward to the beginning of the next one |
| CodepointCodec.EncodeInjective | common/console.cpp:409-427 | different sequences of code points have different encodings |
| CodepointCodec.InsertExact | common/console.cpp:934-972 | counting one character more stays right if and only if the inserted number is not beyond the last code point |
| LineEditor.Editor.DeleteAtCursor | common/console.cpp:454-480 | the code point under the cursor is removed; bytes, widths, both cursors and the terminal agree again |
| LineEditor.Editor.BackspaceKey | common/console.cpp:905-933 | the same for the code point before the cursor |
| LineEditor.Editor.InsertKey | common/console.cpp:934-972 | the code point is inserted at the cursor, at the end or in the middle |
| LineEditor.Editor.MoveLeft | common/console.cpp:811-819 | the cursor moves back by one code point |
| LineEditor.Editor.MoveRight | common/console.cpp:820-828 | the cursor moves on by one code point |
| LineEditor.Editor.MoveToLineStart | common/console.cpp:519-527 | home |
| LineEditor.Editor.MoveToLineEnd | common/console.cpp:529-537 | end |
| LineEditor.Editor.MoveWordLeft | common/console.cpp:571-607 | the cursor moves to `WordStart` |
| LineEditor.Editor.MoveWordRight | common/console.cpp:609-654 | the cursor moves to `NextWord` |
| LineEditor.Editor.SetLineContents | common/console.cpp:495-517 | a recalled line replaces the line, decoded again, with the cursor at its end |
| LineEditor.Editor.HistoryPrev | common/console.cpp:704-716 | up: the line being written is kept, and the entry before is shown |
| LineEditor.Editor.HistoryNext | common/console.cpp:717-728 | down: the next entry, or the line that was being written |
| LineEditor.Editor.AddHistory | common/console.cpp:693-703 | empty lines and repetitions of the last entry are not remembered |
| LineEditor.Editor.ReadLine | common/console.cpp:743-1019 | over every sequence of keys the bytes, the history and the answer are those of the plain editor |
| LineEditor.Editor.CursorAssertions | common/console.cpp:758-759 | the two assertions at the head of the read loop hold |
| LineEditor.Undone | common/console.cpp:905-972 | backspace undoes insertion, insertion undoes backspace, delete after left is backspace, right undoes left |
| LineEditor.HistoryComesBack | common/console.cpp:689-741 | up shows the last entry, and down brings back the line that was being written |
| LineEditor.WordsStop | common/console.cpp:571-654 | word-left stops at the start of the word before the cursor, word-right at the start of the next one |
| LineEditor.KeysKeepNoNewline | common/console.cpp:743-972 | keys other than a newline bring no newline into the line, the line kept aside or the history |
| LineEditor.NewlineHandedBack | common/console.cpp:980-1018 | a line is handed back with a newline if and only if the input ends behind a backslash, and none gets into the history |
| LogRing.AddAppends | common/log.cpp:172-248 | adding appends to the queue, whether the ring grows or not, and the queue never looks empty afterwards |
| LogRing.GrowKeeps | common/log.cpp:224-245 | growth keeps the entries and their order |
| LogRing.PauseAppends | common/log.cpp:293-299 | the end entry is appended with two free places; with one the queue looks empty |
| LogRing.StepKeeps | common/log.cpp:172-305 | every atomic step keeps the invariant |
| LogRing.RunKeeps | common/log.cpp:172-305 | every interleaving of steps keeps it |
| LogRing.Fifo | common/log.cpp:172-305 | in every run what is printed is a prefix of what was accepted, and nothing is missing but what is held or queued, unless a pause hangs |
| LogRing.DrainingStep | common/log.cpp:259-280 | while a pause drains, each step of the worker brings it nearer to the end, and the others change nothing |
| LogRing.PauseExact | common/log.cpp:283-305 | a pause can return with everything accepted printed if and only if at most capacity - 2 entries are pending, and then no interleaving keeps it from going on |
| LogRing.PauseCanHang | common/log.cpp:283-305 | a log of any capacity reaches a pause that never returns |
| LogRing.CommonLog.AddEntry | common/log.cpp:172-248 | the new state is `AfterAdd` of the old one |
| LogRing.CommonLog.MoveEntries | common/log.cpp:226-244 | the copying loop fills the larger ring in order |
| LogRing.CommonLog.PauseLog | common/log.cpp:283-302 | the new state is `AfterPause` of the old one |
| LogRing.CommonLog.ResumeLog | common/log.cpp:250-281 | the new state is the step `Resume` of the old one: a thread is started unless one runs |
| LogRing.CommonLog.WorkerPop | common/log.cpp:261-268 | the worker takes out the first entry |
| LogRing.CommonLog.WorkerFinish | common/log.cpp:270-278 | the worker prints the entry, or ends on an end entry |
| Base64.EncodeLoop | common/base64.hpp:80-144 | the loop over one, two or three bytes writes `Encode` |
| Base64.EncodeSize | common/base64.hpp:338-341 | an encoding is exactly as long as `required_encode_size` says |
| Base64.DecodeSize | common/base64.hpp:324-327 | a decoding is never longer than `max_decode_size` says |
| Base64.DecodeUndoesEncode | common/base64.hpp:200-244 | decoding gives back all bytes, for both alphabets, given or found out, with checked and unchecked padding |
| Base64.DecodeInPlace | common/base64.hpp:294-312 | decoding over the input gives what decoding into another buffer gives |
| Escapes.ProcessEscapes | common/common.cpp:576-611 | overwriting the buffer while reading it gives what the functional decoder gives, and never more than the input |
| Escapes.UnescapeUndoesEscape | common/common.cpp:576-611 | whatever way each character is written, plain, by name or by its code, processing gives it back |
| Escapes.EscapeRoundTrip | common/common.cpp:576-611 | an escaped copy of any string gives that string back |
| Csv.ParseCsvRow | common/arg.cpp:937-979 | the loop over characters computes `ParseRow` |
| Csv.ParseUndoesRow | common/arg.cpp:933-979 | fields in quotes with doubled quotes, or plain ones, joined by commas are parsed to the list |
| Csv.FieldCount | common/arg.cpp:937-979 | there is one field more than commas outside quotes |

## Left out

- XmlStreaming.StreamedCalls: for forms of tags, and distinct keys; calls of Kimi-K2, Apriel 1.5 and MiMo are covered when
  they are complete. Two messages of a stream are compared with the same content and reasoning.
- XmlLive.LiveCallsGrow: not at the cuts `XmlLive.Wavering` (for one of them `XmlLive.EscapeIsTakenBack` shows that it fails),
  nor where the library throws; and text values must not leave a string or a misplaced token open, for which the reader goes
  on behind the closing tag and the value waits until the end of the stream.
- XmlReader.MarkerLostExactly: provided the digits of the marker, which the source draws at random, stand once in the
  arguments; without that the assertion fails only when an escape is swallowed.
- The reader takes bytes of 0x80 and more in strings as they are. The library refuses ill-formed UTF-8, so that the
  statements about `XmlReader.Reader` are for texts that are cut between characters; a NUL character, at which the library
  takes the text to end, is not modelled.
- `JsonDump`: an object with the same key twice is dumped as it is written, and numbers are formatted by a parameter.
- ChatDiff.TaskResultState.UpdateChatMsg: the format of the server's state is the content-only one; of the formats with
  tool calls `XmlLive.LiveStreamsRebuild` covers runs of the calls.
- ChatDiff.SnapshotGrows: content-only snapshots, as the state above.
- Streaming.StreamingMonotone: not for two empty tags, with which the loop over blocks does not end.
- JsonHealing.HealingIsExact: for markers that need no escaping in a string; the code makes them of digits.
- LoraJoins.CatExact: not for pairs whose first dimension is empty, when the answer depends on the entries of A too.
- XmlArguments.StreamedValueKept: only without an alternative closing literal, for a key that is not there yet, and for
  a closing literal that does not seem to begin before the value, because partial stops are searched in the whole text
  (common/chat-parser.cpp:268-269).
- XmlRoundTrip.ParserUndoesPrinter: for complete texts without alternative closing literals; `XmlLastEnds.ParserUndoesList`
  is for those. The conditions on the text say where each delimiter first occurs, and those on the values what the JSON
  reader finds there.
- XmlRoundTrip.ParsesArgs: without alternative closing literals, for which `XmlLastEnds.ParsesMembers` is.
- XmlRoundTrip.ParsesTool: without alternative closing literals, for which `XmlLastEnds.ParsesListed` is.
- XmlLastEnds.ParserUndoesList: the alternative closing literal of a value is empty, as in all forms of the repository.
- XmlJsonReader.ObjectsLeaveBrace: for calls with arguments whose last one holds neither a comma with a blank behind it nor
  the end of a call.
- The exception of `dump` for ill-formed UTF-8, and regular expressions other than the one for numbers and the suffix of
  Kimi-K2 names.
- `parse_msg_with_xml_tool_calls`: its heuristics for blanks have no crisp specification.
- The parser of `nlohmann::json` is a pushdown acceptor: no byte order mark, no check of UTF-8 inside strings, no limits
  of numbers, and key texts are not kept on the stack. The theorem on healing is about truncated documents with an open
  container.
- GbnfText.ParseSequence: literals, classes, groups, `.` and `*` are read; at a rule, a token or another repetition the
  reader answers `Outside`. The grammar of a list of empty words alone matches the empty text, and is refused as left
  recursive later on (src/llama-grammar.cpp:909-950), which is not modelled; nor are texts cut inside a character.
- The chain of argument rules is a list of rules, not their printed form; the rules of JSON schemas.
- Formats that are parsed with regular expressions (Hermes, DeepSeek, GPT-OSS and others), the PEG parser, templates,
  sampling, speculative decoding, ggml.
- Line editor: the recognition of escape sequences, the signal handlers and the Windows console; a character is taken to
  be as wide each time it is printed, and what the screen shows is not modelled, only where its cursor is.
- Log: the mutex makes steps atomic; the memory model, spurious wake-ups and a `resume` while a thread still has to be
  joined (which ends the program) are not modelled. Formatting of messages and colours.
- Tensors: exact numbers instead of floating point, data types, the ellipsis, negative steps, and which error is raised.
- Escapes: characters are bytes below 256; Base64 on iterators of other types.
