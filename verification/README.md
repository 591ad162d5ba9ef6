# Verified model of the flight-test lab

A Dafny model of the parts of the lab that carry its guarantees, and proofs about them.

- **The native JSON codec and protocol** (`Bytes`, `Utf8`, `Sanitizer`, `Json`, `Grammar`, `Reader`, `Completeness`,
  `Soundness`, `Parsing`, `KeySort`, `Serializer`, `RoundTrip`, `Meanings`, `Protocol`, `Replies`, `Spelling`, `Answers`). `Parsing.Parser` is the
  recursive-descent parser with its cursor as a field; each of its methods is proved to compute the matching function of
  `Reader`, which works on the unread suffix. `Grammar` is an independent definition: syntax trees with `Source` (their
  text, following sections 2 to 7 of RFC 8259 and the three extra number words) and `Meaning` (their value). `Soundness` and
  `Completeness` connect the two in both directions. `Serializer.Dumper` writes to an output field and is proved against
  `Dump`; `RoundTrip` and `Meanings` relate dumping and parsing. Strings are bytes in generalised UTF-8: lone surrogates are
  kept, and no encoded high surrogate is directly followed by an encoded low one (`Wtf8`). `Unit` is Table 3-7 of the Unicode
  Standard, and the repair is defined a second time, declaratively, by maximal subparts. `Spelling` pins every letter, digit
  and escape to characters, and `Answers` says which reply a request gets, from its syntax tree.
- **Line framing, twice** (`Framing`, `Connections`, `PythonDut`, `OneProtocol`). `Events` is the plain specification of a
  stream. The native receive loop is proved to send its replies for every way of cutting the stream into chunks, and the
  `readline` loop of the Python DUT is compared with it, frame by frame and then byte by byte on the wire.
- **Nesting** (`Nesting`, `HiddenDepth`). The work-list check of the Python DUT, how its verdict relates to the native one,
  and a request on which the two differ.
- **The completion engine** (`Curricula`, `Completion`, `Progress`, `ProgressRuns`, `ProgressHistory`, `Interview`). The store
  is a class whose methods are proved against functions on its state; the theorems then range over every sequence of calls,
  and `ProgressHistory` says of each field which calls put it there. Weights use
  real numbers, and the division behind a score is a parameter that only has to keep the order of fractions: exact division
  does (`ExactKeeps`).
- **Threads and faults** (`Threads`, `Faults`). Every read of a `done` flag is preceded by a step in which any threads may
  finish and any time may pass, so the proofs cover every interleaving. Move assignment and destruction of a joinable `std::thread` end the
  process; here they are preconditions (`MoveAssign`, `Erase`), and so is that a joined thread has finished (`Join`), each
  proved wherever it is called. Request counting is a transition system over the atomic steps of any number of handlers.

The constants of the source (nesting limit, digit limit, frame cap) are parameters, so each theorem holds for all of them.

Where the code does not do all its documentation says, the model follows the code. REQ-CPP-001 and the comments in
`server.cpp` and `json.cpp` present the two DUTs as one protocol. Two families of input separate them, and nothing else
does: `OneProtocol.ConversationsAgreeExactly` says that the bytes of a whole conversation are the same if and only if the
stream is in neither.

- A frame whose trailing carriage returns straddle `readline`'s limit is cut there by Python and answered more than once.
  `Framing.CarriageReturnsSeparate` gives an input; the condition is `Framing.CutInCarriageReturns`, a test of two bytes of
  each frame.
- A document nested deeper than the limit, whose repeated keys leave a value within it, is rejected by the native DUT, which
  measures the text, and answered by Python, which measures the value, as long as the text is no deeper than the
  interpreter's stack (`stack` below; beyond it `json.loads` raises RecursionError and both reject).
  `HiddenDepth.RepeatedKeySeparates` gives a request for every limit, with both replies; the condition is
  `PythonDut.HidesDepth`.

The fault injector is documented to fire once. The native counter is a 32-bit atomic, so once it has come round a fault
that leaves the process serving fires again: a delay, a bad access that goes unnoticed, or a hang of a handler thread. A
crash never does, and neither does a hang of the main thread, which a fault number of zero asks for.
`Faults.FiresAgainAfterWrap` decides this for every configuration, and `Faults.OneShotExactly` gives the count from which on
it is no longer one shot.

## Model

| member | source | states |
|---|---|---|
| `Utf8.EncodeOrder` | cpp/src/json.cpp:310-326 | of two encodings neither is a prefix of the other, and at the first difference the smaller code point has the smaller byte |
| `Utf8.NextReadsEncoded` | cpp/src/json.cpp:440-475 | decoding reads back what encoding wrote, for every code point to 0x10FFFF, lone surrogates included, whatever follows |
| `Utf8.DecodeEncoded` | cpp/src/json.cpp:440-475 | decoding a whole encoded sequence gives the sequence back |
| `Utf8.ByteOrderIsCodePointOrder` | cpp/src/json.cpp:571-574 | comparing encoded strings by bytes is comparing them by code points, the order of Python's `sort_keys` |
| `Utf8.UnitIsScalarEncoding` | cpp/src/json.cpp:721-744 | the byte patterns of Table 3-7 are exactly the encodings of the Unicode scalar values |
| `Utf8.WellFormedIsEncoding` | cpp/src/json.cpp:693-699 | a byte string is well-formed exactly when it is the encoding of a sequence of scalar values |
| `Utf8.Wtf8Decodes` | cpp/src/json.cpp:436-440 | a string of generalised UTF-8 is the encoding of what it decodes to, with no high surrogate before a low one |
| `Spelling.CharactersSpelt` | cpp/src/json.cpp:59-68 | whitespace, digits and every delimiter are these characters and no others |
| `Spelling.WordsSpelt` | cpp/src/json.cpp:107-136 | each of the six words, as a document, is read as what it stands for |
| `Spelling.HexDigitsSpelt` | cpp/src/json.cpp:295-306 | a hexadecimal digit is its place among the sixteen, in either case, and nothing else is one |
| `Spelling.CodeUnitSpelt` | cpp/src/json.cpp:289-308 | four such digits denote the code unit they spell |
| `Spelling.EscapesSpelt` | cpp/src/json.cpp:241-250 | anywhere in a string each of the eight two-letter escapes is read as the `\uXXXX` of RFC 8259 section 7 it abbreviates |
| `Spelling.EscapeInString` | cpp/src/json.cpp:241-250 | a string literal reads the same with such an escape spelt either way, whatever stands around it |
| `Spelling.OtherEscapesFail` | cpp/src/json.cpp:282-284 | any other letter after a backslash, and four characters that are not digits after `\u`, fail the string |
| `Spelling.PairsInOrder` | cpp/src/json.cpp:266-267 | surrogate pairs in order stand for U+10000 to U+10FFFF in order |
| `Spelling.IntegersSpelt` | cpp/src/json.cpp:400-420 | an integer literal is a number of 64 bits, its own text beyond them, and refused over the digit limit, by its positional value |
| `Spelling.DecimalDigit` | cpp/src/json.cpp:408-414 | a single digit is worth its place among the ten |
| `Spelling.DecimalPlaces` | cpp/src/json.cpp:408-414 | digits count by their place |
| `Spelling.ReplacementSpelt` | cpp/src/json.cpp:765 | what replaces a maximal subpart is U+FFFD |
| `Sanitizer.SanitizeUtf8` | cpp/src/json.cpp:693-769 | the index loop terminates and computes the repair |
| `Sanitizer.ScanSequence` | cpp/src/json.cpp:721-753 | the announced length and how much of a well-formed sequence is present |
| `Sanitizer.Segmentation` | cpp/src/json.cpp:761-766 | every byte string is cut into characters and maximal subparts, and the scanner outputs that cut with one U+FFFD for each subpart |
| `Sanitizer.RepairIsUnique` | cpp/src/json.cpp:761-766 | any segmentation into characters and maximal subparts repairs to the scanner's output: the rule leaves no freedom |
| `Sanitizer.SanitizedIsWellFormed` | cpp/src/json.cpp:693-699 | the output is well-formed UTF-8 for every input |
| `Sanitizer.SanitizeKeepsWellFormed` | cpp/src/json.cpp:755-758 | well-formed input passes unchanged |
| `Sanitizer.SanitizeIdempotent` | cpp/src/json.cpp:693-769 | repairing twice is repairing once |
| `Sanitizer.SanitizeSplits` | cpp/src/json.cpp:746-767 | repair distributes over a cut before an ASCII byte or at the end |
| `Json.Upsert` | cpp/src/json.cpp:165-179 | with distinct keys a repeated key has its value replaced in place, a new one is appended, every other member keeps its place, and keys stay distinct |
| `Meanings.UpsertFind` | cpp/src/json.cpp:165-179 | afterwards the key is found with the new value, and every other key as before |
| `Parsing.Parser.ParseDocument` | cpp/src/json.cpp:26-41 | succeeds with the specification's value exactly when the whole text is read |
| `Parsing.Parser.ParseValue` | cpp/src/json.cpp:87-140 | reads one value or fails as specified, within the depth, and strictly advances the cursor |
| `Parsing.Parser.ParseObject` | cpp/src/json.cpp:142-189 | members in place, last value of a repeated key, or failure, and the cursor behind the brace |
| `Parsing.Parser.ParseArray` | cpp/src/json.cpp:191-215 | elements in order or failure, and the cursor behind the bracket |
| `Parsing.Parser.ParseString` | cpp/src/json.cpp:217-287 | the bytes of a string literal or failure, and the cursor behind the quote |
| `Parsing.Parser.ParseUnicode` | cpp/src/json.cpp:251-281 | joins a high and a low escape, and otherwise rewinds to behind the first |
| `Parsing.Parser.ParseHex4` | cpp/src/json.cpp:289-308 | four hexadecimal digits or failure |
| `Parsing.Parser.ParseNumber` | cpp/src/json.cpp:346-424 | double, 64-bit integer, raw token, or failure, with the cursor behind the number |
| `Parsing.Parser.ScanNumber` | cpp/src/json.cpp:346-384 | the extents of the four parts, and failure on early endings |
| `Completeness.StringIsRead` | cpp/src/json.cpp:217-287 | every string literal of the grammar is read to the encoding of its code points |
| `Completeness.NumberIsRead` | cpp/src/json.cpp:346-424 | every number of the grammar is read to its meaning when its integer digits are within the limit, and refused otherwise |
| `Completeness.ValueIsRead` | cpp/src/json.cpp:87-215 | every value of the grammar is read to its meaning when it fits the limits, and refused when it does not: early rejections lose nothing |
| `Soundness.StringHasSource` | cpp/src/json.cpp:217-287 | what the string reader accepts is a string literal of the grammar |
| `Soundness.NumberHasSource` | cpp/src/json.cpp:346-424 | what the number reader accepts is a number of the grammar |
| `Soundness.ValueHasSource` | cpp/src/json.cpp:87-215 | what the value reader accepts is whitespace and a value of the grammar within the limits |
| `Soundness.DerivedDocumentIsRead` | cpp/src/json.cpp:26-41 | a derivable document is accepted with its meaning if and only if it is within the limits: the depth cut accepts what the uncut parser would, at most so deep |
| `Soundness.ReadDocumentIsDerived` | cpp/src/json.cpp:26-41 | an accepted document is derivable, within the limits, and its value is the meaning |
| `Soundness.AcceptsExactlyTheGrammar` | cpp/src/json.cpp:26-41 | on well-formed text the parser returns a value if and only if the text derives it within the limits |
| `KeySort.SortIsStable` | cpp/src/json.cpp:571-574 | sorting by key orders, permutes, and keeps entries with equal keys in order |
| `Serializer.Dumper.DumpString` | cpp/src/json.cpp:481-511 | appends the quoted text with its escapes |
| `Serializer.Dumper.DumpPoint` | cpp/src/json.cpp:497-508 | appends one code point: short, ASCII, one escape, or two for a surrogate pair |
| `Spelling.DumpTextSpelt` | cpp/src/json.cpp:481-511 | a dumped string is, character by character, its letter escape, itself if printable ASCII, or its code units after `\u` in four lower-case digits |
| `Spelling.PointTextSpelt` | cpp/src/json.cpp:430-434 | a character without a letter is spelt in exactly that way |
| `Serializer.Dumper.DumpValue` | cpp/src/json.cpp:589-626 | appends exactly the canonical text of the value |
| `Serializer.Dumper.DumpArray` | cpp/src/json.cpp:609-621 | appends the elements in order with separators |
| `Serializer.Dumper.DumpObject` | cpp/src/json.cpp:562-587 | appends the members in key order with separators |
| `RoundTrip.StringRoundTrip` | cpp/src/json.cpp:481-511 | parsing a dumped string of generalised UTF-8 gives the string back |
| `RoundTrip.ReadStringIsWtf8` | cpp/src/json.cpp:251-281 | from well-formed input the string reader builds only generalised UTF-8 |
| `RoundTrip.PointsNeverPair` | cpp/src/json.cpp:259-273 | the join leaves no high surrogate directly before a low one |
| `RoundTrip.CanonicalRoundTrip` | cpp/src/json.cpp:589-626 | parsing what was dumped gives the value with every object's members sorted, for every double-free canonical value within the limits |
| `Meanings.ParsedIsCanonical` | cpp/src/json.cpp:771-775 | every parsed value is canonical: distinct keys, generalised UTF-8 strings, raw integers in shortest form and outside 64 bits, within the limits |
| `Meanings.FindIsLastOccurrence` | cpp/src/json.cpp:634-645 | looking a key up gives the value of its last occurrence in the text |
| `Meanings.DumpIsPrintable` | cpp/src/json.cpp:477-511 | a dump holds only bytes 0x20 to 0x7E |
| `Meanings.DumpOfArranged` | cpp/src/json.cpp:562-587 | sorting a value's members first does not change its dump |
| `Meanings.DecimalTextOfDecimal` | cpp/src/json.cpp:415-420 | a whole number without leading zeros is the shortest text of its value, so a raw token matches the printed integer |
| `Protocol.Parse` | cpp/src/json.cpp:771-775 | repairs, then parses |
| `Protocol.DumpIsStable` | cpp/src/json.cpp:771-775 | dumping, parsing and dumping again gives the same bytes |
| `Protocol.ResponseIsGood` | cpp/src/protocol.cpp:16-49 | every response to every line is canonical and within the limits, and double-free when the request is |
| `Answers.ResponseAnswers` | cpp/src/protocol.cpp:16-40 | the response has exactly the members the kind of request calls for, each with its value; the kind is read off the syntax tree |
| `Answers.NativeAnswers` | cpp/src/protocol.cpp:42-49 | a line that derives a document within the limits is answered by its kind, any other with the invalid-JSON error |
| `Answers.PythonAnswers` | simulator/simulator.py:299-324 | Python answers the documents within its bounds by the same kinds, any other with the invalid-JSON error |
| `Answers.CodeTellsKind` | cpp/src/protocol.cpp:16-40 | which error code, state and status there is says exactly what the last "command" was; the command and the last "sequence" are echoed |
| `Protocol.ReplyIsARequest` | cpp/src/protocol.cpp:42-49 | the reply to a line without doubles is printable, holds no line feed, and as a request parses to its response, sorted |
| `Protocol.TooLongReplyIsInvalidJson` | cpp/src/server.cpp:181-183 | the literal reply to an over-long frame is the dump of the invalid-JSON response |
| `Nesting.ExceedsNestingLimit` | simulator/simulator.py:246-262 | the work-list loop terminates and says whether the value's recursive depth is over the limit |
| `Nesting.DepthOfMeaning` | simulator/simulator.py:253-262 | the value is never deeper than its syntax, and as deep when no object repeats a key |
| `Nesting.AcceptedPassesCheck` | cpp/src/json.cpp:27-32 | what the native parser accepts, the Python check lets pass |
| `Nesting.VerdictsCompared` | cpp/src/json.cpp:87-90 | the two depth verdicts differ exactly when dropping repeated keys brings the value within the limit, and never without repeats |
| `HiddenDepth.NestingBoundary` | cpp/src/json.cpp:27-32 | on both sides a zero in brackets is accepted exactly up to the limit, the zero being a level |
| `HiddenDepth.RepeatedKeySeparates` | simulator/simulator.py:294-295 | for every limit, a request the native DUT answers with invalid JSON and Python, whose value has depth two, with an answer of its own |
| `Framing.OverlongRemainder` | cpp/src/server.cpp:261-273 | an unterminated remainder over the cap would be rejected whatever followed it |
| `Framing.LinesAreAnswered` | cpp/src/server.cpp:222-244 | lines within the cap give one answer each, in order; then a tail over the cap is rejected, and otherwise answered if not empty and the stream ends in order |
| `Framing.OverlongLineEnds` | cpp/src/server.cpp:177-184 | the first line over the cap is rejected and nothing after it is looked at |
| `Framing.FramingsAgreeExactly` | simulator/simulator.py:338-370 | the `readline` loop yields the specified events unless a frame is cut inside its trailing carriage returns, and then it yields more |
| `Framing.CleanStreamsAgree` | simulator/simulator.py:338-370 | both framings agree when carriage returns stand only directly before a line feed or last |
| `Framing.CarriageReturnsSeparate` | simulator/simulator.py:342-348 | a payload at the cap with two carriage returns is answered once by the native side and twice by Python |
| `Framing.LinesOfWire` | cpp/src/server.cpp:203-204 | splitting a reply stream at line feeds gives back the replies |
| `Connections.Connection.SendAll` | cpp/src/server.cpp:140-152 | sends everything through partial sends, or fails having sent a proper part |
| `Connections.Connection.HandleLine` | cpp/src/server.cpp:163-210 | strips carriage returns, rejects over the cap, answers otherwise; stops on rejection or a failed send |
| `Connections.Connection.HandleChunk` | cpp/src/server.cpp:230-273 | extracts and answers the complete lines of the buffer and rejects an over-long remainder |
| `Connections.Connection.HandleConnection` | cpp/src/server.cpp:212-277 | for every cutting into chunks, the replies sent are those of the specification on the concatenation, cut short only by a failed send |
| `PythonDut.DutHandler.Handle` | simulator/simulator.py:328-434 | the `readline` loop sends the replies to its events in order |
| `PythonDut.DutHandler.Response` | simulator/simulator.py:370-410 | decoding first and stripping after gives the reply to the stripped payload |
| `PythonDut.StripThenDecode` | simulator/simulator.py:370 | stripping the delimiter before the repair or after it gives the same text, for every line |
| `Replies.AnsweredIsNotInvalid` | cpp/src/protocol.cpp:16-49 | no request that was understood, of whatever content, gets the bytes that report invalid JSON |
| `PythonDut.DecodeRequest` | simulator/simulator.py:280-296 | a message, unless the text is malformed or deeper than the stack, an integer too long, or the value too deep |
| `PythonDut.DecodersCompared` | simulator/simulator.py:280-296 | whatever the native parser accepts Python decodes to the same value; they differ on a document if and only if it hides its depth: value within the limit, text over it but not over the stack |
| `PythonDut.RepliesAgree` | simulator/simulator.py:299-324 | both DUTs reply with the same bytes to a payload if and only if its document does not hide its depth |
| `OneProtocol.RepliesRecovered` | cpp/src/server.cpp:203-204 | splitting the bytes of a conversation at line feeds gives one reply for each event, in order, whether the lines hold no doubles or doubles print plainly |
| `OneProtocol.ConversationsAgreeExactly` | cpp/src/server.cpp:212-277 | over conversations whose replies are single lines, both DUTs send the same bytes if and only if no frame is cut inside its carriage returns and no answered payload hides its depth |
| `OneProtocol.PlainConversationsAgreeExactly` | cpp/src/server.cpp:212-277 | the same for every stream, when doubles are printed without control characters |
| `OneProtocol.DutsSendTheSame` | cpp/src/server.cpp:212-277 | on clean streams without repeated keys both DUTs send the same bytes, however the stream is cut into chunks and doubles are printed |
| `Curricula.SelectKeepsOrder` | learning/server/curriculum.py:63-74 | a gate lists the identifiers of exactly the blocks it selects, in the order of the blocks |
| `Curricula.BlocksUnique` | learning/server/curriculum.py:146-156 | whether block identifiers are unique |
| `Curricula.LoadCurriculum` | learning/server/curriculum.py:299-354 | accepts exactly the programs that are non-empty, with unique lessons and blocks, known concepts, and prerequisites strictly earlier, files them in order, and what a rejection says is true |
| `Curricula.CheckPrerequisites` | learning/server/curriculum.py:336-354 | accepts a lesson whose prerequisites are all earlier, and otherwise names one that is not, with what is wrong with it |
| `Completion.SharedSeenIsExact` | learning/server/progress.py:371-404 | on any graph, cyclic ones included, the evaluation is true if and only if everything reachable is stored complete, and in the curriculum available with its gates passed |
| `Completion.MissingIsExact` | learning/server/progress.py:413-462 | nothing is missing if and only if the lesson's own gates hold and everything behind its prerequisites is sound |
| `Completion.ReportedIsMissing` | learning/server/progress.py:427-462 | everything reported is indeed missing, and every own gate that fails is reported |
| `Completion.StoredStatusDecides` | learning/server/progress.py:397-401 | without a curriculum, modelled as one that knows no lesson, a lesson is complete if and only if it is stored complete |
| `Completion.MissingWithoutCurriculum` | learning/server/progress.py:413-462 | without a curriculum nothing is missing if and only if the own gates hold and every prerequisite is stored complete |
| `Completion.CompleteExplores` | learning/server/progress.py:397-404 | a true answer leaves every lesson visited on the way sound, with its prerequisites visited or still being looked at |
| `Completion.IncompleteHasWitness` | learning/server/progress.py:394-404 | a false answer comes from an unsound lesson on a path from the one asked about |
| `Progress.ProgressStore.LessonRecord` | learning/server/progress.py:208-217 | finds or creates the record |
| `Progress.ProgressStore.MarkStarted` | learning/server/progress.py:230-245 | the whole new state |
| `Progress.ProgressStore.RecordStep` | learning/server/progress.py:247-253 | the whole new state |
| `Progress.ProgressStore.RecordValidation` | learning/server/progress.py:255-302 | the whole new state: a historical pass stands, a mandatory failure revokes completion |
| `Progress.ProgressStore.RecordQuiz` | learning/server/progress.py:304-314 | the whole new state |
| `Progress.ProgressStore.RecordExplain` | learning/server/progress.py:316-325 | the whole new state |
| `Progress.ProgressStore.RecordHint` | learning/server/progress.py:327-342 | the whole new state |
| `ProgressRuns.HintsAreHighWater` | learning/server/progress.py:327-335 | from an empty store the hints revealed are those up to the largest index asked for |
| `ProgressRuns.HintsNeverFall` | learning/server/progress.py:327-335 | no call takes a revealed hint back |
| `ProgressRuns.HintAgainChangesNothing` | learning/server/progress.py:333-334 | asking again for a hint already revealed changes nothing |
| `ProgressRuns.StepsAreRecordedOnce` | learning/server/progress.py:247-253 | from an empty store the steps done are exactly those recorded, each listed once |
| `Progress.ProgressStore.RecordInterview` | learning/server/progress.py:344-361 | the whole new state: totals, streak and concepts |
| `Progress.ProgressStore.LessonIsComplete` | learning/server/progress.py:371-404 | terminates on any graph and computes the verdict and the set it leaves behind |
| `Progress.ProgressStore.LessonCompletion` | learning/server/progress.py:413-462 | the list of missing requirements in order, and whether it is empty |
| `Progress.ProgressStore.MarkComplete` | learning/server/progress.py:464-475 | marks the lesson if and only if nothing is missing |
| `Progress.ProgressStore.CompletionMap` | learning/server/progress.py:477-494 | one verdict per lesson, by the same rule |
| `Progress.ProgressStore.ResumeLessonId` | learning/server/progress.py:510-543 | the last lesson if actionable, else the first actionable, else the last of the program |
| `Progress.NoDeadEnd` | learning/server/progress.py:518-543 | when nothing is actionable, every lesson whose whole closure is available is complete |
| `ProgressHistory.ActionableMeans` | learning/server/progress.py:520-526 | a lesson can be worked on exactly when it is available, not sound to its closure, and each prerequisite is |
| `ProgressHistory.FirstActionableIsFirst` | learning/server/progress.py:538-543 | the lesson resumed is the first of the program that can be worked on, the last of the program if there is none |
| `Progress.ProgressStore.ConceptMastery` | learning/server/progress.py:545-560 | the tally, score and weakness of every concept |
| `Progress.ProgressStore.InterviewWeights` | learning/server/progress.py:562-597 | the weight of every question |
| `ProgressRuns.CompleteRestsOnGates` | learning/server/progress.py:464-475 | from an empty store, a stored "complete" always implies the gates, and so completeness is the closure being stored complete |
| `ProgressHistory.CompleteWasEarned` | learning/server/progress.py:464-475 | from an empty store, a lesson stored complete is available, each quiz was answered correctly, each explanation passed, each mandatory check passed when last run, or ever if historical |
| `ProgressHistory.GatesAreBlocks` | learning/server/curriculum.py:63-74 | the gates of a lesson are its mandatory checks, its quizzes and its explanations, block by block |
| `ProgressHistory.QuizCorrectWasAnswered` | learning/server/progress.py:304-314 | a quiz counts as answered if and only if some call answered it correctly |
| `ProgressHistory.ExplainDoneWasExplained` | learning/server/progress.py:316-325 | an explanation counts if and only if some call passed it |
| `ProgressHistory.CheckPassedWasChecked` | learning/server/progress.py:266-280 | a historical check counts as passed if and only if it ever passed, any other if and only if its last run passed |
| `ProgressHistory.CompleteFollowsCalls` | learning/server/progress.py:286-300 | a lesson becomes complete exactly when marked with nothing missing, and stops being so exactly when a check revokes it |
| `ProgressHistory.StartedFollowsCalls` | learning/server/progress.py:230-245 | a lesson stays not started until opened or completed, and has a record once a call names it |
| `ProgressHistory.AttemptsAreCounted` | learning/server/progress.py:243 | attempts count the openings, quiz attempts the answers |
| `ProgressHistory.InterviewIsCounted` | learning/server/progress.py:354-358 | interview totals count the answers of each kind |
| `ProgressHistory.ConceptsFollowCalls` | learning/server/progress.py:363-369 | each call adds to its concepts one success or failure each, and none when the check is not mandatory or a historical pass covers it |
| `ProgressHistory.LastLessonFollowsCalls` | learning/server/progress.py:244 | which calls move the learner, and where |
| `ProgressRuns.HistoricalPassStands` | learning/server/progress.py:268-279 | over any calls a passed historical check is never un-passed |
| `ProgressRuns.RevocationIsExact` | learning/server/progress.py:293-300 | a failed mandatory check makes its lesson and exactly its transitive dependents incomplete, and leaves all other verdicts |
| `ProgressRuns.FailureBlocks` | learning/server/progress.py:280-300 | after it the lesson is not marked and the check not passed |
| `ProgressRuns.UntilPassedAndMarked` | learning/server/progress.py:293-300 | the lesson is complete again only after the check passed and, later, the lesson was marked |
| `ProgressRuns.DependentsWait` | learning/server/progress.py:371-404 | every dependent waits for the same two calls |
| `ProgressRuns.StreakIsTrailingRun` | learning/server/progress.py:353-358 | in every reachable state the stored streak is the length of the trailing run of correct answers |
| `Interview.ExactKeeps` | learning/server/progress.py:557 | exact division of a count of correct answers by the total keeps the order of such scores, between 0 and 1 |
| `Interview.CorrectNeverRaises` | learning/server/progress.py:579-596 | a correct answer never raises the question's weight |
| `Interview.MissRaises` | learning/server/progress.py:579-596 | a miss strictly raises it, above any unanswered question with the same concepts |
| `Interview.WeightAtLeastFloor` | learning/server/progress.py:596 | no weight falls below the floor |
| `Interview.WeightFormula` | learning/server/progress.py:579-596 | one, the weakness of the concepts and two for each miss, halved for each answer of the streak up to six, at least the floor |
| `Interview.WeaknessFormula` | learning/server/progress.py:582-587 | a concept counts a half before any answer, and then what its score lacks of one |
| `Interview.NeutralWeight` | learning/server/progress.py:565-566 | a question never answered on concepts never met weighs one and a half for each |
| `Interview.WeakBelowSeventy` | learning/server/progress.py:557-558 | with exact division a concept is weak when fewer than seven answers in ten are right |
| `Threads.Server.IsFinished` | cpp/src/server.cpp:289-297 | joins a handler that is done, leaves one that is not |
| `Threads.Server.CompactNext` | cpp/src/server.cpp:288-297 | one step of the compaction: joined and left behind, or moved down onto a slot that is not joinable |
| `Threads.Server.ReapFinished` | cpp/src/server.cpp:287-299 | keeps the other handlers in order, drops and joins every handler done at the start and only handlers done by the end |
| `Threads.KeptOrReaped` | cpp/src/server.cpp:288-298 | the compaction neither loses nor doubles a thread |
| `Threads.Server.Start` | cpp/src/server.cpp:470-478 | one more running handler, all threads still accounted for |
| `Threads.Server.AcceptLoop` | cpp/src/server.cpp:431-482 | no slot holds a thread that had finished before the last connection was accepted |
| `Threads.Server.Drain` | cpp/src/server.cpp:487-510 | both passes: whoever finished before the deadline is noted between them; one is still joinable only after it |
| `Threads.Server.FirstPass` | cpp/src/server.cpp:487-496 | joins only done handlers; one is still joinable only if the deadline has passed |
| `Threads.Server.SecondPass` | cpp/src/server.cpp:502-510 | reports success if and only if no handle is joinable; otherwise some thread had not finished when the pass began |
| `Threads.Server.Shutdown` | cpp/src/server.cpp:484-522 | returns only with every thread ever started joined exactly once, and exits otherwise, after the whole grace period, with a thread still running |
| `Threads.Server.RunServer` | cpp/src/server.cpp:431-522 | over any sequence of connections: the shutdown counts its grace period from when accepting ended, threads that all finish within it are all joined and zero is returned, and it exits only after it |
| `Threads.AccountsReaped` | cpp/src/server.cpp:287-299 | after a compaction every thread started is still joined once or held by one slot |
| `Threads.NoneLeft` | cpp/src/server.cpp:513-522 | when no handle is joinable, every thread started has been joined exactly once |
| `Faults.NumbersAreUnique` | cpp/src/server.cpp:198 | in every interleaving each number up to the count was checked once or is held by one handler |
| `Faults.FiresOnce` | cpp/src/server.cpp:95-127 | in every interleaving the native fault fires at most once, on the request of its number, or at startup when that is zero, until the counter comes round |
| `Faults.FiresOnTheNthRequest` | cpp/src/server.cpp:427-429 | with no handler between counting and checking it has fired exactly when so many frames were counted |
| `Faults.FiresWhenShown` | cpp/src/server.cpp:103 | in every interleaving what fired is exactly what was checked while the counter showed the configured number, each once |
| `Faults.OneShotExactly` | cpp/src/server.cpp:95-105 | with no handler between counting and checking the fault has fired at most once if and only if the counter has not come round to its number |
| `Faults.FiresAgainAfterWrap` | cpp/src/server.cpp:103-127 | over all interleavings a configured fault can fire twice if and only if it leaves the process serving: slow, a survived bad access, or a hang of a handler |
| `Faults.AnswersFewer` | simulator/simulator.py:373-384 | in every interleaving the Python DUT answers at most one request fewer than it was told to exit after, and has ended once a later number was checked |
| `Faults.AnswersUpToTheLast` | simulator/simulator.py:379-384 | it can answer all but that one |
| `Faults.EndsExactly` | simulator/simulator.py:379-384 | the Python DUT is up exactly as long as no number from the configured one on was checked |
| `Faults.AnsweredDespiteFault` | cpp/src/server.cpp:103-127 | the request a native fault fires on can be answered if and only if the fault is slow or a bad access |

## Left out

- Doubles: a finite double is the text it was written with, and its printing is a parameter `fmt` of every dump. Conversion by
  `strtod` and `to_chars` (overflow to infinity included) is library behaviour. Theorems about parsing dumps ask for
  double-free values.
- CPython's `json` module is taken to be the grammar and its meaning, and `json.dumps` to write the canonical text of `Dump`;
  neither is part of this repository. `json.loads` raises RecursionError on text nested deeper than `stack`, a parameter that
  is only assumed to be at least the nesting limit; how many interpreter frames a level takes is not modelled.
- Shifts, masks and `unsigned char` casts are written as division, remainder and addition on integers.
- Connections.Connection.Send: the system call may take any part of what it is offered or fail; sockets, timeouts and logs are not modelled.
- Connections.Connection.HandleLine: counting the request and injecting a fault are left out; `Faults` models them, over
  counted frames without payloads.
- Connections.Connection.HandleConnection: as for one line, no fault is injected.
- PythonDut.DutHandler.Handle: the injected faults (drop, delay, malformed reply) and failing reads and writes are not
  modelled; the stream ends in order.
- PythonDut.DutHandler.Response: no fault is injected.
- Parsing.Parser.ParseNumber: a double stays the text it was written with, so that `strtod` makes an infinity of a large one
  is not in the contract.
- Curricula.LoadCurriculum: reads an already parsed list of lessons; the schema checks on other fields and files are left out.
- Progress.ProgressStore.MarkStarted: times and the interview baseline are not kept, only that a lesson was started.
- The store is not loaded from or saved to a file, so records always hold every field; the lock makes each method one step.
- Interview.MissRaises: sums and halvings are those of real numbers, not rounded; the division may be rounded if it keeps order.
- Threads.Server.Tick: a step of other threads may finish any of them and let time pass; what a thread does before it finishes is in `Connections`.
- Faults.FiresOnce: the handlers form a transition system on values, not a class; the crash, bad access, hang and delay are only their outcome (ends the process, blocks the handler, goes on).
- A long loop of the source is sometimes split over several methods here, one for the loop and one for its body; ghost
  parameters carry the specification between them.
- HTTP routing, static files, subprocess validators, toolchain detection, command lines and configuration files are not modelled.
