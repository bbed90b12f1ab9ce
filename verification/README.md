# KineIRCd in Dafny

KineIRCd is an IRC daemon. This project models the parts of it that carry real state, parsing or
arithmetic, and proves what they keep over whole runs, or exactly when they keep it.

- **Wire pipeline** (`Tokens`, `Framing`, `FramingRuns`, `FramingRepair`, `MessageFormat`, `MessageCases`,
  `Irc2Protocol`, `WirePipeline`). Messages are printed as in section 2.3.1 of RFC 2812, queued,
  withdrawn in blocks of any size, framed back into lines and parsed.
- **Connection** (`ConnectionRuns`, `ConnectionLife`, `Connections`). Byte counters, write interest, the
  hand-over of an output queue, and connections that feed each other.
- **Language engine** (`LanguageText`, `LanguageMeaning`, `LanguageDirectives`, `LanguageSegments`,
  `LanguageIndex`, `LanguageHoles`, `Languages`, `LanguageService`, `LanguageFiles`, `LanguageFallback`).
  Source texts are compiled, indexed by name, ID and slot, merged, looked up and interpreted.
- **Registrar** (`Registrar`, `RegistrarSafety`, `RegistrarHandOver`, `RegistrarRecords`,
  `RegistrarDialogues`, `RegistrarProtocol`). The state machine of section 3.1 of RFC 2812: commands in any
  order until one completes a registration.
- **Registry and counters** (`Names`, `NameEquivalence`, `NameUse`, `Directory`, `DirectoryRuns`,
  `NetworkObjects`, `Registrations`). User maps keyed by folded names (section 2.2 of RFC 2812), the
  counters that have to agree with them, and many registrars racing for names.
- **Packers and scanner** (`Packing`, `UserReplies`, `IsupportLimits`, `ChannelNames`, `ServerName`,
  `ServerNameCharacters`). RPL_ISUPPORT, RPL_NAMREPLY, and host names by section 3.5 of RFC 1034.
- **Older handlers** (`AwayLock`, `UserModes`, `UserModeLetters`). The AWAY flood lock and user mode strings.

`Text` and `Alphabet` hold what all of them share: the characters, letter by letter.

Code that updates objects in place is a class whose methods are proved equal, new state and result, to
functions over values; what the daemon promises is then proved about those functions. Code that only
computes is a function. What a function decides is stated once more without naming it, in terms of the
characters typed, the parameters sent or the events of the run. Traces, logs and event lists in the run
modules record what happened; the daemon does not keep them.

Where the code departs from what it, its comments or its documentation intend, the code is modelled as
it is, with the exact condition under which it does what was meant:

- `home/kineircd/src/lib_clbp/input.cpp:49` queues the whole chunk instead of its unread tail.
  `ChunkingInvariance` and `EndToEnd` say exactly which chunks suffer; `FramingRepair` proves the
  unconditional statements for the one-expression repair.
- `home/kineircd/src/mod_irc2registrar/protocol.cpp:482-483` says it refuses an empty pong but looks only
  at the list: `PingAccounting`, `EmptyPongDefeatsTheChallenge`.
- `home/kineircd/src/mod_irc2registrar/protocol.cpp:331-352` stores network data before rejecting it, and
  the rest of the same read is still served, so a user may be handed over under a name no NICK brought in:
  `UserNameIsNickExactly` says exactly when, `RejectedNetworkNameSurvives` and `NoNickIsNeeded` show it.
- `home/kineircd/src/lib/language/interface.cpp:231-238` turns an out-of-range escape into a substitution
  mark: `CompileThenInterpret`, `OutOfRangeEscapeSwallowsText`.
- `home/kineircd/src/lib/registry.cpp:186-220` re-keys without looking at the new name:
  `UncheckedRekeyLosesUsers`. `home/kineircd/src/lib/user.cpp:230-246` lowers the counters before it knows
  that anyone is removed, and removes by name: `QuitKeepsCountsExactly`, `CountsConservedExactly`,
  `QuitRemovesExactly`, `PeakIsHighestExactly`, with `SecondQuitSpoilsCounts`, `SecondQuitPassesPeak` and
  `TurnedAwayQuitRemovesAnother` showing it.
- `home/kineircd/src/lib/language/data.cpp:317-340` uses a slot without asking whether it holds a text:
  `MultiCallOnLoadedTable` says exactly which loaded languages and tags this hits, `HoleIsReachable` shows it.
- `home/kineircd/src/mod_irc2user/protocol.cpp:255-264` does not count the token that caused a flush:
  `IsupportParameterLimit`, `OverfillingOverfills`. Lines 335-337 forget the channel name:
  `NamesLinesFitExactly`. Neither limit covers the line terminator, which section 2.3 of RFC 2812 counts:
  `TerminatorIsForgotten`, `TokenLengthsFitExactly`, `NamesLinesOnTheWire`.
- `home/kineircd/src/lib/server.cpp:62-66` does not apply the rule about hyphens and empty labels to the
  last label: `FinalLabelIsLax`, `HyphenEndIsAccepted`.
- `home/kineircd/src/lib/connection.cpp:105-129`: only a connection's own input asks for write readiness,
  and what a short write leaves over is dropped: `StallsExactlyWhenWakeUpLost`, `IdleConnectionStalls`,
  `PeerSeesEverythingExactly`, `RefusedBlockIsLost`.
- `home/kineircd/OLD/irc2user.cpp:754-762` groups changes by sign, which loses their order:
  `ReplayAgreesIffNothingRestored`.

Assumed, because AISutil is not part of the repository: `StringTokens::nextToken` returns the text up to
the next separator and consumes that one separator, `rest` is the verbatim remainder, `hasMoreTokens`
holds exactly when it is non-empty; `toUpper`, `toLower` and `trim` are the ASCII ones; `PeakCount`
remembers its peak on increment and wraps below zero; `toInt` and `toLong` are any function; the probe
text made by `baseXStr` is never empty. Characters stand for octets, in language texts for code points,
and character set conversion is the identity. Clocks, socket results, the choice of probes, whether a
nickname is in use, whether a protocol object can be made, and what a handler queues are parameters.

## Model

| member | source | states |
|---|---|---|
| `Framing.FindEol` | home/kineircd/src/lib_clbp/input.cpp:43-44 | The first CR or LF at or after a position: nothing before it is a terminator, and it is one unless the data ran out. |
| `Irc2Protocol.Input.HandleInput` | home/kineircd/src/lib_clbp/input.cpp:37-80 | The in-place loop over one read delivers exactly the lines, and leaves exactly the queue, of the framing function `Feed`. |
| `Framing.FeedLines` | home/kineircd/src/lib_clbp/input.cpp:37-80 | Within one read, whatever was queued, the non-empty lines delivered are those of reading the octets one at a time. |
| `Framing.FeedQueue` | home/kineircd/src/lib_clbp/input.cpp:47-51 | What one read leaves queued in each of the three shapes of a chunk, beside what should be left: the two differ exactly when text follows the last terminator. |
| `FramingRuns.ScanConserves` | home/kineircd/src/lib_clbp/input.cpp:37-80 | The reference reading loses and invents nothing: lines and tail are the stream without terminators, and no line is empty. |
| `FramingRuns.ChunkingInvariance` | home/kineircd/src/lib_clbp/input.cpp:37-80 | Over any run of reads, lines and tail depend only on the concatenated stream if and only if no chunk carries text after its last terminator; splits inside CR LF are harmless. |
| `FramingRuns.SameStreamSameLines` | home/kineircd/src/lib_clbp/input.cpp:37-80 | Two ways of cutting one stream at terminators or without any give the same lines and tail. |
| `FramingRuns.UnreadTailIsBufferedTwice` | home/kineircd/src/lib_clbp/input.cpp:49 | The read "LF B" queues the whole chunk again instead of "B". |
| `FramingRuns.RunKeepsRelation` | home/kineircd/src/lib_clbp/input.cpp:37-80 | Over any run the code delivers as many lines as the reference, a differing line carries a terminator, and once a chunk was mishandled lines or queue stay marked by one for good. |
| `FramingRepair.RepairedChunkingInvariance` | home/kineircd/src/lib_clbp/input.cpp:37-80 | With the unread tail buffered instead of the whole chunk, lines and tail depend on the stream alone, for every chunking. |
| `FramingRepair.RepairAgreesOnWholeLines` | home/kineircd/src/lib_clbp/input.cpp:47-51 | The repair changes nothing on the chunks the code handles properly. |
| `FramingRepair.RepairedEndToEnd` | home/kineircd/src/lib_clbp/input.cpp:37-80 | With the repair, any withdrawal sizes that drain the queue dispatch exactly the messages sent, in order, and leave nothing. |
| `Tokens.TokenOfJoin` | home/kineircd/src/lib_irc2/input.cpp:43-62 | The assumed tokeniser: a word, one separator, the verbatim rest. |
| `Tokens.TokenLengthUnique` | home/kineircd/src/lib_irc2/input.cpp:62 | The token ends at the first separator, and at no other place. |
| `Irc2Protocol.Input.ParseLine` | home/kineircd/src/lib_irc2/input.cpp:41-83 | Every line is counted; it is dispatched as the one message it parses to, or not at all when it has no command. |
| `Irc2Protocol.Input.GrabParameters` | home/kineircd/src/lib_irc2/input.cpp:59-76 | The parameter loop over the shrinking remainder collects what the parameter grammar says, the free-text last one included. |
| `Irc2Protocol.DispatchesIgnoreEmptyLines` | home/kineircd/src/lib_irc2/input.cpp:78-82 | Empty lines never reach the message handler, so the extra lines of split CR LF pairs do no harm. |
| `MessageFormat.ParamsRoundTrip` | home/kineircd/src/lib_irc2/input.cpp:59-76 | Printed parameters parse back to themselves. |
| `MessageFormat.ParserUndoesPrinter` | home/kineircd/include/kineircd/libirc2/output.h:113-337 | Printing then parsing gives back origin, command and parameters if and only if the message is well formed: space-free origin, upper-case space-free command, space-free middles without a leading colon, and no last parameter that is one word and one final space. |
| `MessageFormat.ParsedMessageIsGood` | home/kineircd/src/lib_irc2/input.cpp:41-83 | Every message the parser dispatches is one that can be printed and read back. |
| `MessageFormat.ColonCommandIsLost` | home/kineircd/src/lib_irc2/input.cpp:52-57 | Without an origin, a command with a leading colon never comes back. |
| `MessageCases.AnyCaseIsDispatched` | home/kineircd/src/lib_irc2/input.cpp:41-83 | Any space-free non-empty command in any case (not led by a colon unless an origin precedes it), with any space-free origin and any good parameters, is dispatched in upper case with that origin and those parameters. |
| `MessageCases.DispatchedExactly` | home/kineircd/src/lib_irc2/input.cpp:52-57 | A line is dispatched exactly when its command word is not empty, read off the characters of the line. |
| `MessageCases.WordsAreParameters` | home/kineircd/src/lib_irc2/input.cpp:59-76 | Words typed with single spaces between them, without any colon, are the command and its parameters. |
| `MessageCases.PrintedForm` | home/kineircd/include/kineircd/libirc2/output.h:113-337 | What printed messages look like, character by character: colon and origin, command, parameters, the last behind a colon, and CR LF as the terminator. |
| `MessageCases.TypedLinesAreHeard` | home/kineircd/src/lib_clbp/input.cpp:37-80 | A stream of such lines, in any case, is heard as the messages meant, however it is cut into reads at line ends. |
| `MessageCases.WholeStreamIsItsLines` | home/kineircd/src/lib_clbp/input.cpp:57-75 | Read at once, a stream ended by CR LF is exactly its lines, empty ones included: CR LF ends one line, not two. |
| `MessageCases.ReadTyped` | home/kineircd/src/lib_irc2/input.cpp:41-83 | The same over a live input object: one read of typed lines dispatches each in upper case and counts each once. |
| `Irc2Protocol.Output.OutputLine` | home/kineircd/include/kineircd/libclbp/output.h:79-83 | A line is queued behind what is there, with the terminator. |
| `Irc2Protocol.Output.SendRawLine` | home/kineircd/include/kineircd/libirc2/output.h:79-84 | The line is queued and the counter of sent messages goes up by one. |
| `Irc2Protocol.Output.SendMessage` | home/kineircd/include/kineircd/libirc2/output.h:113-220 | Appends exactly the printed message and counts it. |
| `Irc2Protocol.Output.SendMessageFrom` | home/kineircd/include/kineircd/libirc2/output.h:226-337 | The same with an origin in front. |
| `Irc2Protocol.Output.WithdrawOutput` | home/kineircd/src/lib_clbp/output.cpp:45-66 | The block handed out and the queue left make up the old queue; the block is as long as asked for, or all there is. |
| `Irc2Protocol.Output.Migrate` | home/kineircd/include/kineircd/libclbp/output.h:59-66 | The hand-over constructor takes the queue over unchanged and starts counting anew. |
| `WirePipeline.WithdrawConserves` | home/kineircd/src/lib_clbp/output.cpp:45-66 | For any sequence of amounts the blocks followed by what is left are the queue. |
| `WirePipeline.ScanStream` | home/kineircd/include/kineircd/libirc2/output.h:113-337 | A stream of printed messages reads back as their lines, whatever non-empty terminator of CR and LF is used. |
| `WirePipeline.TaintShows` | home/kineircd/src/lib_irc2/input.cpp:41-83 | A terminator inside a line shows in the message parsed from it, so a damaged line cannot pass for a sent one. |
| `WirePipeline.EndToEnd` | home/kineircd/src/lib_clbp/input.cpp:37-80 | Printed messages cut into any chunks are dispatched exactly as sent, in order and with no extras, if and only if no chunk carries text after its last terminator. |
| `WirePipeline.EndToEndByWithdrawal` | home/kineircd/src/lib_clbp/output.cpp:45-66 | The same for the blocks of any draining sequence of withdrawals. |
| `WirePipeline.SendAll` | home/kineircd/include/kineircd/libirc2/output.h:113-337 | Sending messages in order appends the printed stream to the queue and counts them all. |
| `WirePipeline.Relay` | home/kineircd/src/lib_clbp/output.cpp:45-66 | Feeding each withdrawn block to a receiver leaves both queues and the dispatched messages as the functions over block sequences say. |
| `WirePipeline.Session` | home/kineircd/src/lib_clbp/input.cpp:37-80 | A whole session over live objects dispatches the sent messages if and only if every block ends a line or holds none. |
| `ConnectionRuns.OutputIsConserved` | home/kineircd/src/lib/connection.cpp:71-130 | Over any run of reads, writes, hand-overs, closings and outside output, the blocks withdrawn followed by the queue are everything ever queued. |
| `ConnectionRuns.PeerSeesEverythingExactly` | home/kineircd/src/lib/connection.cpp:119-130 | The octets the socket took followed by the queue are everything queued, and `sentBytes` counts all that was withdrawn, if and only if no write was short: the remainder of a short write is lost. |
| `ConnectionRuns.RefusedBlockIsLost` | home/kineircd/src/lib/connection.cpp:119-130 | A write the socket refuses: the block has left the queue and nobody gets it. |
| `ConnectionRuns.InterestStaysJustified` | home/kineircd/src/lib/connection.cpp:105-129 | A connection never asks for write readiness with an empty queue. |
| `ConnectionRuns.StallsExactlyWhenWakeUpLost` | home/kineircd/src/lib/connection.cpp:105-129 | On a live connection the write-interest bit and the queue disagree exactly when another connection's handler queued output while it was idle and its own input has not been served since. |
| `ConnectionRuns.IdleConnectionStalls` | home/kineircd/src/lib/connection.cpp:105-129 | Output from outside on an idle connection stalls it, however often its descriptor is ready for writing. |
| `ConnectionRuns.OwnStepsKeepInterest` | home/kineircd/src/lib/connection.cpp:71-130 | If only its own steps queue output, the bit is set exactly when the queue is non-empty, over any run. |
| `ConnectionRuns.SendsDrain` | home/kineircd/src/lib/connection.cpp:119-130 | After any number of full writes exactly that many blocks are gone, and the bit is set exactly when something is left; with block size zero nothing ever leaves. |
| `ConnectionRuns.DrainsInCeilSteps` | home/kineircd/src/lib/connection.cpp:119-130 | Queue and bit are clear exactly from ceil(n / block) sends on. |
| `ConnectionLife.ReceivedIsWhatWasHeard` | home/kineircd/src/lib/connection.cpp:90-104 | Over any run received octets are counted one for one as they are read. |
| `ConnectionLife.ConnectedExactly` | home/kineircd/src/lib/connection.cpp:136-146 | A connection is connected for as long as nothing it read said goodbye. |
| `ConnectionLife.ListedExactly` | home/kineircd/src/lib/daemon.cpp:445-460 | It stays in the list until its first turn at reading that fails or comes after a goodbye. |
| `ConnectionLife.ReadQueues` | home/kineircd/src/lib/connection.cpp:88-112 | What a read queues: the protocol's output, then its successor's, behind what was there, and when write interest follows. |
| `ConnectionLife.WriteCounts` | home/kineircd/src/lib/connection.cpp:119-130 | What a write takes from the front of the queue, counts and leaves interest in. |
| `Connections.Connection.HandleInput` | home/kineircd/src/lib/connection.cpp:71-113 | Fails exactly when closed or unreadable and then changes nothing; otherwise counts the octets on connection and daemon, lets the protocol react, and sets its own bit only. |
| `Connections.Connection.React` | home/kineircd/src/mod_irc2registrar/protocol.cpp:232-255 | The protocol's output, and its successor's after a hand-over, end up behind the old queue on whichever protocol object the connection then has. |
| `Connections.Connection.SendOutput` | home/kineircd/src/lib/connection.cpp:119-130 | Withdraws one block, counts what the socket took, clears its own bit exactly when the queue is empty. |
| `Connections.Connection.Goodbye` | home/kineircd/src/lib/connection.cpp:136-146 | Only marks the connection closed. |
| `Connections.Connection.ServeReadable` | home/kineircd/src/lib/daemon.cpp:445-460 | A connection whose input fails leaves both descriptor sets and the connection list; no other connection is touched. |
| `Connections.Connection.QueueFromOutside` | home/kineircd/include/kineircd/libclbp/output.h:74-83 | Output queued by another connection's handler goes behind the queue and leaves the write-interest bit alone. |
| `Connections.Connection.ServeWritable` | home/kineircd/src/lib/daemon.cpp:463-465 | Output is sent only if the bit was set. |
| `LanguageText.RewriteData` | home/kineircd/src/lib/language/interface.cpp:198-261 | The escape loop, which edits its input in place, computes the rewriting function. |
| `LanguageText.SanitiseData` | home/kineircd/src/lib/language/interface.cpp:281-325 | Every control character becomes its picture, every other unsafe one the replacement glyph. |
| `LanguageText.Process` | home/kineircd/src/lib/language/data.cpp:119-251 | The substitution loop with its early return computes the substitution function. |
| `LanguageDirectives.ParameterIsInserted` | home/kineircd/src/lib/language/data.cpp:182-233 | The forty directives p0 to Q9 insert parameter 0 to 39 of the list given, or the replacement glyph when there is none, before any text. |
| `LanguageDirectives.ParameterWithoutDigit` | home/kineircd/src/lib/language/data.cpp:187-233 | A parameter letter before anything but a digit shows the glyph and swallows that character. |
| `LanguageDirectives.LetterIsReplaced` | home/kineircd/src/lib/language/data.cpp:149-237 | The six named directives, letter by letter, with the object glyph for an unnamed network; every other letter shows the character glyph, and a doubled percent sign is one. |
| `LanguageDirectives.LastPercentVanishes` | home/kineircd/src/lib/language/data.cpp:142-146 | A percent sign at the end of a text shows nothing. |
| `LanguageDirectives.EscapesMean` | home/kineircd/src/lib/language/interface.cpp:240-255 | What each escape letter stands for; any other letter after a backslash is dropped. |
| `LanguageDirectives.OctalDigitsMean` | home/kineircd/src/lib/language/interface.cpp:218-238 | Three octal digits stand for the character of that code, or NUL outside 1 to 255. |
| `LanguageDirectives.OctalNumberStops` | home/kineircd/src/lib/language/interface.cpp:224-238 | With an 8 or 9 among them the number stops before it. |
| `LanguageDirectives.UnsafeCharactersAreShown` | home/kineircd/src/lib/language/interface.cpp:281-325 | The seventeen characters replaced, each with what it becomes, and that no other is. |
| `LanguageMeaning.CompileEncodesUnits` | home/kineircd/src/lib/language/interface.cpp:198-325 | Compiled text is the sequence of source units with the percent marks written in band as NUL. |
| `LanguageMeaning.CompileThenInterpret` | home/kineircd/src/lib/language/data.cpp:119-251 | For every source text, compiling then interpreting gives its direct left-to-right meaning if and only if no literal NUL occurs in it (in an environment free of NUL). |
| `LanguageMeaning.MeaningIsPreserved` | home/kineircd/src/lib/language/data.cpp:119-251 | Without a literal NUL the meaning is preserved in every environment. |
| `LanguageMeaning.OutOfRangeEscapeSwallowsText` | home/kineircd/src/lib/language/interface.cpp:231-238 | The escape backslash 400, meant to be replaced, becomes a substitution mark and swallows the next character. |
| `LanguageMeaning.PlainSourcesExpand` | home/kineircd/src/lib/language/interface.cpp:198-261 | For every source without backslash and NUL the pipeline equals direct expansion of the percent directives, read character by character. |
| `LanguageMeaning.EscapedTextIsUnchanged` | home/kineircd/src/lib/language/interface.cpp:198-261 | Doubling every percent sign and backslash makes the pipeline the identity exactly on texts of safe characters other than NUL. |
| `LanguageMeaning.ShortcutIsSound` | home/kineircd/src/lib/language/data.cpp:129-133 | The early return agrees with the full loop exactly on texts with no newline marker. |
| `LanguageMeaning.CompiledTextHasNoNewLine` | home/kineircd/src/lib/language/interface.cpp:318-324 | Loaded text never holds a newline marker. |
| `LanguageSegments.GetMultiCall` | home/kineircd/src/lib/language/data.cpp:294-358 | No slot for the ID is refused; a slot without a text is dereferenced all the same; otherwise the call loop hands out the processed segments in order until the call-out refuses. |
| `LanguageHoles.LoadAllKeepsTight` | home/kineircd/src/lib/language/interface.cpp:383-389 | After any loads every language's vector is empty or ends in a text. |
| `LanguageHoles.HolesExactly` | home/kineircd/src/lib/language/interface.cpp:353-422 | After any loads a stored language has a slot without a text for a tag if and only if it lacks the tag and has a text for a tag numbered later. |
| `LanguageHoles.MultiCallOnLoadedTable` | home/kineircd/src/lib/language/data.cpp:294-358 | So that is exactly when the lookup with a call-out dereferences null; it refuses the other missing tags, and calls out once for a tag the language has. |
| `LanguageHoles.SafeLanguagesExactly` | home/kineircd/src/lib/language/data.cpp:305-340 | A language is safe for every ID if and only if it skips no tag before one it has. |
| `LanguageHoles.HoleIsReachable` | home/kineircd/src/lib/language/data.cpp:317-340 | Two loads leave such a slot: a file with A and B, then a French file with B alone. |
| `LanguageSegments.SegmentsRestoreText` | home/kineircd/src/lib/language/data.cpp:294-358 | Joining the segments with the newline marker restores any present text. |
| `LanguageSegments.SegmentsAreMarkerFree` | home/kineircd/src/lib/language/data.cpp:294-358 | No segment holds a marker. |
| `LanguageSegments.CallsArePrefix` | home/kineircd/src/lib/language/data.cpp:294-358 | One call per segment, every call but the last answered with yes, all segments unless refused. |
| `LanguageSegments.LoadedTextIsOneSegment` | home/kineircd/src/lib/language/data.cpp:294-358 | Since loading replaces newline markers, a loaded text is always handed out in one call. |
| `Languages.ReadLineOf` | home/kineircd/src/lib/language/interface.cpp:181-325 | One line: comments and blanks skipped, tag and data split at the first equals sign, trimmed, folded to upper case, compiled. |
| `Languages.Languages.ReadEntries` | home/kineircd/src/lib/language/interface.cpp:353-394 | The line loop fills the new language's vector and the shared dictionary as the loading function says. |
| `Languages.Languages.LoadFile` | home/kineircd/src/lib/language/interface.cpp:113-450 | Loading changes dictionary, vectors, default and registered maps exactly as one load of the index model, keeps every language object in place, and keeps the index valid. |
| `Languages.LanguageData.MergeWith` | home/kineircd/src/lib/language/data.cpp:66-113 | Slots present in the new data override, all others stay, the vector grows as needed. |
| `Languages.LanguageData.Get` | home/kineircd/src/lib/language/data.cpp:257-288 | The processed text of a present slot, else nothing. |
| `Languages.Languages.FindByCode` | home/kineircd/src/lib/language/interface.cpp:563-585 | The language stored under the lower-case code; the default language for `i-default` if no such language is stored. |
| `Languages.Languages.Get` | home/kineircd/src/lib/language/interface.cpp:591-630 | The language's own text, else the default language's, else the replacement glyph. |
| `LanguageFallback.OwnTextAnswers` | home/kineircd/src/lib/language/interface.cpp:603-609 | After any loads, a language that has the tag answers with the meaning of its own text. |
| `LanguageFallback.DefaultAnswers` | home/kineircd/src/lib/language/interface.cpp:611-625 | A language that lacks the tag leaves the answer to the default language. |
| `LanguageFallback.GlyphAnswers` | home/kineircd/src/lib/language/interface.cpp:628-629 | When both lack it, or nothing is stored under the code, the answer is the object glyph. |
| `LanguageFallback.DefaultCodeAnswers` | home/kineircd/src/lib/language/interface.cpp:578-581 | The code i-default asks for the default language, unless a language is stored under it. |
| `LanguageFallback.CaseDoesNotMatter` | home/kineircd/src/lib/language/interface.cpp:456-480 | Neither the case of the code nor that of the tag matters to the answer. |
| `LanguageFallback.LoadAndFallBack` | home/kineircd/src/lib/language/interface.cpp:591-630 | The fall-back over live objects: load one more file, ask for what its language lacks, get the default language's text. |
| `LanguageFallback.AskInVain` | home/kineircd/src/lib/language/interface.cpp:591-630 | Live objects answer the glyph for what no loaded language has. |
| `LanguageFallback.CodeIsFirstWord` | home/kineircd/src/lib/language/interface.cpp:338-340 | A language code is the first word of its line, in lower case. |
| `LanguageFallback.LastCodeNames` | home/kineircd/src/lib/language/interface.cpp:338-340 | The last language code line of a file names the language; no other line does. |
| `LanguageFallback.NewLanguageIsStored` | home/kineircd/src/lib/language/interface.cpp:396-429 | A new language is stored under its own code with exactly its texts, and is the default exactly when it is the first or asked to be. |
| `LanguageFallback.ReloadedLanguageIsMerged` | home/kineircd/src/lib/language/interface.cpp:407-429 | A language loaded again keeps the texts the new file lacks and takes the others from it; no other language changes. |
| `LanguageFallback.DefaultFileAddsToDefault` | home/kineircd/src/lib/language/interface.cpp:578-581 | A file with the code i-default adds to whatever the default language is, or becomes it. |
| `LanguageFallback.OtherLines` | home/kineircd/src/lib/language/interface.cpp:181-193 | Blank lines, comments and control lines carry no text; only .LANGCODE, in any case, names the language. |
| `Languages.Languages.ProcessMaps` | home/kineircd/src/lib/language/interface.cpp:550-557 | Every registered map holds the current ID of each of its names. |
| `Languages.Languages.RegisterMap` | home/kineircd/src/lib/language/interface.cpp:486-522 | A registered map joins the set and is filled in at once; the index stays as it was. |
| `Languages.Languages.DeregisterMap` | home/kineircd/src/lib/language/interface.cpp:528-541 | Removes that map only. |
| `LanguageIndex.LaterTagsAreUnset` | home/kineircd/src/lib/language/interface.cpp:353-386 | Tags numbered later are unset in vectors built earlier. |
| `LanguageIndex.EnterAllKeepsTexts` | home/kineircd/src/lib/language/interface.cpp:353-389 | A file's vector and dictionary hold exactly the plain map of its texts, later lines overriding earlier ones. |
| `LanguageIndex.MergeKeepsTexts` | home/kineircd/src/lib/language/data.cpp:66-113 | Merging vectors is overriding map union. |
| `LanguageIndex.LoadRefines` | home/kineircd/src/lib/language/interface.cpp:396-422 | One load refines one load of the plain nested map, merging and default handling included. |
| `LanguageIndex.LoadAllRefines` | home/kineircd/src/lib/language/interface.cpp:113-450 | The same over any sequence of loads, from any related state. |
| `LanguageIndex.IndexRefinesPlainMap` | home/kineircd/src/lib/language/interface.cpp:456-480 | After any loads, name to ID to slot returns what the plain map (language, tag) to text gives when each load overrides the last. |
| `LanguageIndex.TagIDsAreStable` | home/kineircd/src/lib/language/interface.cpp:354-381 | In every reachable state tag IDs are an injective, gap-free numbering from 1, and no later load changes an assigned ID. |
| `LanguageService.LastLoadDecides` | home/kineircd/src/lib/language/interface.cpp:396-422 | The last load of a language decides the texts it mentions. |
| `LanguageService.LoadedTextIsAnswered` | home/kineircd/src/lib/language/interface.cpp:591-630 | After any loads, a file whose entry for a tag is a compiled source text is loaded: asking for the tag answers that source's direct meaning. |
| `LanguageFiles.TagLineIsRead` | home/kineircd/src/lib/language/interface.cpp:181-193 | A line with tag and source around the first equals sign enters the compiled source under the upper-case tag, blanks around both dropped. |
| `LanguageFiles.LastLineDecides` | home/kineircd/src/lib/language/interface.cpp:353-389 | The last line of a file that mentions a tag decides its text. |
| `LanguageFiles.LoadedLineIsAnswered` | home/kineircd/src/lib/language/interface.cpp:113-450 | From file lines to answer: after any loads, a tag's last line in the file decides, and asking for the tag answers the direct meaning of the source on that line. |
| `LanguageFiles.LoadAndAsk` | home/kineircd/src/lib/language/interface.cpp:591-630 | The same over live objects: load, then ask. |
| `RegistrarProtocol.Protocol.ParseNICK` | home/kineircd/src/mod_irc2registrar/protocol.cpp:371-435 | Only a valid unused name is accepted; the first one with pongs owed sends the first ping. The whole new state equals the step function's. |
| `RegistrarProtocol.Protocol.ParsePASS` | home/kineircd/src/mod_irc2registrar/protocol.cpp:441-474 | A password is taken once. The whole new state equals the step function's. |
| `RegistrarProtocol.Protocol.ParsePONG` | home/kineircd/src/mod_irc2registrar/protocol.cpp:480-513 | A matching reply lowers the pongs owed and sends the next ping while any remain; anything else closes. The whole new state equals the step function's. |
| `RegistrarProtocol.Protocol.ParseSERVER` | home/kineircd/src/mod_irc2registrar/protocol.cpp:534-615 | Server registration, the host name stored before the hop count is checked. The whole new state equals the step function's. |
| `RegistrarProtocol.Protocol.ParseSERVICE` | home/kineircd/src/mod_irc2registrar/protocol.cpp:621-683 | Service registration. The whole new state equals the step function's. |
| `RegistrarProtocol.Protocol.ParseUSER` | home/kineircd/src/mod_irc2registrar/protocol.cpp:689-737 | User registration. The whole new state equals the step function's. |
| `RegistrarProtocol.Protocol.ParseIIRCN` | home/kineircd/src/mod_irc2registrar/protocol.cpp:293-365 | Network registration, names and stamp stored before the stamp is checked. The whole new state equals the step function's. |
| `RegistrarProtocol.Protocol.ParseMessage` | home/kineircd/src/mod_irc2registrar/protocol.cpp:88-259 | Dispatch, the completion test of the registration type, protocol lookup and hand-over: one step of the state machine. The whole new state equals the step function's. |
| `RegistrarSafety.PongsLeftNeverWraps` | home/kineircd/src/mod_irc2registrar/protocol.cpp:480-513 | For any probe count and any run, pongs owed are the probes less the pongs accepted. |
| `RegistrarSafety.PingAccounting` | home/kineircd/src/mod_irc2registrar/protocol.cpp:421-434 | No ping before the first accepted NICK and one outstanding ping while pongs are owed, at the end of a run, if and only if no empty PONG arrived while no ping had been sent. |
| `RegistrarHandOver.EmptyPongDefeatsTheChallenge` | home/kineircd/src/mod_irc2registrar/protocol.cpp:482-504 | An empty PONG, then NICK and USER: handed over with no ping ever sent. |
| `RegistrarSafety.KindChosenOnce` | home/kineircd/src/mod_irc2registrar/protocol.cpp:88-259 | The registration type leaves NONE at most once, only to a type the listener allows, and never changes again. |
| `RegistrarSafety.NickAcceptedOnlyByNick` | home/kineircd/src/mod_irc2registrar/protocol.cpp:371-435 | A nickname is accepted only by a NICK message carrying it, valid and not in use. |
| `RegistrarSafety.RunKeepsName` | home/kineircd/src/mod_irc2registrar/protocol.cpp:371-435 | While a connection is open, the name it will be handed over with is the last nickname accepted, except on a network link. |
| `RegistrarSafety.RunKeepsPassword` | home/kineircd/src/mod_irc2registrar/protocol.cpp:441-474 | At most one non-empty password is ever accepted, and it is the one held. |
| `RegistrarSafety.RunHandsOverComplete` | home/kineircd/src/mod_irc2registrar/protocol.cpp:110-225 | Over any run a hand-over happens only with every field its type needs, to a protocol that exists. |
| `RegistrarHandOver.UserHandOver` | home/kineircd/src/mod_irc2registrar/protocol.cpp:116-140 | Users are handed over only where allowed, after exactly one accepted USER and every pong; under a name that an accepted NICK brought in, valid and unused at that moment, if and only if no rejected network link left its name behind or that name was brought in by NICK as well; with no free pong, after as many pings as probes. |
| `RegistrarHandOver.UserNameIsNickExactly` | home/kineircd/src/mod_irc2registrar/protocol.cpp:329-352 | The name clause alone, read off the arrivals: the last IIRCN rejected for its stamp, unless a later NICK was accepted, decides. |
| `RegistrarHandOver.TraceShowsNicks` | home/kineircd/src/mod_irc2registrar/protocol.cpp:371-435 | The names recorded as accepted are exactly those the accepted NICK messages of the run carried. |
| `RegistrarHandOver.NoNickIsNeeded` | home/kineircd/src/mod_irc2registrar/protocol.cpp:329-352 | An empty PONG, a rejected IIRCN and USER: handed over with no NICK accepted at all. |
| `RegistrarHandOver.IircnHandOver` | home/kineircd/src/mod_irc2registrar/protocol.cpp:293-365 | Networks are handed over only where allowed, with the one accepted password and a positive link stamp. |
| `RegistrarHandOver.ServerAndServiceHandOver` | home/kineircd/src/mod_irc2registrar/protocol.cpp:110-225 | Servers need the accepted password and a host name; services are never handed over. |
| `RegistrarHandOver.RejectedNetworkNameSurvives` | home/kineircd/src/mod_irc2registrar/protocol.cpp:329-352 | A rejected IIRCN has already replaced the name, and messages of the same read can still register a user under it. |
| `RegistrarRecords.RecordComesFromOneMessage` | home/kineircd/src/mod_irc2registrar/protocol.cpp:88-259 | Over any run, whatever a connection registers as was chosen by exactly one accepted message, and its parameters are the record. |
| `RegistrarRecords.UserRecord` | home/kineircd/src/mod_irc2registrar/protocol.cpp:689-737 | For every user hand-over exactly one USER was accepted; user name, modes and host name are its parameters 0 to 2 and the description the first maxRealNameLength characters of parameter 3; while the connection is open the record holds nothing else but name and password. |
| `RegistrarRecords.ServerRecord` | home/kineircd/src/mod_irc2registrar/protocol.cpp:534-615 | The same for SERVER, in both its shapes: host name, stamps, protocol and description are its parameters. |
| `RegistrarRecords.LinkRecord` | home/kineircd/src/mod_irc2registrar/protocol.cpp:293-365 | The same for IIRCN; the name is its parameter 0 or that of the last NICK accepted after it. |
| `RegistrarRecords.PasswordIsFirstPass` | home/kineircd/src/mod_irc2registrar/protocol.cpp:441-474 | The password held is the first one any PASS carried; none is held exactly when none was carried before the hand-over. |
| `RegistrarRecords.ChosenRecordStays` | home/kineircd/src/mod_irc2registrar/protocol.cpp:297-311 | Once the type is chosen, only name and password can change. |
| `RegistrarDialogues.CommandTable` | home/kineircd/src/mod_irc2registrar/protocol.cpp:52-65 | The nine commands, letter by letter; nothing else is a command. |
| `RegistrarDialogues.HandOverExactly` | home/kineircd/src/mod_irc2registrar/protocol.cpp:110-259 | A message hands over exactly when what its type needs is there, a protocol of the type serves it (IRC-2 for users who name none, none for services) and its object is created; what is complete and not handed over closes. |
| `RegistrarDialogues.ClosesExactly` | home/kineircd/src/mod_irc2registrar/protocol.cpp:293-737 | Which messages close an open connection by themselves: a second password, a wrong or unasked pong, QUIT, a second or forbidden registration, a wrong hop count, network field or stamp. |
| `RegistrarDialogues.QuitAndTheRest` | home/kineircd/src/mod_irc2registrar/protocol.cpp:520-528 | QUIT closes and changes nothing else; CAPAB and unknown commands change nothing. |
| `RegistrarDialogues.UserRegistersExactly` | home/kineircd/src/mod_irc2registrar/protocol.cpp:88-259 | NICK, a reply to each of any number of pings, then USER: handed over with exactly this record if and only if users are allowed, nothing needed is empty, the protocol is there and its object is created. |
| `RegistrarDialogues.NetworkRegistersExactly` | home/kineircd/src/mod_irc2registrar/protocol.cpp:88-259 | PASS and IIRCN: handed over with exactly this record if and only if each stated condition on parameters, permission and protocol holds. |
| `RegistrarDialogues.ServerRegistersExactly` | home/kineircd/src/mod_irc2registrar/protocol.cpp:88-259 | PASS and SERVER likewise; the short form is never handed over. |
| `RegistrarDialogues.Register` | home/kineircd/src/mod_irc2registrar/protocol.cpp:88-259 | The live protocol object read over messages until one hands over: a run of the state machine, and a user's record is that of a USER line read. |
| `Names.FoldIsIdempotent` | home/kineircd/src/lib/name.cpp:42-71 | Folded names fold to themselves, so keys are their own folds. |
| `NameEquivalence.FoldsAgreeExactly` | home/kineircd/src/lib/name.cpp:42-71 | Two names fold alike exactly when they have the same length and each pair of characters is equal or the two cases of one of thirty letters, the four bracket pairs among them. |
| `NameEquivalence.SameNamesFindAndExclude` | home/kineircd/src/lib/registry.cpp:94-108 | A registered user is found under exactly the names that are the same letter by letter, and no other user can be added under one. |
| `NameEquivalence.NicknamesExactly` | home/kineircd/src/lib/client.cpp:42-88 | Which nicknames are valid, character by character, and which error comes first. |
| `NameUse.AddedUserIsFound` | home/kineircd/src/lib/server.cpp:115-134 | A user is added exactly on its own server with a valid name that no other registered user has in any spelling, and is then found under every spelling of it; refused, nothing changes. |
| `NameUse.RenamedUserIsFound` | home/kineircd/src/lib/user.cpp:50-83 | A registered user's change to a name is done exactly when the name is valid, no other user's, and a service's only in another spelling of the user's own; afterwards the user is found under the new name only. |
| `NameUse.QuitUserIsGone` | home/kineircd/src/lib/user.cpp:230-246 | A registered user who quits is found under no name; everyone else is found as before. |
| `NameUse.AddThenFind` | home/kineircd/src/lib/registry.cpp:94-152 | Over live objects: a user just added is found under any spelling, and one kept out was kept out by a user of the same name. |
| `NameUse.NickAsksDirectory` | home/kineircd/src/mod_irc2registrar/protocol.cpp:412-418 | NICK is accepted exactly when the name is valid and no registered user has it in any spelling. |
| `NameUse.LaterSameNameIsTurnedAway` | home/kineircd/src/lib/registry.cpp:114-152 | Of two hand-overs under one valid name, in whatever spelling, the later is not registered. |
| `NameUse.NamesStayApart` | home/kineircd/src/lib/registry.cpp:114-152 | After any run of registrations no two registered users have the same name in any spelling. |
| `Directory.FindMeansRegistered` | home/kineircd/src/lib/registry.cpp:94-108 | Find returns a user exactly when that user is registered under an equivalent name, and no two registered users have equivalent names. |
| `Directory.AddKeepsAgreement` | home/kineircd/src/lib/registry.cpp:114-152 | Adding keeps every key the fold of its user's name, even when several registrants passed the NICK check with one name. |
| `Directory.QuitKeepsAgreement` | home/kineircd/src/lib/registry.cpp:158-180 | So does quitting. |
| `Directory.RenameKeepsAgreement` | home/kineircd/src/lib/user.cpp:50-83 | So does the drafted nickname change: checks, re-keying, then the assignment. |
| `Directory.AddKeepsCounts` | home/kineircd/src/lib/server.cpp:115-134 | Adding a user keeps every counter equal to the number of registered users. |
| `Directory.QuitKeepsCountsExactly` | home/kineircd/src/lib/user.cpp:230-246 | Quitting keeps the counters if and only if someone is registered under the user's name, on the user's server. |
| `Directory.QuitRemovesExactly` | home/kineircd/src/lib/user.cpp:236-245 | After quitting a user is not registered, and everyone else is found as before if and only if nobody else was registered under the name: removal is by name. |
| `Directory.ShadowedQuitLosesAnother` | home/kineircd/src/lib/user.cpp:236-242 | If somebody else was, on the same server, that user is gone and every counter still right. |
| `Directory.SecondQuitSpoilsCounts` | home/kineircd/src/lib/user.cpp:230-246 | Two QUIT messages in one read lower both counters twice; the only user's departure leaves the counter wrapped. |
| `DirectoryRuns.TurnedAwayQuitRemovesAnother` | home/kineircd/src/mod_irc2user/protocol.cpp:72-76 | Two registrants with one name: the second registration fails silently, and that user's quit removes the first. |
| `Directory.UncheckedRekeyLosesUsers` | home/kineircd/src/lib/registry.cpp:186-220 | Re-keying onto a taken name drops the renamed user from the registry: the new key is not checked there. |
| `Directory.RenameKeepsCountsExactly` | home/kineircd/src/lib/user.cpp:50-83 | The drafted rename keeps the counters exactly when it does not move an entry of a user on another server. |
| `Directory.RenameKeepsUsers` | home/kineircd/src/lib/user.cpp:50-83 | With the draft's own check, a rename loses no registered user. |
| `DirectoryRuns.IndexAgreesAfterAnyRun` | home/kineircd/src/lib/registry.cpp:94-220 | After any run of adds, quits and renames: keys are folds of current names, no two registered users are fold-equal, and find means registered. |
| `DirectoryRuns.CountsConservedExactly` | home/kineircd/src/lib/server.cpp:115-134 | In every state of a run each server's counter is its registered users and the network's is the size of the map, if and only if no quit or rename of the run touches another server's entry or none. |
| `DirectoryRuns.CountersAddUp` | home/kineircd/src/lib/server.cpp:123-130 | The servers' counters add up to the network's. |
| `DirectoryRuns.PeakIsHistoricalMaximum` | home/kineircd/src/lib/server.cpp:123-130 | Over any run that never lowers the counter at zero, its peak ends as the larger of the peak at the start and the highest count shown. |
| `DirectoryRuns.PeakIsHighestExactly` | home/kineircd/src/lib/server.cpp:123-130 | For counts below the wrapped value, the peak is the highest count so far in every state of a run if and only if the run never lowers the counter at zero. |
| `DirectoryRuns.SecondQuitPassesPeak` | home/kineircd/src/lib/user.cpp:230-246 | Two QUIT messages of the only user leave the network's count at 4294967295, above its peak. |
| `DirectoryRuns.ConservingNeverLowersZero` | home/kineircd/src/lib/user.cpp:230-246 | Runs that keep the counters right never lower one at zero. |
| `Registrations.FirstHandedOverIsRegistered` | home/kineircd/src/mod_irc2user/protocol.cpp:72-76 | Many registrars over one directory: after any run of messages index and counters are right, and a handed-over user is registered if and only if the name is valid and neither a user there before nor an earlier valid hand-over claimed it. |
| `Registrations.HandedOverUserIsRegisteredExactly` | home/kineircd/src/mod_irc2registrar/protocol.cpp:232-248 | From one connection's side: handed over with no name left by a rejected link, a user is registered if and only if first with the name. |
| `Registrations.RegistrarsRun` | home/kineircd/src/mod_irc2registrar/protocol.cpp:88-259 | Each connection's registrar has run on exactly the messages it saw, NICK asking the directory as it stood. |
| `Registrations.LaterEquivalentIsTurnedAway` | home/kineircd/src/mod_irc2user/protocol.cpp:72-76 | Of two hand-overs under equivalent valid names the later is not registered. |
| `Registrations.NickReservesNothing` | home/kineircd/src/mod_irc2registrar/protocol.cpp:405-420 | An accepted NICK does not keep another connection's NICK with an equivalent name from being accepted. |
| `NetworkObjects.Network.FindUser` | home/kineircd/src/lib/registry.cpp:94-108 | The object the directory finds, or none. |
| `NetworkObjects.Network.AddEntity` | home/kineircd/src/lib/registry.cpp:114-152 | A valid, free name is entered under its fold; otherwise nothing changes. |
| `NetworkObjects.Network.AddUserTo` | home/kineircd/src/lib/server.cpp:115-134 | Objects, map and counters move exactly as the directory's step. |
| `NetworkObjects.Network.QuitUser` | home/kineircd/src/lib/user.cpp:230-246 | The same for quitting, counters lowered first. |
| `NetworkObjects.Network.ChangeUserNickname` | home/kineircd/src/lib/registry.cpp:186-220 | The same for re-keying. |
| `NetworkObjects.Network.ChangeNickname` | home/kineircd/src/lib/user.cpp:50-83 | The same for the drafted nickname change. |
| `ServerName.CheckValidity` | home/kineircd/src/lib/server.cpp:43-109 | The one-pass scan with its two counters computes the scanning function. |
| `ServerName.ScanJudgesLabels` | home/kineircd/src/lib/server.cpp:54-100 | From any point of the scan the verdict is that of the labels: first faulty label, and which fault. |
| `ServerName.ScanIsGrammar` | home/kineircd/src/lib/server.cpp:43-109 | The scan accepts exactly the names of the label grammar and otherwise reports the first faulty label's error. |
| `ServerNameCharacters.ServerNamesExactly` | home/kineircd/src/lib/server.cpp:43-109 | Which names the scan accepts, character by character: at most 255, a dot among them, letters first in a label, letters, digits and hyphens after, no hyphen or dot before a dot, no 64 in a row without one. |
| `ServerNameCharacters.ServerErrorsExactly` | home/kineircd/src/lib/server.cpp:43-109 | The first character out of place decides which error a refused name gets; one with none is refused only for having no dot. |
| `ServerName.FinalLabelIsLax` | home/kineircd/src/lib/server.cpp:62-66 | Among accepted names, the last label obeys the rule for the others exactly when the name ends in neither a dot nor a hyphen. |
| `ServerName.HyphenEndIsAccepted` | home/kineircd/src/lib/server.cpp:62-66 | The name a.b- is accepted although its last label ends in a hyphen. |
| `Packing.GroupsConserveItems` | home/kineircd/src/mod_irc2user/protocol.cpp:250-281 | The payloads are joined groups, and the groups are the items in order: none lost, none repeated. |
| `Packing.PayloadsFit` | home/kineircd/src/mod_irc2user/protocol.cpp:254-273 | If every item fits alone, a payload of one item keeps the limit and a longer one exceeds it by at most the one space. |
| `Packing.PayloadLengths` | home/kineircd/src/mod_irc2user/protocol.cpp:254-273 | For any items, no payload is longer than the limit and one space if and only if no item is. |
| `Packing.EmptyPayloadExactly` | home/kineircd/src/mod_irc2user/protocol.cpp:254-265 | An empty payload is sent exactly when the very first item does not fit. |
| `Packing.GroupSizes` | home/kineircd/src/mod_irc2user/protocol.cpp:255 | The first payload holds at most the counted limit of items, later ones one more. |
| `Packing.FlushesAreNeeded` | home/kineircd/src/mod_irc2user/protocol.cpp:251-277 | Nothing is sent early: no payload could have taken the first item of the next within its limits. |
| `Packing.JoinedPrintsAsItems` | home/kineircd/include/kineircd/libirc2/output.h:448-459 | A payload printed as one parameter is what its items would print as separate parameters. |
| `UserReplies.SendISUPPORT` | home/kineircd/src/mod_irc2user/protocol.cpp:234-282 | Buffer, running count and flushes append exactly the packed lines to the queue. |
| `UserReplies.IsupportLinesFit` | home/kineircd/src/mod_irc2user/protocol.cpp:246-248 | When the limit does not underflow, every line before its terminator is within `maxMessageSize` if and only if no token is more than one octet over the limit. |
| `UserReplies.ClientReadsIsupport` | home/kineircd/src/mod_irc2user/protocol.cpp:250-281 | A client parsing the lines gets nickname, tokens and suffix, the tokens being the whole list in order, at most 13 in the first line and 14 in later ones. |
| `IsupportLimits.IsupportParameterLimit` | home/kineircd/src/mod_irc2user/protocol.cpp:250-281 | Every list of n fitting tokens keeps to 15 parameters a line if and only if n is at most 14, or lines are too short for more than 13 tokens anyway. |
| `IsupportLimits.OverfillingOverfills` | home/kineircd/src/mod_irc2user/protocol.cpp:254-265 | A list of 15 that does not: a first token that leaves no room, then 14 of one octet; the flush forgets to count the token that caused it. |
| `IsupportLimits.ShortTokensNeedMore` | home/kineircd/src/mod_irc2user/protocol.cpp:254-265 | When length never matters, 27 tokens are needed to exceed the limit. |
| `IsupportLimits.TerminatedLinesFitExactly` | home/kineircd/src/mod_irc2user/protocol.cpp:245-248 | With CR LF counted, a list's lines are within `maxMessageSize` if and only if every payload leaves one octet of its limit free. |
| `IsupportLimits.TokenLengthsFitExactly` | home/kineircd/src/mod_irc2user/protocol.cpp:245-248 | With CR LF counted, every list of tokens of at most L octets stays within `maxMessageSize` if and only if L is zero or 14 such tokens, each with a space, fit into the limit. |
| `IsupportLimits.TerminatorIsForgotten` | home/kineircd/src/mod_irc2user/protocol.cpp:245-248 | With CR LF counted, the limit holds for all lists of fitting tokens only if no token fits. |
| `ChannelNames.SendNames` | home/kineircd/src/mod_irc2user/protocol.cpp:328-387 | The member loop with its visibility test appends exactly the packed replies of the visible nicknames. |
| `ChannelNames.VisibleExactly` | home/kineircd/src/mod_irc2user/protocol.cpp:348-352 | Each member is listed in its place or left out: operators, staff and those on the channel see everyone, others the members not hidden, and none of a hidden channel. |
| `ChannelNames.ClientReadsNames` | home/kineircd/src/mod_irc2user/protocol.cpp:331-387 | A client reads back server, numeric 353, its nickname, the sign of a secret, private or public channel, the channel, and runs of names that are the visible ones in order. |
| `ChannelNames.RepliesCarryVisibleNames` | home/kineircd/src/mod_irc2user/protocol.cpp:342-386 | Replies join to the visible nicknames in order; an empty reply is sent exactly when the first nickname does not fit; fitting nicknames keep every reply within the limit less two, or less one when it holds two names. |
| `ChannelNames.NamesLinesFitExactly` | home/kineircd/src/mod_irc2user/protocol.cpp:335-337 | For every message size, underflow included: replies of fitting nicknames are within it for every member list if and only if no nickname fits or the longest reply does with everything around it. |
| `ChannelNames.NamesLinesOnTheWire` | home/kineircd/src/mod_irc2user/protocol.cpp:334-337 | So without underflow channel name and terminator have five octets between them, six if the limit is three: the limit forgets both. |
| `ChannelNames.NamesLineLength` | home/kineircd/include/kineircd/libirc2/output.h:448-471 | The exact length of a NAMES reply line. |
| `AwayLock.Handler.ParseAWAY` | home/kineircd/OLD/irc2user.cpp:1616-1665 | Time stamp, grace bit, away message and answer are those of one lock step. |
| `AwayLock.RateBound` | home/kineircd/OLD/irc2user.cpp:1616-1665 | With a clock that never runs back, any two accepted settings i <= j are at least floor((j - i) / 2) * F seconds apart, whatever returns and rejections come between. |
| `AwayLock.AtMostTwoPerWindow` | home/kineircd/OLD/irc2user.cpp:1616-1665 | No half-open window of F seconds holds three accepted settings. |
| `AwayLock.RateBoundIsTight` | home/kineircd/OLD/irc2user.cpp:1623-1650 | A schedule of any length meets the bound with equality. |
| `AwayLock.LockRefinesLog` | home/kineircd/OLD/irc2user.cpp:1623-1650 | The stamp and the bit always show the last entry of the full log of accepted times and whether it was hurried. |
| `AwayLock.LockDecidesLikeLog` | home/kineircd/OLD/irc2user.cpp:1625-1641 | A setting is refused exactly when a policy over the whole log would refuse it: the second hurried one in a row. |
| `AwayLock.AwayTextIsLastTaken` | home/kineircd/OLD/irc2user.cpp:1616-1665 | After any commands the away text is that of the last one not refused, none if it was empty. |
| `AwayLock.AnswersExactly` | home/kineircd/OLD/irc2user.cpp:1616-1665 | When a message is taken and when a user comes back, in terms of stamp, grace and clock; coming back spends neither. |
| `UserModes.User.TogglePlain` | home/kineircd/OLD/user.cpp.was:243-257 | A plain flag ends up as asked, and the answer is yes exactly when it changed. |
| `UserModes.User.ToggleHELPER` | home/kineircd/OLD/user.cpp.was:277-316 | Helper status can only be given up; yes exactly when it was. |
| `UserModes.User.ToggleOPER` | home/kineircd/OLD/user.cpp.was:387-437 | Both operator flags go at once, never come; the letter shown becomes that of the status lost. |
| `UserModes.User.ToggleSERVNOTICES` | home/kineircd/OLD/user.cpp.was:516-549 | Server notices come on for helpers and operators only; turning them off is always reported. |
| `UserModes.User.ToggleMode` | home/kineircd/OLD/irc2user.cpp:684-701 | The togglers behind the mode table together do what the flag function says, letter by letter. |
| `UserModes.TogglersReportChanges` | home/kineircd/OLD/user.cpp.was:243-597 | A toggler changes its own flags only, as asked; a letter reported on is on and one reported off is off; except for server notices exactly the changes are reported. |
| `UserModes.ProcessUserModes` | home/kineircd/OLD/irc2user.cpp:659-774 | The scan of the mode string leaves the flags, and returns the grouped string with its parameters, that performing the requests in order gives. |
| `UserModeLetters.RequestsExactly` | home/kineircd/OLD/irc2user.cpp:666-694 | Each letter asks for what the nearest sign before it says, plus if there is none; exactly the first limit letters are looked at, signs not counted. |
| `UserModeLetters.LettersExactly` | home/kineircd/OLD/user.cpp.was:51-103 | Every letter's effect and report, on and off: six free flags, helper and operator given up only, server notices for the privileged, and nothing for any other letter. |
| `UserModeLetters.TokensExactly` | home/kineircd/OLD/irc2user.cpp:684-720 | Every request to turn server notices on uses up one parameter, served or not. |
| `UserModeLetters.NoticesParameter` | home/kineircd/OLD/irc2user.cpp:696-774 | The mode string s, with no sign, sends back the letter and its parameter for the privileged and nothing for others. |
| `UserModes.ReportWithinLimit` | home/kineircd/OLD/irc2user.cpp:666-667 | At most MAX_MODES_PER_COMMAND letters come back. |
| `UserModes.WordAsksForReport` | home/kineircd/OLD/irc2user.cpp:754-762 | Read back, the returned word asks for exactly the reported changes, grouped by sign. |
| `UserModes.ReplayAgreesExactly` | home/kineircd/OLD/irc2user.cpp:659-774 | Applying the returned string to the original modes gives the same final modes if and only if no letter reported off is on at the end. |
| `UserModes.ReplayAgreesIffNothingRestored` | home/kineircd/OLD/irc2user.cpp:659-774 | The same condition on the requested string: no letter is turned off while it may be on and then effectively on again. |
| `UserModes.OneSignPerLetterIsEnough` | home/kineircd/OLD/irc2user.cpp:659-774 | In particular it holds when no letter appears with both signs. |
| `UserModes.RestoredFlagIsLost` | home/kineircd/OLD/irc2user.cpp:696-719 | The string +i-i+i sets the flag and returns +ii-i, which clears it. |

## Left out

- Sockets, `select()`, process control, module loading, configuration, logging back ends: input and output.
- Which messages the handlers of a connected client send: `ConnectionRuns` takes any reaction.
- The input side of a hand-over (`home/kineircd/src/lib_clbp/input.cpp:59-62` clears a queue of an object that may have deleted itself inside `parseLine`): the framer model has no hand-over, and the registrar run simply ends with it.
- RegistrarProtocol.Protocol.ParseSERVER: with exactly five parameters the code reads a sixth that does not exist; the model takes an arbitrary text there.
- RegistrarProtocol.Protocol.ParseMessage: the wording of errors and numerics is left out; `findProtocol` is any function of type and name.
- Languages.Languages.RegisterMap: the code inserts the address of its parameter, which `deregisterMap` can never find again; the set here holds references to the maps.
- Languages.Languages.DeregisterMap: removes the map given; the code erases the address of its own parameter, so nothing.
- LanguageService.LoadedTextIsAnswered: starts from preprocessed entries; `LanguageFiles.LoadedLineIsAnswered` starts from the lines.
- Languages.Languages.ReadEntries: `tagCount`, file revisions and control lines other than the language code are left out, and so is what an octal escape inside the language code line does to it.
- Languages.Languages.LoadFile: unreadable files and failing character set conversions are left out.
- Irc2Protocol.Output.SendMessage: the overloads for up to nine parameters are one method with a list of at most nine; `sendRawMessage` and its kin are left out.
- Directory.AddKeepsCounts: counters are unbounded upwards, so a count past 32 bits is not modelled; wrapping below zero is.
- NetworkObjects.Network.ChangeNickname: models the draft kept as comments at `home/kineircd/src/lib/user.cpp:58-82`; the function in force returns an error at once. Services appear only as a flag that their registry knows the name.
- IsupportLimits.TerminatedLinesFitExactly: its condition is on the payloads; `TokenLengthsFitExactly` has one on the tokens.
- UserReplies.IsupportLinesFit: a `maxMessageSize` too small for the names and the suffix wraps the limit; that case is left out here.
- DirectoryRuns.PeakIsHistoricalMaximum: one direction, about the end of a run of any length; `PeakIsHighestExactly` has both, about every state.
- DirectoryRuns.PeakIsHighestExactly: counts past 32 bits are left out, so runs have to be shorter than the wrapped value less the peak.
- Registrations.FirstHandedOverIsRegistered: NICK also finds services, which are not entered here, and users do not quit or rename during the run.
- NameUse.NickAsksDirectory: services are left out here as well.
- RegistrarDialogues.Register: the loop over messages stands for the input side, which ends with the object at hand-over.
- RegistrarDialogues.ServerRegistersExactly: with exactly five parameters the description is whatever the missing sixth reads as, so only the other lengths have the record.
- NetworkObjects.Network.QuitUser: quit reasons and events are left out. Channels, clients other than users, and the registries of channels, servers and services repeat the same map operations.
- Names.FoldIsIdempotent: folding acts on ASCII letters and the four bracket pairs; locale tables are not modelled. The empty nickname passes the validity rules here as it does in the code.
- ServerName.CheckValidity: `isalpha` and `isalnum` are the ASCII ones.
- ChannelNames.SendNames: map order is the order of the list given; being hidden is a flag per member and per channel, and roles are flags of the asking user.
- UserModes.ProcessUserModes: the silent form used at registration, the error numerics, the operator and helper counters and the search through the mode table are left out; a user's server notice mask is on or off, and the user is a local one.
- AwayLock.Handler.ParseAWAY: models the build with the flood lock defined.
- `Channel::Name::checkValidity`: its prefix loop does not advance and its character set literal starts with NUL, so it decides nothing useful.
- WHO, LIST, STATS and the other command handlers, the XML scheme, the HTTP module, file logs and the old configuration parser: formatting and plumbing.
