# Verified models of a network programming tutorial

This project models seven parts of a collection of C network programs and proves what they are
for. Bytes are numbers from 0 to 255, C strings are cut at their first NUL, and whatever the
programs do not control is left open: which descriptor is ready, how many bytes a read returns,
which number a new connection gets, whether a send or an allocation fails.

- **Producer and consumer rings** (`SendQueue*.dfy`, chapter05/server9.c). A step system with one
  receiving and two sending threads, mutexes and condition variables. Each step is one statement
  another thread can observe. The order theorems carry the hypothesis `Room`: the program never
  tests for a full ring. `SafeWithRoom` shows the hypothesis exact for whole runs, `FullRing` says what
  happens without it, and `FullRingLosesReplies` gives the run from the start that loses a ring of
  replies. `SendQueueMemory`
  ties the statements on `struct queue` in memory to the steps.
- **Echo reply** (`CStrings.dfy`, `Echo.dfy`): `mystrlcat` and `send_recv` in place, and the
  client that checks the answers.
- **Scanner and parser** (`Scanner*.dfy`, `Parser*.dfy`, `ConfigRoundTrip.dfy`, chpater12). The
  specifications are the token patterns of lexer.l and the grammar and actions of parser.y; the
  implementations are the compressed tables with `yylex` over a refillable buffer and `yyparse`
  over its two stacks. The scanner's theorem holds for texts with NUL bytes too. The pointer a
  string token carries fits into the value, as on x86_64 (chpater12/parser.y:8-11).
- **Line framing** (`LineFraming.dfy`, `Event*.dfy`, chapter06): two blocking readers and the
  event-driven one that refines the first (`EventRefinement.dfy`).
- **Checksum and UDP frame** (`Checksum.dfy`, `UdpFrame.dfy`, chapter10).
- **Connection tables** (`Sockets.dfy`, `ChildTable.dfy`, `SelectServer.dfy`, `PollServer.dfy`,
  `EpollServer.dfy`, chapter05).
- **HTTP request reader** (`HttpSpec.dfy`, `HttpReader.dfy`, httpd/httpd2.c). `HttpMeaning.dfy` says in
  bytes what is read and what is refused.

Where code and appearance differ, the model follows the code:

- server2.c displays as child count only the entries that raised the select width
  (chapter05/server2.c:103-113); `DisplayedCount` says when that is the number of children, and `Run`
  that it always is where accept gives the lowest free number and none is free below the socket.
- oneline1.c writes no terminator behind a frame that an end of file cuts off, so bytes of earlier
  frames, even of earlier connections, can follow it in the reply: `StaleReply` shows it, `ReplyAtEnd`
  says exactly when it happens.
- oneline1.c drops NULs where a frame is about to start, and only those bytes; oneline.c answers such a
  frame with an empty line. `BytewiseIsFramewise` covers every stream. Where whole frames that start
  with NUL end in LF, `AnswersAlike` says exactly when the two programs give the same replies; for full
  frames without LF there is a necessary condition (`AlikeNeeds`), which is not sufficient
  (`FullNulFrame`).
- The actions of parser.y take effect before the end of the file has been seen, so a rejected
  configuration can change the globals: `MeaningLeaves` says what it leaves, `WhenNothingChanges` when
  it leaves them alone, and `ConfigRoundTrip` gives a rejected text whose host stays.
- httpd2.c keeps the line ending in a header value and the list in reverse order of arrival.

Preconditions that callers of the C functions meet: messages of at most 511 bytes in the echo
servers (a full receive puts the terminator behind the buffer), buffers of at least two bytes for
the frame reader, descriptors below 80 in oneline1.c, payloads of at most 256 bytes in the UDP
frame, captured frames long enough for their headers in `analyze_packet`.

## Model

| member | source | states |
|---|---|---|
| `SendQueueTheorems.InOrderExactlyOnce` | chapter05/server9.c:177-213 | In every interleaving of the receiver and both senders that keeps to the occupancy hypothesis, the replies sent on a descriptor answer, in order and each at most once, a prefix of the messages received on it; all of them once its ring has settled |
| `SendQueueTheorems.UnlockedSlotsDisjoint` | chapter05/server9.c:178-183 | In every reachable state the slot the receiver writes without the mutex is neither a pending slot nor the one a sender works on without the mutex, wrap-around included |
| `SendQueueTheorems.NoLostWakeup` | chapter05/server9.c:255-264 | Whenever a mutex is free, a sender parked and not signalled implies front == last |
| `SendQueueTheorems.FullRing` | chapter05/server9.c:209-211 | The missing test for a full ring: the slot to be written is the one in work exactly when MAXQUEUESZ - 1 entries are pending, and whatever the sender does, publishing then makes the ring look empty |
| `SendQueueTheorems.RoomIsNeeded` | chapter05/server9.c:177-213 | The hypothesis is exact for a step: behind a state that satisfies the invariant, no slot in use is written and no message is lost if and only if the receiver starts to write with at most MAXQUEUESZ - 2 entries pending or an idle sender, and publishes with at most MAXQUEUESZ - 2 pending |
| `SendQueueTheorems.SafeWithRoom` | chapter05/server9.c:177-286 | And for a run: every state of it is safe in this sense if and only if the hypothesis holds at each step |
| `SendQueueTheorems.RingFillsUp` | chapter05/server9.c:177-213 | For every descriptor and all message texts, each number of pending entries up to MAXQUEUESZ - 1 is reached by a run from the start in which nothing has been sent |
| `SendQueueTheorems.FullRingLosesReplies` | chapter05/server9.c:209-211 | One message more than that, which the program does not prevent: MAXQUEUESZ messages received, none sent, the ring looks empty, and no steps of the senders send any of them |
| `SendQueueTheorems.EveryMessageCanBeAnswered` | chapter05/server9.c:253-286 | From every reachable state with an idle receiver the senders alone can answer every message received; no deadlock |
| `SendQueueTheorems.DrainLane` | chapter05/server9.c:253-286 | One sender can empty its ring without disturbing the other ring |
| `SendQueueTheorems.SenderMoves` | chapter05/server9.c:255-264 | A ring with work left always lets its sender take a step that brings it closer to the end |
| `SendQueueTheorems.PickThroughLane` | chapter05/server9.c:177 | Descriptor modulo MAXSENDER sends all messages of a descriptor through one ring, so the order of that ring is the order of the descriptor |
| `SendQueueTheorems.SharesRing` | chapter05/server9.c:177 | Two descriptors share a ring exactly when both are even or both odd |
| `SendQueueTheorems.AcceptLimit` | chapter05/server9.c:155-172 | A new connection is taken in while at most 18 are open |
| `SendQueueTheorems.AnswersOf` | chapter05/server9.c:177-213 | What one ring keeps about its own messages holds for each descriptor it serves |
| `SendQueueTheorems.RepliesReachTheirConnection` | chapter05/server9.c:280-282 | If every connection has been answered in full before its end of file is handled, each reply goes to the connection that asked, although descriptor numbers are reused |
| `SendQueueTheorems.EarlyEndMisdelivers` | chapter05/server9.c:190-206 | From any state with a reply owed at an end of file there is a run in which a new connection with the same number receives it |
| `SendQueueTheorems.OwedAtReady` | chapter05/server9.c:177-213 | Such a state is reached from the start, by an orderly run, on every descriptor |
| `SendQueueTheorems.MisdeliveryHappens` | chapter05/server9.c:161-206 | The condition of the previous theorem is needed: on every descriptor there is a run from the start in which a reply reaches another connection than the one that asked |
| `SendQueueTheorems.RunKeepsHome` | chapter05/server9.c:161-206 | Over whole orderly runs, replies still owed belong to the connection now open on the descriptor |
| `SendQueueInvariant.InitialInv` | chapter05/server9.c:302-305 | The initial state satisfies the invariant of rings, logs, mutexes and program counters |
| `SendQueueInvariant.StepKeepsInv` | chapter05/server9.c:177-286 | Every step of every thread keeps the invariant while there is room at each write |
| `SendQueueInvariant.RunKeepsInv` | chapter05/server9.c:177-286 | Every reachable state satisfies the invariant |
| `SendQueueInvariant.StageKept` | chapter05/server9.c:266-278 | The five stages of preparing a slot turn a received message into its reply |
| `SendQueueInvariant.SlotApart` | chapter05/server9.c:257-258 | The slot taken by a sender is not among the pending ones, and not the receiver's while there is room |
| `SendQueueInvariant.LastApart` | chapter05/server9.c:178-183 | Writing data[last] leaves pending slots and the slot in work alone while there is room |
| `SendQueueInvariant.PublishKeeps` | chapter05/server9.c:209-210 | Publishing adds exactly one pending entry, holding the message just received |
| `SendQueueInvariant.FillKeeps` | chapter05/server9.c:179-183 | A completed receive logs one message and leaves it in data[last] |
| `SendQueueInvariant.TestKeeps` | chapter05/server9.c:256-263 | Taking the front entry or parking keeps the ring's invariant |
| `SendQueueMemory.Queue.Take` | chapter05/server9.c:256-263 | The in-place test takes front exactly when the ring is not empty and moves the ring as the step system does |
| `SendQueueMemory.Queue.Prepare` | chapter05/server9.c:265-278 | The in-place work on one slot is the composition of the four slot steps and touches no other slot |
| `SendQueueMemory.Queue.StoreText` | chapter05/server9.c:179-183 | recv into data[last] changes that slot only and stores the text over its old contents |
| `SendQueueMemory.Queue.SetAcc` | chapter05/server9.c:178 | The descriptor goes into data[last]; text, length and every other slot stay |
| `SendQueueMemory.Queue.Publish` | chapter05/server9.c:210 | Only last moves; all slots keep their contents |
| `CStrings.StrLCat` | chapter05/server2.c:188-209 | The first size bytes become the old string, the source cut to fit, and zeros; the rest is untouched and the untruncated length is returned |
| `CStrings.LCatString` | chapter05/server2.c:188-209 | As C strings the result is the concatenation truncated to size - 1 bytes |
| `CStrings.CopyAndPad` | chapter05/server2.c:200-206 | The two copying loops stop at the end of the source or of the buffer and zero the remainder |
| `CStrings.StrPBrk` | chapter05/server2.c:231 | The index found is where the cut line ends; none is found exactly when the string has no line end |
| `Echo.MakeReply` | chapter05/server2.c:229-237 | In place, the buffer becomes the reply to the message received, whatever it held before |
| `Echo.SendRecv` | chapter05/server2.c:212-245 | The bytes sent are the first line of the message with ":OK\r\n", cut to 511 bytes; errors and end of file send nothing and return -1 |
| `Echo.ReplyMatches` | chapter05/testclient.c:139-155 | The client's comparison succeeds exactly when the bytes received are the reply to its own request |
| `Echo.ClientAgainstServer` | chapter05/testclient.c:109-160 | With requests and replies delivered whole the client finds no mismatch in any of its 51 rounds |
| `Echo.PartialRequest` | chapter05/testclient.c:146-155 | When only part of a request arrives, the reply is the expected one exactly when nothing but the line end is missing |
| `Echo.RequestFits` | chapter05/testclient.c:119 | Every request for C ints fits the buffer |
| `Echo.RequestInBytes` | chapter05/testclient.c:119 | The identifier, a colon, the round, LF |
| `Echo.ReplyInBytes` | chapter05/server2.c:229-237 | The message up to its first NUL, LF or CR, then :OK CR LF, all together at most 511 bytes |
| `ScannerTables.WalkIsDelta` | chpater12/lex.yy.c:596-602 | The compressed walk over default chain and meta classes ends, and yields the transition table written out state by state |
| `ScannerTables.Transition` | chpater12/lex.yy.c:596-602 | The loop over yy_chk, yy_def and yy_meta stays inside the tables, terminates and computes the walk |
| `ScannerAutomaton.ShapeStep` | chpater12/lex.yy.c:588-605 | On every text the automaton's state is determined by the text read: keyword prefix, word, digits, blanks, a single mark, or jam |
| `ScannerAutomaton.AcceptMeans` | chpater12/lex.yy.c:296-301 | A state's accept entry is the earliest rule of lexer.l that matches the text read, or none |
| `ScannerAutomaton.JamStays` | chpater12/lex.yy.c:605 | No continuation of a jammed text matches any rule |
| `ScannerAutomaton.MunchIsToken` | chpater12/lexer.l:10-21 | The length and rule found are those of the longest match, earliest rule on ties |
| `ScannerSpec.TokenUnique` | chpater12/lexer.l:10-21 | Longest match with earliest rule determines the lexeme uniquely |
| `Scanner.StopsFixesMunch` | chpater12/lex.yy.c:605-614 | A scan that has stopped has found the lexeme whatever text follows it |
| `Scanner.Lexer.MatchAndFind` | chpater12/lex.yy.c:588-614 | The match loop and the back-up end at the lexeme, or just behind an end-of-buffer character |
| `Scanner.Lexer.GetPreviousState` | chpater12/lex.yy.c:965-990 | Replaying the automaton over the kept text restores the state of that text |
| `Scanner.Lexer.TryNulTrans` | chpater12/lex.yy.c:1000-1025 | A NUL in the text makes the transition the text demands, 0 when it jams |
| `Scanner.Lexer.GetNextBuffer` | chpater12/lex.yy.c:833-960 | The partial token is at the front and the text still to be scanned is unchanged; the result says whether more was read, the file ended, or the pending text must be finished |
| `Scanner.Lexer.Grow` | chpater12/lex.yy.c:882-922 | Doubling makes room behind the kept characters and keeps them |
| `Scanner.Lexer.ReadMore` | chpater12/lex.yy.c:878-931 | A read of any size moves bytes from the input to the buffer without loss, reordering or overflow |
| `Scanner.Lexer.EndOfBuffer` | chpater12/lex.yy.c:695-815 | At an end-of-buffer character the scan goes on at a state and position that fit the same text |
| `Scanner.Lexer.ScanRun` | chpater12/lex.yy.c:573-821 | One run through refills, growth and replays delivers the next lexeme of the whole remaining text |
| `Scanner.Lexer.Yylex` | chpater12/lex.yy.c:540-822 | Token, value, echo and text left are those of scanning the whole text in one buffer, however the input is cut into reads; also for texts with NUL bytes |
| `Scanner.Lexer.Tokens` | chpater12/lex.yy.c:540-822 | All tokens up to the end of the file are those of the whole text, whatever the reads: moving the partial token, growing, refilling, replaying and the pending end of file change nothing |
| `Scanner.CodesOfLexemes` | chpater12/lex.yy.c:631-660 | One non-zero token code for each lexeme of the text |
| `Scanner.LexStep` | chpater12/lex.yy.c:676-690 | Blanks and newlines are skipped, unmatched characters echoed, and the search goes on behind them |
| `ScannerMeaning.LexSplits` | chpater12/lex.yy.c:631-690 | Nothing of a text is lost: in front of each lexeme found there are only bytes that start none; tabs, newlines and blanks among them are dropped and all others copied to the output |
| `ScannerMeaning.CodeNumbers` | chpater12/parser.tab.h:42-50 | The token numbers of the parser, 258 to 266 |
| `Scanner.LexDigits` | chpater12/lexer.l:12 | A number token consists of digits only |
| `ParserTables.RulesMatchGrammar` | chpater12/parser.tab.c:461-472 | The length and symbol tables describe the productions of parser.y |
| `ParserTables.ConsistentStates` | chpater12/parser.tab.c:1254-1257 | The states that never look ahead are exactly those with a default reduction |
| `ParserTables.ShiftMoves` | chpater12/parser.tab.c:1274-1310 | Every shift of the packed tables leads from a stack of the automaton to one with one state more |
| `ParserTables.ReduceMoves` | chpater12/parser.tab.c:1326-1411 | Every default reduction pops its right side and the goto tables lead to a stack of the automaton again |
| `ParserTables.StackDepth` | chpater12/parser.tab.c:1176-1239 | No reachable stack holds more than 10 states, so the stack is never extended |
| `ParserTables.ReduceSinks` | chpater12/parser.tab.c:1316-1411 | Reductions cannot follow one another for ever |
| `ParserTables.NoRecovery` | chpater12/parser.tab.c:1513-1545 | No state has an action on the error token |
| `ParserRun.ShiftGoal` | chpater12/parser.tab.c:1294-1310 | Shifting keeps the outcome that lies ahead |
| `ParserRun.ReduceGoal` | chpater12/parser.tab.c:1326-1411 | Reducing, with its action, keeps the outcome that lies ahead |
| `ParserRun.FailGoal` | chpater12/parser.tab.c:1286-1290 | An error entry is met only where the rest of the input cannot complete a configuration |
| `ParserRun.AcceptGoal` | chpater12/parser.tab.c:1292-1293 | Acceptance happens only at the end of a complete configuration |
| `ParserRun.ShiftMemory` | chpater12/parser.tab.c:1306-1308 | Shifting hands the ownership of a duplicated string from yylval to the value stack |
| `ParserRun.FreeText` | chpater12/parser.y:54-60 | A statement's string is live when its action frees it, and not owned afterwards |
| `ParserRun.FreeName` | chpater12/parser.y:34-40 | So is the program name |
| `ParserRun.Leaked` | chpater12/parser.tab.c:1576-1588 | Giving up leaves at most three strings behind, accepting none |
| `ParserSpec.MeaningIffDerives` | chpater12/parser.y:33-77 | The left-to-right reading of the actions succeeds exactly on the token sequences the grammar derives |
| `ParserSpec.AcceptedIsDerived` | chpater12/parser.y:33-77 | An accepted token sequence has a derivation tree |
| `ParserSpec.DerivedIsAccepted` | chpater12/parser.y:33-77 | A derivation tree's yield is accepted |
| `ParserSpec.StatementsConsumed` | chpater12/parser.y:48-51 | What the left-recursive statement list derives is consumed statement by statement |
| `Parser.Parser.NewState` | chpater12/parser.tab.c:1166-1183 | A state is pushed and the place where the stack would be extended is never reached |
| `Parser.Parser.Backup` | chpater12/parser.tab.c:1248-1293 | The decision is that of the packed tables, and the look-ahead is read only in states that need it |
| `Parser.Parser.ShiftToken` | chpater12/parser.tab.c:1294-1310 | Stacks, look-ahead and ownership after a shift lead to the same outcome with one lexeme less |
| `Parser.Parser.Action` | chpater12/parser.y:33-76 | The globals get the value of the rule's action and the string used is freed exactly once |
| `Parser.Parser.ReduceBy` | chpater12/parser.tab.c:1326-1411 | Stacks, globals and heap after a reduction lead to the same outcome |
| `Parser.Parser.Recover` | chpater12/parser.tab.c:1419-1545 | Error recovery reports once, pops every state and returns 1 |
| `Parser.Parser.Yyparse` | chpater12/parser.tab.c:1098-1600 | 0 exactly for texts whose tokens the grammar derives, otherwise 1; both stacks end up empty; for every accepted text, whatever its layout, each global is the last value the text assigns to it, clipped, or its old value where the text assigns none; for a rejected text the same of the statements in front of the error; an accepted text leaves the heap as it was, a rejected one at most three strings more |
| `ParserSpec.MeaningLeaves` | chpater12/parser.y:33-77 | For every token sequence, accepted or not: host and port are the last values set by the statements carried out, those in front of the first error; the program name is set exactly when the closing brace has been read; it is accepted exactly when nothing follows |
| `ParserSpec.WhenNothingChanges` | chpater12/parser.y:33-77 | A text leaves all globals as they were exactly when no statement starts behind a name and an opening brace |
| `ParserSpec.AcceptedAssigns` | chpater12/parser.y:33-77 | For every accepted token sequence: the program is the first word; host and port are the values behind the last hostnm and the last portnm, each cut to 79 bytes and a number in its decimal form, or the old values where no such keyword occurs |
| `ParserSpec.AssignedInBytes` | chpater12/parser.y:33-77 | The same in bytes: each is the text assigned, or its first 79 bytes if it is longer |
| `ParserSpec.GlobalsFit` | chpater12/parser.y:33-77 | No text leaves more than 79 bytes in a global of 80 |
| `ConfigRoundTrip.PieceIsToken` | chpater12/lexer.l:10-21 | A printed word, blank run or mark is the next lexeme: keywords and digit runs beat strings, longer strings beat keywords |
| `ConfigRoundTrip.ScanJoin` | chpater12/client-2.conf:1-5 | Scanning inverts printing for any list of pieces that do not run into each other |
| `ConfigRoundTrip.SettingsBody` | chpater12/parser.y:43-76 | Settings take effect in order, up to the first ill-chosen value; the text is rejected there, and the effect of the settings in front of it stays |
| `ConfigRoundTrip.FirstSetting` | chpater12/parser.y:53-76 | An earlier setting matters only where no later one replaces it |
| `ConfigRoundTrip.PrintedConfigReadsBack` | chpater12/client-2.conf:1-5 | A printed configuration with any settings is accepted exactly when there is a setting, no name is a keyword or all digits, and no port is negative; the globals are the name and the last host and port, cut to 79 bytes; if it is rejected they are the last values in front of the first ill-chosen one |
| `ConfigRoundTrip.ConfigRoundTrip` | chpater12/client-2.conf:1-5 | In the layout of client-2.conf ports in int range come back exactly and names up to their first 79 characters; a negative port has the text rejected while its host stays in the globals |
| `LineFraming.FramingIsUnique` | chapter06/oneline.c:130-178 | A stream has exactly one division into frames with a LF only at the end, at most the buffer's size, and only the last one cut off |
| `LineFraming.RecvOneLine1` | chapter06/oneline.c:130-178 | The buffer holds exactly the next frame and a terminator, the rest of the stream is unread, and -1 is returned exactly when the stream breaks inside the frame |
| `LineFraming.LimitIsLength` | chapter06/oneline.c:211-216 | The area passes the limit exactly when the text would exceed 1048575 bytes |
| `LineFraming.AddChunk` | chapter06/oneline.c:209-236 | The area grows when it must, keeps the text, and holds the new chunk and a terminator within its size |
| `LineFraming.RecvOneLine2` | chapter06/oneline.c:179-243 | The area holds exactly the stream up to the next LF or its end, terminated; it succeeds exactly when the line ends before the stream breaks, has at most 1048575 bytes, and none of the areas it needs is refused: 1024, 2048, ... bytes up to the first with room for the line and its terminator |
| `LineFraming.Respond` | chapter06/oneline.c:265-270 | The reply is the frame up to its first NUL, CR or LF, with ":OK\r\n" |
| `LineFraming.SendRecvLoop1` | chapter06/oneline.c:244-278 | The replies sent are those of the frames in order, up to the first failing send |
| `LineFraming.EveryFrameAnswered` | chapter06/oneline.c:244-278 | When the peer closes properly every frame of at most 19 bytes is answered once, in order |
| `LineFraming.EveryLineAnswered` | chapter06/oneline.c:279-322 | When the peer closes properly every line below 1048576 bytes is answered once, in order |
| `LineFraming.FrameReplyInBytes` | chapter06/oneline.c:265-270 | The frame up to its first NUL, LF or CR, then :OK CR LF |
| `LineFraming.SendRecvLoop2` | chapter06/oneline.c:279-322 | What is sent is exactly the replies in order up to the end of the stream, the first line that breaks off or is too long, the first refused area for a line or its reply, or the first failed send; it is a prefix of the replies to the lines below the limit |
| `EventFraming.Server.RecvOneLine1` | chapter06/oneline1.c:196-238 | One byte is put behind the unfinished frame of its own descriptor, nothing else changes; a whole frame is reported exactly at a LF or at 19 bytes |
| `EventFraming.Server.SendRecv1` | chapter06/oneline1.c:239-286 | A whole frame is answered and forgotten, an incomplete one kept; the row of the descriptor is the next one, cut in place where it was answered; at end of file in mid-frame the reply is that of the row |
| `EventFraming.MirrorsOn` | chapter06/oneline1.c:196-286 | Row for row the buffer agrees with the bytes last received at each position of a frame, except that cutting replaces one stop by another |
| `EventFraming.Server.ServeOne` | chapter06/oneline1.c:158-177 | One event adds its byte to the frame of its own descriptor; the descriptor is closed exactly at an error, at an end of file outside a frame, or when the send fails |
| `EventFraming.Server.Serve` | chapter06/oneline1.c:120-177 | For any order of events over any descriptors, with receive errors, failing sends and ends of file anywhere, what is sent and closed on each descriptor is exactly what its own events call for; the reply to a frame cut off by an end of file is made from the frame and the bytes last received behind its position |
| `EventRefinement.BytewiseIsFramewise` | chapter06/oneline1.c:196-238 | For every stream and whatever was received before, one byte per event gives the replies of the blocking loop to the stream without the NULs found at the starts of frames, the same unfinished frame, and its frames laid over the bytes received before |
| `EventRefinement.LayAt` | chapter06/oneline1.c:224 | The byte last received at a position is that of the last frame that reached it |
| `EventRefinement.NothingStripped` | chapter06/oneline1.c:203-205 | That is the stream itself exactly when no frame starts with a NUL |
| `EventRefinement.AnswersAlike` | chapter06/oneline1.c:203-205 | The exact condition: where whole frames that start with NUL end in LF, both programs give the same replies, while the stream arrives and when the peer closes, if and only if the first byte of each such frame behind its NULs is CR or LF |
| `EventRefinement.AlikeNeeds` | chapter06/oneline1.c:203-205 | On every stream, full frames without LF included, equal replies require this of the first frame that starts with NUL |
| `EventRefinement.FullNulFrame` | chapter06/oneline1.c:224-233 | For a full frame of 19 bytes without LF it is not enough: one reply too few is sent |
| `EventRefinement.SessionsServed` | chapter06/oneline1.c:158-286 | A descriptor number used by one connection after the other, each ended by the peer, also inside a frame, by a receive error or by a failed send: what each is sent, exactly; each is closed once, and the last may still be open |
| `EventRefinement.SessionsRefineLoop` | chapter06/oneline1.c:158-286 | All of them are served as by the blocking loop if and only if every frame cut off by an end of file is answered as it stands |
| `EventRefinement.ReplyAtEnd` | chapter06/oneline1.c:212-221 | The exact condition for that, on what the number received since the start of the server: the frame cut off holds a stop, or the last longer frame has a stop at the position of the cut, or there was no longer frame |
| `EventRefinement.StaleReply` | chapter06/oneline1.c:212-221 | It fails: after the line a, b, a frame x that is cut off is answered with x, b, on the same connection and on the next one of that number |
| `EventRefinement.ServeClients` | chapter06/oneline1.c:110-179 | From the start of the server, under any schedule, every descriptor with such a history sends and closes exactly what the history calls for, and what the blocking loop of oneline.c does if and only if every cut-off frame is answered as it stands |
| `EventRefinement.NulFree` | chapter06/oneline1.c:203-205 | Streams without NUL have no frame that starts with NUL |
| `EventRefinement.NulStartDiffers` | chapter06/oneline1.c:203-205 | A witness for the difference: NUL, c, LF is answered with an empty line by the blocking loop and with c by the event-driven one |
| `Checksum.ChecksumOf` | chapter10/raw-u-client.c:100-130 | The accumulator stays within 32 bits, both loops end, and the result is the one's-complement checksum of the block, odd lengths included |
| `Checksum.Checksum` | chapter10/raw-u-client.c:123-129 | The result is never 0 |
| `Checksum.ChecksumChecks` | chapter10/raw-u-client.c:158-178 | Stored in its zeroed field, the checksum makes the whole block sum to 0xFFFF |
| `Checksum.OnlyChecksumChecks` | chapter10/raw-u-client.c:158-178 | No other value does, except 0 for a block that already sums to 0xFFFF |
| `Checksum.StoredChecksumSame` | chapter10/raw-u-client.c:102-130 | Little- and big-endian hosts store the same two bytes for every block (section 2 (B) of RFC 1071) |
| `UdpFrame.FrameSameOnAllHosts` | chapter10/raw-u-client.c:144-221 | The frame does not depend on the sender's byte order |
| `UdpFrame.ChecksumsVerify` | chapter10/raw-u-client.c:144-178 | IP header and pseudo datagram sum to 0xFFFF at any receiver (section 3.1 of RFC 791) |
| `UdpFrame.FrameOnWire` | chapter10/raw-u-client.c:144-221 | The frame byte by byte: all stations, IPv4 header 0x45 with its length, time to live 64, protocol 17, 0.0.0.0 to 255.255.255.255, ports 22223 and 22222, UDP length 8 plus the payload, the payload |
| `UdpFrame.ReceiverAccepts` | chapter10/raw-u-client.c:141-178 | The IP header of the frame, and the block a receiver rebuilds from the frame for the UDP checksum (both addresses, zero, protocol, UDP length, datagram; RFC 768), fold to 0xFFFF in either byte order: as sums of bytes they are multiples of 65535 |
| `Checksum.WordsInBytes` | chapter10/raw-u-client.c:100-118 | The words add up to 256 times the bytes at the even positions and once those at the odd ones, or the other way round, depending on the byte order |
| `Checksum.FullMeans` | chapter10/raw-u-client.c:119-130 | A sum folds to 0xFFFF exactly when it is a positive multiple of 65535 |
| `UdpFrame.SendUdpRaw` | chapter10/raw-u-client.c:132-228 | The bytes sent are the Ethernet, IP and UDP headers with their checksums and the payload, field by field |
| `UdpFrame.FillUdp` | chapter10/raw-u-client.c:144-165 | UDP header and data area are copied out of the pseudo packet with the checksum of exactly its used part |
| `UdpFrame.IsTargetPort` | chapter10/pdump.c:448-469 | A positive setting selects a port, a negative one leaves it out, 0 selects all |
| `UdpFrame.AnalyzePacket` | chapter10/pdump.c:470-632 | Stepping through the headers classifies the packet and locates its data as the absolute layout does |
| `UdpFrame.TcpIsUnderstood` | chapter10/pdump.c:507-533 | Round trip for TCP over IPv4 and IPv6: with an offset that counts the header and its options, the region shown is the payload, exactly when the filter allows it |
| `UdpFrame.TcpRegion` | chapter10/pdump.c:520-530 | With any offset the region starts that many units of four bytes behind the TCP header and ends where the packet does |
| `UdpFrame.UdpIsUnderstood` | chapter10/pdump.c:535-556 | Round trip for UDP over IPv4 and IPv6: the region shown is the payload, exactly when the filter allows it |
| `UdpFrame.OthersShown` | chapter10/pdump.c:485-580 | ICMP is shown from offset 34 with the IP length less 20, ARP and reverse ARP by their types 0x0806 and 0x8035, and nothing else is shown |
| `UdpFrame.PortFilter` | chapter10/pdump.c:448-469 | The filter in numbers: 0 shows all, a positive port the packets from or to it, a negative one all the others |
| `UdpFrame.FrameIsUnderstood` | chapter10/pdump.c:501-555 | A built frame is shown as UDP exactly when the filter lets its ports through, and the data region is the payload, byte for byte |
| `UdpFrame.CheckPacket` | chapter10/raw-u-client.c:230-269 | Exactly packets with type 0x0800, protocol 17 and destination port 22223 are shown, with the payload as text, whatever an earlier packet left in the buffer; the number of bytes copied fits the buffer exactly when such a packet is not cut off inside its headers |
| `UdpFrame.AnswerIsShown` | chapter10/raw-u-client.c:230-269 | Any answer to port 22223 is shown with its payload |
| `UdpFrame.OwnFrameIgnored` | chapter10/raw-u-client.c:230-269 | The client's own frames are not taken for answers |
| `Sockets.Kernel.Accept` | chapter05/server2.c:131 | A new connection gets a number not in use, the lowest one where that rule is assumed; every accepted connection stays either open on one descriptor or closed once |
| `Sockets.Kernel.Close` | chapter05/server2.c:176 | Only an open descriptor is closed, and its connection is closed exactly once |
| `ChildTable.Table.Store` | chapter05/server2.c:141-165 | A descriptor takes the first free slot, and is refused exactly when MAX_CHILD - 1 are live; no other entry changes |
| `ChildTable.Table.ClearValue` | chapter05/server3.c:169-175 | The search by value frees exactly the slot of that descriptor |
| `ChildTable.Connections.AcceptOne` | chapter05/server3.c:123-160 | The accepted descriptor is taken in while there is room and otherwise closed at once |
| `SelectServer.BuildMask` | chapter05/server2.c:99-112 | The mask is the server socket and the live descriptors, and the width is exactly one more than the largest of them |
| `SelectServer.DisplayedCount` | chapter05/server2.c:103-113 | The child count displayed for a valid table is the number of live descriptors exactly when the used slots hold increasing descriptors above the listening socket, and is never larger |
| `SelectServer.CountRightWhenClimbing` | chapter05/server2.c:103-113 | The entries that raise the select width are at most the used ones, and all of them exactly when the entries climb from slot to slot |
| `SelectServer.ServeReady` | chapter05/server2.c:168-182 | Exactly the ready descriptors whose exchange fails are closed and leave the table |
| `SelectServer.Round` | chapter05/server2.c:98-185 | One pass accepts a connection exactly when the server socket is ready and accept succeeds; the live descriptors are then the old ones without the ready ones whose exchange fails, and the new one if fewer than 19 were live |
| `SelectServer.Run` | chapter05/server2.c:98-185 | In every run the live descriptors after each pass are those the pass calls for, and as many connections were accepted as accepts succeeded; the count displayed in a pass is never above the number of live descriptors, and in every run in which accept gives the lowest free number it is that number |
| `SelectServer.AlignedCount` | chapter05/server2.c:103-113 | A table with every descriptor in the slot of its number, counted from the listening socket, climbs |
| `ChildTable.StaysAligned` | chapter05/server2.c:141-165 | Storing the lowest free number in the first free slot keeps a table so |
| `PollServer.BuildTargets` | chapter05/server3.c:98-110 | The snapshot holds the server socket and each live descriptor once, and always fits its array |
| `PollServer.ServeTargets` | chapter05/server3.c:161-178 | Each failing target of the snapshot is closed once and loses its own slot, whatever has been accepted since |
| `PollServer.Round` | chapter05/server3.c:97-181 | One pass accepts a connection exactly when the server socket is ready and accept succeeds, and changes the live set as the pass of select does |
| `PollServer.Run` | chapter05/server3.c:97-181 | In every run the live descriptors after each pass are those the pass calls for, and as many connections were accepted as accepts succeeded |
| `EpollServer.BatchFits` | chapter05/server4.c:107 | A batch never exceeds the 20 entries of the array although 21 are asked for |
| `EpollServer.ClientInBatch` | chapter05/server4.c:151-168 | An event of a batch is still about the client registered when the batch was reported, even after numbers have been reused within the batch |
| `EpollServer.Server.OnAccept` | chapter05/server4.c:118-149 | The count stays the number of registered clients and admission stops at MAX_CHILD - 1 |
| `EpollServer.Server.HandleBatch` | chapter05/server4.c:117-170 | In a batch in any order a connection is accepted exactly when the server socket is in it and accept succeeds; the registered clients are then the old ones without those in the batch whose exchange fails, and the new one if fewer than 19 were left when its turn came |
| `EpollServer.Server.Run` | chapter05/server4.c:105-173 | In every run the clients registered after each pass are those its batch calls for, the count is their number, they are exactly the open connections, and as many connections were accepted as accepts succeeded |
| `HttpSpec.RequestReadsBack` | httpd/httpd2.c:355-383 | A printed request is read back: upper-cased method, path, version, fields in reverse order with their line endings, exactly the announced body bytes, the rest of the stream unread (sections 5.1 and 4.2 of RFC 1945) |
| `HttpSpec.LastLengthDecides` | httpd/httpd2.c:473-499 | The last Content-Length that arrived decides, whatever its case and earlier ones; without one the length is 0, a negative one is an error |
| `HttpSpec.FieldsRead` | httpd/httpd2.c:363-368 | Header lines up to the empty line give the fields last one first |
| `HttpSpec.FieldLine` | httpd/httpd2.c:426-437 | A header line is split at its first colon, blanks in front of the value are dropped, its line ending is kept |
| `HttpSpec.RequestLineRead` | httpd/httpd2.c:393-412 | A request line is split at its first two blanks and the digits behind HTTP/1. are the version |
| `HttpMeaning.UpInBytes` | httpd/httpd2.c:442-451 | Every small letter becomes 32 less, every other byte stays, and no small letter is left |
| `HttpMeaning.SameName` | httpd/httpd2.c:488-499 | Two names are the same to the reader exactly when they agree byte by byte up to the case of letters |
| `HttpMeaning.AnnouncesInBytes` | httpd/httpd2.c:473-499 | Exactly the spellings of content-length with each letter small or large announce a length |
| `HttpMeaning.UsualSpelling` | httpd/httpd2.c:473-499 | Content-Length and content-length do |
| `HttpMeaning.LookupIsFirst` | httpd/httpd2.c:488-499 | The value looked up is that of the first field of the name |
| `HttpMeaning.NumberInBytes` | httpd/httpd2.c:412-482 | White space, a sign and digits are read as the number of the digits, whatever follows |
| `HttpMeaning.LineInBytes` | httpd/httpd2.c:393-421 | A line has at most 4095 bytes and ends with its first LF |
| `HttpMeaning.RequestLineInBytes` | httpd/httpd2.c:393-412 | Without a blank, with only one, or without HTTP/1. in any case of letters behind the second, a request line is refused, each with its own error; otherwise it is split there |
| `HttpMeaning.HeaderLineInBytes` | httpd/httpd2.c:426-437 | A header line without a colon is refused; otherwise the value starts behind the colon and all blanks and tabs |
| `HttpMeaning.EmptyLineInBytes` | httpd/httpd2.c:421-423 | The header ends at a line that is LF or CR LF, and at no other |
| `HttpMeaning.RequestFails` | httpd/httpd2.c:355-383 | A header that is not ended, a negative length, one above 1048576, and a body that is too short are refused, each with its own error; otherwise the request is read |
| `HttpReader.Upcase` | httpd/httpd2.c:442-451 | In place, the string becomes its upper-case form |
| `HttpReader.CutAndCopy` | httpd/httpd2.c:393-398 | The part in front of the first separator is copied into a fresh block and the rest starts behind the NUL put there |
| `HttpReader.ReadRequestLine` | httpd/httpd2.c:385-413 | Method, path and version in fresh blocks, or the error of the first check that fails |
| `HttpReader.ReadHeaderField` | httpd/httpd2.c:415-440 | A fresh node for the next header line, null at the empty line, or the error |
| `HttpReader.OneHeader` | httpd/httpd2.c:364-368 | Each field read goes to the front of a list of separate blocks |
| `HttpReader.LookupValue` | httpd/httpd2.c:488-499 | The value found is that of the first node whose name matches without regard to case |
| `HttpReader.ReadRequest` | httpd/httpd2.c:355-383 | The request block represents exactly what the stream says, in new blocks only, or the error the stream calls for |
| `HttpReader.FreeRequest` | httpd/httpd2.c:453-471 | Every block of the request is freed exactly once and nothing else |
| `HttpReader.Service` | httpd/httpd2.c:345-353 | Reading and freeing leave memory as it was and the rest of the stream unread |
| `Decimal.ValueOfDigits` | chpater12/parser.y:64-69 | Reading printed digits gives the number back |
| `Decimal.DecimalInBytes` | chpater12/parser.y:64-69 | A minus sign in front of a negative number, digits without leading zeros, and their value is that of the number |
| `Decimal.ValueInBytes` | chpater12/lexer.l:12 | Each further digit counts ten times what was read before plus its distance from 48 |

## Left out

- Parser.Parser.Yyparse: numbers keep their mathematical value; a digit run beyond the range of a C int, for which atoi has no defined result, is not cut down to an int.
- Scanner.Lexer.Grow: the buffer size is unbounded; the branch for an int overflow of the doubled size is not modelled.
- Scanner.Lexer.Yylex: `yyunput`, `input`, the start-condition stack, `yy_scan_*` and read errors are not used by this scanner; interactive reading is one way of cutting the input into pieces.
- Echo.SendRecv: a receive of the full 512 bytes, whose terminator falls outside the buffer, is excluded.
- SendQueueTheorems.InOrderExactlyOnce: a send transfers the whole reply; partial sends and send errors are not distinguished from success.
- HttpReader.ReadContentLength: numbers keep their mathematical value; `HttpSpec.Atol` does not model a value beyond the range of a C long or int.
- HttpReader.Upcase: characters above 127 are left alone, as in the C locale.
- HttpReader.ReadRequest: failing allocations end the process and are not modelled, nor is the memory state behind `log_exit`.
- LineFraming.SendRecvLoop2: which old block a failed realloc leaves behind is not modelled.
- EpollServer.Server.HandleBatch: failures of epoll_ctl, which end the loop of the program, are not modelled.
- SelectServer.BuildMask: FD_SETSIZE is not modelled; masks hold any descriptor.
- UdpFrame.AnalyzePacket: printing is left out; only the classification and the data region are modelled.
- Socket setup, address lookup, multicast, ifinfo, ioctl flags: system calls without logic of their own.
- fork, exec, signals, daemons, telnet and timeout programs: behaviour lives in the kernel.
- server6.c to server8.c: one thread per connection or a lock around accept; they would only add easy members.
- server9bug.c: differs from server9.c only in the pointer passed to the threads.
- HTTP responses, dates, file access, chroot and user switching: output without state of its own.
- libevent, OpenSSL and build files: not part of this model.
