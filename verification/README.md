# Verified model of the word-segmentation server

The repository is a word-segmentation server: trainers count the n-grams of articles, a
server collects the rankings and serves dictionaries over Redis, and segmenters cut
sentences into dictionary words. This project models the parts whose correctness depends
on more than one function, in Dafny 4.11, and proves what they promise.

`dafny verify dfyconfig.toml` checks everything.

## What is modelled

**The Redis client** (`redisclient/amalgamated/redisclient.cpp`).
`RespProtocol.dfy` has the values, the encoding of the RESP specification and the number
conversion, and `WireFormat.dfy` says byte by byte what they are on the wire;
`RespReader.dfy` has a recursive-descent reader of one reply; `RespMachine.dfy` the parser as
a push-down machine that takes one byte at a time and can stop after any of them;
`RedisParser.dfy` the class itself, with its states, buffers, two parallel stacks and the
bulk-copy fast path. `RespRefinement.dfy` proves that machine and reader agree on every
input. `RespStream.dfy` is about streams of replies, `LegalReplies.dfy` about the replies that
RESP allows and the parser rejects, `AsyncClient.dfy` about the handler queue and the
double-buffered write pump over every run, `WrittenCommands.dfy` about what failed writes do
to the matching of replies and handlers, `SyncClient.dfy` about the reader with the leftover
buffer and the pipelined commands, `RedisCommands.dfy` about the command writer. The chain
of results is: the class does what the machine does; the machine does what the reader does;
the reader inverts the encoding; and cutting the input anywhere makes no difference. So what
a server encodes is what the handlers get, as long as its lines are printable.

**Segmentation** (`watorword/phoenixword*.cpp`, `watorword/treeword.cpp`,
`watorword/parrotword.cpp`). A sentence comes as a list of pieces (characters).
`DictionaryScan.dfy` finds the windows of pieces that are words, `WordGroups.dfy` fills gaps
and cuts the words into groups that nothing crosses, `WordLattice.dfy` says what the graph
of a group means, `LatticeBuilder.dfy` builds it and finds a shortest path,
`Segmentation.dfy` and `Coverage.dfy` put the groups together again, `DictionaryCosts.dfy`
says what hints and costs are in terms of the dictionary, `PhoenixWord.dfy` is the class and
`CutOff.dfy` a sentence it does not spell. `WordChains.dfy`, `PredictionWeights.dfy` and `PredictionTree.dfy` are the variant that enumerates all chains
and weighs them, `ParrotWord.dfy` the one that places words greedily.

**The text front end and the ranking** (`watorword/utf8.cpp`, `watorword/ctrlclaw.cpp`,
`watorword/ostrichword.cpp`, `utilities/service_ostrich_save_task.cpp`,
`browser-js/wai.base.js`). `Bits.dfy` defines the bitwise operators on natural numbers,
`Utf8Codec.dfy` the codec with all six lengths of RFC 2279, `Utf8Splitter.dfy` the splitter,
`CtrlClaw.dfy` the sentence cutter, `WindowCounts.dfy` and `SubWindows.dfy` the meaning of
the n-gram counts, `OstrichWord.dfy` the counting class, `WordRanking.dfy` and
`WordBuckets.dfy` the ranking filter, `RankingWire.dfy` its wire format, writer and reader,
`RankingBytes.dfy` that format byte by byte, `RankingPipeline.dfy` the way from an article to
the server, `BracedWord.dfy` an article that gets lost on it, and `WaiBase.dfy` the filters of
the browser.

## How

- Bytes are the integers 0 to 255, strings are sequences of bytes. Pieces, words and
  replies are byte strings; nothing depends on a character set but the UTF-8 modules.
- A class of the source is a class with the same fields; a `std::multimap` keyed by position
  is a sequence ordered by position, in which insertion goes behind equal keys, as in C++.
- Reads and writes of sockets are steps with every possible outcome. A read returns between
  one byte and a full buffer, or an error with nothing read: at the end of the stream, on a
  timeout or at any other time. A write takes everything, or fails after some of it. A ghost
  field counts these failures, so that the calls are known to fail for no other reason. The
  error code of the synchronous calls is an input too, since they never clear it.
- What code and statements share (type bytes, delimiters, limits, the dictionary lookup, the
  table of control characters, `find`) is said once more in statements that name none of
  it, with bytes and limits as numbers (`WireFormat.dfy`, `RankingBytes.dfy`,
  `DictionaryCosts.dfy`, `WordRanking.RankedIff`, `CtrlClaws.SentenceKinds`,
  `WindowCounts.CountIsSpots`).
- Weights are positive reals; the weight adjustment is any positive factor that depends on
  the length of the word. The dictionary is a map.
- The iteration order of a map (`OstrichWord`) or of the keys of an object (`WaiBase`) is a
  parameter: the results hold for every order.
- Numbers are unbounded, and where the source's could overflow the range is stated. The
  64-bit accumulator of `bufToLong` stays in range exactly as `RespProtocol.NoOverflowIff`
  says; beyond it the source is undefined. Replies count as well-formed if their lines are
  printable and their numbers stay in range (`RespProtocol.WellFormedIff`); -2^63 is the one
  `long` that RESP allows and that cannot be read. The theorems about arbitrary bytes
  (machine, reader, class) describe the source as far as its numbers stay in that range.
  Counts of rankings stay below INT_MAX in `RankingPipeline.RankingRoundTrip`.

## Where the code differs from what one would expect

The model follows the code. Each point is proved.

- `bufToLong` asserts that it reads digits, but the parser lets `-` through anywhere in a
  number. Every such text reaches the conversion, and the assertion holds if and only if no
  dash follows the first character (`RespRefinement.AssertionReachedIff`); ":1-2" breaks it
  and is read as 72 (`RespRefinement.AssertionBroken`). The model is the default build,
  which compiles the assertion out (`redisclient/CMakeLists.txt:29-59`).
- RESP forbids only CR and LF in simple strings and errors. The parser rejects every byte
  above 127 and every control character in them, so of the legal replies it reads exactly
  those whose lines are printable, and the others are protocol errors
  (`LegalReplies.LegalRoundTripIff`). The asynchronous client decodes nothing behind one
  (`LegalReplies.LegalStream`), and inside an array it leaves that array open
  (`LegalReplies.LineFails`). An error reply with an accented letter is an example
  (`LegalReplies.UnprintableError`). RESP also allows a plus sign in front of an integer; the
  parser rejects it (`LegalReplies.PlusSignFails`).
- An empty chunk given to an idle parser is reported as a completed value
  (`RedisParsers.RedisParser.ParseChunk`); every other chunk is parsed as the machine does.
- A parser that failed keeps its open arrays. The next reply is reported if and only if
  there are none (`RespRefinement.ReportedAfterErrorIff`); after "*2 !" it is swallowed, and
  after "*1 !" it comes out as an array around it (`RespRefinement.SwallowedAfterError`).
  The asynchronous client stops reading after an error; the synchronous one goes on.
- Commands wait although no write is in flight if and only if a write failed while commands
  were waiting and none was issued since (`AsyncClient.StalledRunIff`); two commands and a
  failed write are such a run (`AsyncClient.StalledRun`).
- Handlers and replies match for every k if and only if the server never sends more
  complete replies than commands were issued by then (`AsyncClient.FifoMatching`); a server
  that speaks first is an example (`WrittenCommands.ServerAhead`).
- In that matching, commands count when they are issued, and a server answers those that
  were written. A reply reaches the handler of the command it answers if and only if no write
  failed before that command was written, and otherwise that of an earlier command
  (`WrittenCommands.AnswersReach`); all replies do if and only if no write succeeds after a
  failed one (`WrittenCommands.AllOwnHandlersIff`). In a run of two commands the first one's
  handler gets the reply to the second one (`WrittenCommands.LostCommand`). A command counts
  as written when its write ends without an error.
- A synchronous call that fails once its command is written, on a timeout say, leaves its
  reply to the next call. So does a call whose error code is set on entry: it writes, does not
  read and returns nil (`SyncClient.RedisSyncClient.DoSyncCommand`). A call gets the reply to
  its own command if and only if no call before it failed in one of these ways
  (`SyncClient.OwnReplyIff`, `SyncClient.StaleReply`).
- Growing a prediction tree succeeds with up to 1025 leaves, but flattening it yields
  nothing above 1024; exactly at 1025 a caller is told of success and gets an empty list
  (`PredictionTrees.WidthLimitMismatch`, `PredictionTrees.Enumerate`).
- Greedy placement keeps the cells that a rejected word claimed before it was rejected. A
  word overlaps a selected one if and only if it has a cell of a selected one
  (`ParrotWords.OverlapsSelectedIff`), and the taken cells are those of selected words if
  and only if every rejected word found its first cell taken
  (`ParrotWords.TakenIsSelectedIff`). Then every rejected word overlaps a selected one
  (`ParrotWords.RejectedOverlapsSelected`). Otherwise it need not, however words are weighted
  by length: hints "abc", "ab" and "cd" with suitable weights are an example, and there "abc"
  shows that the condition is not necessary (`ParrotWords.RejectedByRejected`).
- The parts of a frequent string need not be as frequent as the string when the learnt
  pieces are ambiguous (`SubWindows.UnsplittablePartsCountLess`). For pieces cut by the
  splitter they are (`SubWindows.PartsCountMore`); splittable lists are sufficient
  and not necessary, as a list of one ambiguous piece counts nothing at all.
- A ranking reaches the server unchanged if and only if no word contains one of `{ } ; ,`
  (`RankingPipeline.RankingRoundTrip`); the words of well-formed multi-byte text never do
  (`RankingPipeline.WideWordsAreClean`), but one character whose last two bytes are braces,
  twice in a row, is ranked and not read back (`BracedWord.BracedIsNotRead`).
- The selected words spell the sentence if and only if every group has a tiling, the first
  hint starts the sentence and the last-positioned word ends it
  (`PhoenixWords.PhoenixWord.Cut`, `Segmentation.SelectionIsTextIff`). Text before the first
  hint and behind the last group is lost, since gap filling only fills between hints. So is
  the end of a word that reaches further than the last-positioned one, because a group
  counts as ending there (`watorword/phoenixword.graph.cpp:88`): with the words A, B and
  ABC, the sentence ABC can come out as AB (`CutOff.LastPositionedEndsEarly`).

## Model

| member | source | states |
|---|---|---|
| RespProtocol.TextToLongInverts | redisclient/amalgamated/redisclient.cpp:1305-1338 | the number conversion reads back every printed integer, negative ones included, and the printed text passes the parser's byte tests |
| RespProtocol.NoOverflowIff | redisclient/amalgamated/redisclient.cpp:1305-1338 | for every text the parser lets through, the 64-bit accumulator stays in range in every turn and at the change of sign if and only if its last turn and the result do |
| RespProtocol.DigitsConvertIff | redisclient/amalgamated/redisclient.cpp:1305-1338 | for a sign and digits that means a magnitude below 2^63 |
| RespProtocol.WellFormedIff | redisclient/amalgamated/redisclient.cpp:1305-1338 | of the replies whose lines are printable, the well-formed ones are exactly those whose numbers, lengths and counts keep the accumulator in range |
| WireFormat.AlphabetsIff | redisclient/amalgamated/redisclient.h:238-246 | lines hold the bytes 32 to 126, numbers the digits and 45, and RESP keeps 13 and 10 out of lines |
| WireFormat.LeadsIff | redisclient/amalgamated/redisclient.cpp:961-1000 | exactly the bytes 36, 42, 43, 45 and 58 start a reply, every other one is an error |
| WireFormat.TextToLongIsDecimal | redisclient/amalgamated/redisclient.cpp:1305-1338 | digits are read as the decimal number they denote, leading zeros included, and behind a dash as the negative one |
| WireFormat.IntTextIsDecimal | redisclient/amalgamated/redisclient.cpp:618-636 | numbers are printed in decimal without leading zeros |
| WireFormat.EncodingBytes | redisclient/amalgamated/redisclient.cpp:961-1256 | the encoding of each kind of reply with its bytes as numbers |
| WireFormat.IntegerOnWire | redisclient/amalgamated/redisclient.cpp:961-1256 | 58, a number, 13, 10 completes with the integer |
| WireFormat.BulkOnWire | redisclient/amalgamated/redisclient.cpp:961-1153 | 36, a length, 13, 10, as many bytes, 13, 10 completes with the bytes |
| WireFormat.LineOnWire | redisclient/amalgamated/redisclient.cpp:961-1063 | 43 or 45, printable text, 13, 10 completes with the text, as a string or as an error |
| WireFormat.NilOnWire | redisclient/amalgamated/redisclient.cpp:1064-1212 | the two nils and the empty array |
| WireFormat.ArrayOnWire | redisclient/amalgamated/redisclient.cpp:1177-1282 | 42, a count, 13, 10, as many replies completes with the array of their meanings |
| RespReader.ReadsEncoding | redisclient/amalgamated/redisclient.cpp:941-1293 | wherever a well-formed reply stands in a byte string, reading there yields its meaning and stops right behind it |
| RespMachine.PayloadCopy | redisclient/amalgamated/redisclient.cpp:1064-1130 | copying k payload bytes at once equals k single byte steps |
| RespMachine.ChunkIndependence | redisclient/amalgamated/redisclient.cpp:941-1293 | from every configuration, parsing a + b equals parsing a and, if that is unfinished, going on with b: same verdict, bytes consumed, value and resting configuration |
| RespMachine.DeliverKeepsOk | redisclient/amalgamated/redisclient.cpp:1257-1292 | handing a value to the open arrays keeps remaining + collected = declared at every level, with at least one element missing |
| RespMachine.StepKeepsOk | redisclient/amalgamated/redisclient.cpp:955-1292 | every byte step keeps that invariant |
| RespMachine.RunKeepsOk | redisclient/amalgamated/redisclient.cpp:941-1293 | so does every run, from and to any chunk boundary, failed runs included |
| RespRefinement.ReplyRefines | redisclient/amalgamated/redisclient.cpp:941-1293 | from inside any open arrays the machine and the reader agree on one reply: accepted, unfinished or rejected, at the same place, with the same value |
| RespRefinement.ManyRefine | redisclient/amalgamated/redisclient.cpp:1177-1206 | the machine's element count and its stacks collect exactly the replies that the reader reads one after the other |
| RespRefinement.MachineIsReader | redisclient/amalgamated/redisclient.cpp:941-1293 | the idle machine completes, waits or fails exactly when the reader does, with the same value and position |
| RespRefinement.RoundTrip | redisclient/amalgamated/redisclient.cpp:941-1338 | parsing the encoding of any reply with printable lines and numbers in range, whatever comes before and after, completes with its meaning and consumes exactly the encoding; `LegalReplies.LegalRoundTripIff` shows that the other legal replies fail |
| RespRefinement.PrefixWaits | redisclient/amalgamated/redisclient.cpp:1284-1292 | a proper prefix of an encoding is neither a reply nor an error |
| LegalReplies.LegalReadIff | redisclient/amalgamated/redisclient.cpp:986-1063 | every legal reply with numbers in range, inside any open arrays and whatever comes before and after: delivered with its meaning if its lines are printable, and a protocol error otherwise |
| LegalReplies.LegalRoundTripIff | redisclient/amalgamated/redisclient.cpp:941-1293 | the idle parser completes a legal reply with its meaning if and only if its lines are printable, and fails if and only if they are not |
| LegalReplies.LegalStream | redisclient/amalgamated/redisclient.cpp:745-779 | a stream of legal replies decodes to those in front of the first one with an unprintable line, and breaks there |
| LegalReplies.LineFails | redisclient/amalgamated/redisclient.cpp:986-1015 | a line fails at its first byte that is not printable, and the open arrays stay open |
| LegalReplies.UnprintableError | redisclient/amalgamated/redisclient.cpp:1001-1015 | a concrete legal error reply that the parser rejects |
| LegalReplies.PlusSignFails | redisclient/amalgamated/redisclient.cpp:1214-1235 | an integer with a plus sign is rejected |
| RespRefinement.AssertionReachedIff | redisclient/amalgamated/redisclient.cpp:1214-1338 | every nonempty text of digits and dashes reaches the conversion and is delivered as its value, and the assertion there holds if and only if no dash follows the first character |
| RespRefinement.AssertionBroken | redisclient/amalgamated/redisclient.cpp:1305-1338 | a concrete input that breaks the assertion |
| RespRefinement.ReportedIff | redisclient/amalgamated/redisclient.cpp:994-999 | from any stack of open arrays, a complete reply is reported as it is if and only if the stack is empty; otherwise it is delivered into the stack |
| RespRefinement.ReportedAfterErrorIff | redisclient/amalgamated/redisclient.cpp:994-999 | after any input that fails, the next reply is reported if and only if the error was outside all arrays |
| RespRefinement.SwallowedAfterError | redisclient/amalgamated/redisclient.cpp:994-999 | two concrete failing inputs: after the first the next reply is swallowed, after the second it is delivered inside an array |
| RedisParsers.RedisParser.BufToLong | redisclient/amalgamated/redisclient.cpp:1305-1338 | the loop computes the signed decimal value of the text |
| RedisParsers.RedisParser.PushElement | redisclient/amalgamated/redisclient.cpp:1257-1282 | appends the finished value to the innermost array and changes nothing else on the two stacks |
| RedisParsers.RedisParser.PopArray | redisclient/amalgamated/redisclient.cpp:1257-1282 | both stacks lose exactly their top, which becomes the current value |
| RedisParsers.RedisParser.FinishValue | redisclient/amalgamated/redisclient.cpp:1257-1282 | the closing loop delivers the value to the open arrays as the machine does and keeps the stack invariant |
| RedisParsers.RedisParser.OnStart | redisclient/amalgamated/redisclient.cpp:961-1000 | one turn of the switch is one machine step |
| RedisParsers.RedisParser.OnLine | redisclient/amalgamated/redisclient.cpp:986-1063 | the same for simple strings and errors |
| RedisParsers.RedisParser.OnDigits | redisclient/amalgamated/redisclient.cpp:1016-1235 | the same for the digits of integers and sizes |
| RedisParsers.RedisParser.OnIntegerLF | redisclient/amalgamated/redisclient.cpp:1236-1255 | the same for the end of an integer |
| RedisParsers.RedisParser.OnArraySizeLF | redisclient/amalgamated/redisclient.cpp:1177-1212 | the same for the end of an array size, with its nil, empty, negative and positive cases |
| RedisParsers.RedisParser.OnBulkSizeLF | redisclient/amalgamated/redisclient.cpp:1064-1114 | the same for the end of a bulk size, with the fast path that copies what the chunk already holds |
| RedisParsers.RedisParser.OnBulk | redisclient/amalgamated/redisclient.cpp:1115-1130 | taking as much of a payload as the chunk holds is a run of the machine |
| RedisParsers.RedisParser.OnBulkEnd | redisclient/amalgamated/redisclient.cpp:1131-1153 | one machine step for CR and for LF behind a payload |
| RedisParsers.RedisParser.Switch | redisclient/amalgamated/redisclient.cpp:955-1256 | every case of the switch does what the machine does on the bytes it consumes |
| RedisParsers.RedisParser.ParseChunk | redisclient/amalgamated/redisclient.cpp:941-1293 | a call does what the byte-step machine does: verdict, bytes consumed, value and resting configuration; unfinished means the whole chunk was consumed; the empty chunk on an idle parser is the one exception |
| RedisParsers.RedisParser.Result | redisclient/amalgamated/redisclient.cpp:1295-1303 | moves the value out |
| RespStream.RepliesSplit | redisclient/amalgamated/redisclient.cpp:745-779 | the replies of a + b are those of a followed by those of b decoded from where a left the parser |
| RespStream.RepliesOfEncodings | redisclient/amalgamated/redisclient.cpp:745-779 | a stream of encoded replies decodes to exactly their meanings and leaves the parser idle |
| AsyncClient.RedisClient.AsyncWrite | redisclient/amalgamated/redisclient.cpp:573-598 | a write completion empties the written buffer and, without error, starts writing all that is queued |
| AsyncClient.RedisClient.DoAsyncCommand | redisclient/amalgamated/redisclient.cpp:732-743 | queues command and handler and starts a write if none is in flight: the run model's step |
| AsyncClient.RedisClient.DoProcessMessage | redisclient/amalgamated/redisclient.cpp:553-571 | the value goes to the first waiting handler, or is reported as unexpected |
| AsyncClient.RedisClient.AsyncRead | redisclient/amalgamated/redisclient.cpp:745-779 | one read delivers exactly the replies the chunk completes, in order, and asks for more input unless the parser failed; a failed or empty read delivers nothing and reads no more |
| AsyncClient.WritePump | redisclient/amalgamated/redisclient.cpp:573-598 | after every run, failed writes included, at most one write is in flight and handed to the socket ++ in progress ++ queued are all commands in order; without write errors a waiting command implies a write in flight |
| AsyncClient.StalledIff | redisclient/amalgamated/redisclient.cpp:573-598 | one event later commands wait without a write in flight exactly if it is a failed write with commands waiting, or a read while they did so already |
| AsyncClient.StalledRunIff | redisclient/amalgamated/redisclient.cpp:573-598 | after a run they do if and only if some write failed with commands waiting and only reads followed |
| AsyncClient.StalledRun | redisclient/amalgamated/redisclient.cpp:573-598 | two commands and a failed write: a concrete run |
| AsyncClient.FailureStalls | redisclient/amalgamated/redisclient.cpp:573-598 | after a failed write the queue waits, and the next command sends all of it |
| AsyncClient.InOrderDelivery | redisclient/amalgamated/redisclient.cpp:732-779 | after every run the delivered values are what the received bytes decode to, however cut, reading goes on unless the stream is broken or a read failed, and called plus waiting handlers are all handlers in order |
| AsyncClient.UnexpectedMeansAhead | redisclient/amalgamated/redisclient.cpp:555-569 | a reply finds no handler if and only if some prefix of the run had more replies than commands |
| AsyncClient.FifoMatching | redisclient/amalgamated/redisclient.cpp:553-570 | the k-th reply goes to the handler of the k-th command, for all k, if and only if the server is never ahead |
| AsyncClient.RepliesReachHandlers | redisclient/amalgamated/redisclient.cpp:732-779 | end to end: encoded replies, cut into any reads, reach the handlers of the first commands with their meanings |
| WrittenCommands.AllAnswerableIff | redisclient/amalgamated/redisclient.cpp:573-598 | the commands whose write succeeded are at most those whose write ended, and all of them if and only if no write failed |
| WrittenCommands.OwnHandlerIff | redisclient/amalgamated/redisclient.cpp:553-598 | the command that answer number j is for is command number j if and only if no write failed before it was written, and a later one otherwise |
| WrittenCommands.AllOwnHandlersIff | redisclient/amalgamated/redisclient.cpp:553-598 | over a run, every answer is for the command of its own number if and only if no write succeeds after a failed one |
| WrittenCommands.AnswersReach | redisclient/amalgamated/redisclient.cpp:553-598 | answer number j goes to handler number j: the one of the command it answers, or after a failed write that of an earlier command |
| WrittenCommands.ServerAhead | redisclient/amalgamated/redisclient.cpp:553-571 | a reply before any command is reported as unexpected: a concrete run |
| WrittenCommands.LostCommand | redisclient/amalgamated/redisclient.cpp:553-598 | a concrete run in which the first write fails and the first handler gets the reply to the second command |
| RedisCommands.MakeCommand | redisclient/amalgamated/redisclient.cpp:618-636 | writes 42, the number of items, 13, 10, and for each item 36, its length, 13, 10, the item, 13, 10: the RESP encoding of an array of bulk strings |
| RedisCommands.CommandBytes | redisclient/amalgamated/redisclient.cpp:618-636 | that is the encoding of the command, byte for byte |
| RedisCommands.ParserInvertsMakeCommand | redisclient/amalgamated/redisclient.cpp:618-636 | parsing a command returns its items byte for byte, CR LF inside them included, whatever follows |
| RedisCommands.GenerateArray | redisclient/benchmarks/redis-parser-benchmark.cpp:25-48 | writes the encoding of the nested array |
| RedisCommands.GeneratedArrayCompletes | redisclient/benchmarks/redis-parser-benchmark.cpp:25-48 | the parser completes every generated array and consumes all of it |
| SyncClient.RespondSplit | redisclient/amalgamated/redisclient.cpp:690-730 | parsing the buffered bytes first and the rest of the stream later makes no difference |
| SyncClient.RedisSyncClient.SocketReadSome | redisclient/amalgamated/redisclient.cpp:296-357 | between one byte and a full buffer off the front of the stream, or an error with nothing taken; an error always at its end; an error code set on entry stays set |
| SyncClient.RedisSyncClient.SocketWrite | redisclient/amalgamated/redisclient.cpp:396-436 | everything, or an error after a proper prefix; an error code set on entry stays set |
| SyncClient.RedisSyncClient.SocketWriteAll | redisclient/amalgamated/redisclient.cpp:438-451 | several buffers: everything, or an error after a proper prefix; with an error code set on entry nothing behind the first buffer |
| SyncClient.RedisSyncClient.Refill | redisclient/amalgamated/redisclient.cpp:696-703 | refilling the empty buffer leaves buffer ++ unread stream unchanged, whatever number of bytes came or whether it failed |
| SyncClient.RedisSyncClient.MoveDown | redisclient/amalgamated/redisclient.cpp:712-713 | the unread rest moves to the front of the buffer, nothing lost |
| SyncClient.RedisSyncClient.ParseBuffered | redisclient/amalgamated/redisclient.cpp:705-728 | one parse call and the move behind it keep the response that the pending stream determines |
| SyncClient.RedisSyncClient.SyncReadResponse | redisclient/amalgamated/redisclient.cpp:690-730 | returns the first reply of the pending stream and leaves exactly the bytes behind it; fails if and only if a read of the socket does, which happens at the latest when the stream ends, and then that reply is still the next one; a protocol error gives nil and one call of the error handler; with an error code set on entry it fails if and only if the buffer does not hold the whole response |
| SyncClient.RedisSyncClient.DoSyncCommand | redisclient/amalgamated/redisclient.cpp:637-650 | sends the encoded command and returns that response; fails if and only if a write or a read of the socket does, after a failed write with a prefix sent and nothing read; with an error code set on entry it sends the command, reads nothing and always fails |
| SyncClient.RedisSyncClient.DoSyncCommands | redisclient/amalgamated/redisclient.cpp:652-688 | sends all commands and returns as many responses of the pending stream, in order, nil and a call of the error handler for each protocol error; without a socket failure a pipeline that is answered gets exactly the meanings of its replies; it fails if and only if the socket does, dropping what was read before; with an error code set on entry it sends at most the first command, reads nothing and always fails |
| SyncClient.ResponsesAcrossCalls | redisclient/amalgamated/redisclient.cpp:652-730 | reading a and then b responses is reading a + b, protocol errors included: what one call leaves is where the next one starts |
| SyncClient.PipelineAnswers | redisclient/amalgamated/redisclient.cpp:652-730 | a pipeline answered with n encoded replies returns their meanings in order and leaves whatever follows |
| SyncClient.OwnReplyIff | redisclient/amalgamated/redisclient.cpp:637-730 | over any sequence of calls, a successful call returns the reply behind those already returned, which is the one to its own command if and only if no call before it failed once its command was written |
| SyncClient.StaleReply | redisclient/amalgamated/redisclient.cpp:637-730 | a call that times out anywhere inside its reply, or whose error code was set on entry, and the next one returning that reply |
| WordElements.Filed | watorword/phoenixword.cpp:89-162 | inserting into the multimap keeps every element as often as inserted, ordered by position |
| DictionaryScan.HitsSound | watorword/phoenixword.cpp:89-162 | every recorded hint is a window of 1 to 32 consecutive pieces with positive weight |
| DictionaryScan.HitsComplete | watorword/phoenixword.cpp:89-162 | every such window is recorded |
| DictionaryScan.HitsDistinct | watorword/phoenixword.cpp:89-162 | no two hints have the same position and length |
| DictionaryScan.WindowIsSlice | watorword/phoenixword.cpp:126-154 | the position kept by repeated subtraction and the length delimit the window's slice of the text |
| DictionaryCosts.HitsAreEntries | watorword/phoenixword.cpp:89-162 | the hints are exactly the words of the dictionary that 1 to 32 consecutive pieces spell, each with its offset, its length and the weight the dictionary gives it, which is positive |
| DictionaryCosts.GroupsWeighed | watorword/phoenixword.cpp:166-285 | every word of a group weighs what the dictionary gives for it, or 0.00000001 if it fills a gap, times the factor for its length |
| DictionaryCosts.BestIsCheapest | watorword/phoenixword.graph.cpp:68-219 | the words selected from a group tile it and cost no more than any other words that do, with the cost computed from the dictionary and the factors; none are selected if and only if none tile it |
| WordGroups.GapFilling | watorword/phoenixword.cpp:166-193 | after gap filling the words are ordered, distinct, slices of the text, contain all hints, and neighbours leave no gap |
| WordGroups.GroupsPartition | watorword/phoenixword.cpp:253-285 | the groups are an order-preserving partition that is cut exactly where no earlier word reaches over |
| WordGroups.GroupsFinest | watorword/phoenixword.cpp:253-285 | every other partition that no word crosses is coarser |
| WordGroups.GroupsAbut | watorword/phoenixword.cpp:253-285 | each group's last word ends exactly where the next group starts, as far as any word of the group reaches |
| WordGroups.CutTest | watorword/phoenixword.cpp:261-278 | the comparison with the running maximum recognises exactly the cuts |
| WordLattice.PathIsTiling | watorword/phoenixword.graph.cpp:68-158 | every path from start to end runs through a tiling of the group's stretch |
| WordLattice.TilingIsPath | watorword/phoenixword.graph.cpp:68-158 | every tiling is such a path |
| WordLattice.TilingSpells | watorword/phoenixword.graph.cpp:68-158 | the words of a tiling concatenate to the slice of the text |
| WordLattice.ShortestPathIsBestTiling | watorword/phoenixword.graph.cpp:175-205 | the shortest-path tree gives a cheapest tiling, and the end vertex is its own parent exactly when there is none |
| LatticeBuilder.BuildTable | watorword/phoenixword.graph.cpp:73-93 | one vertex per word and the end vertex, filed by position, and the end of the last word |
| LatticeBuilder.AddStart | watorword/phoenixword.graph.cpp:95-110 | edges from the start to exactly the words at the first position, at cost 1/weight |
| LatticeBuilder.AddHint | watorword/phoenixword.graph.cpp:116-157 | the edges of one hint are exactly the lattice edges that leave the vertex it names |
| LatticeBuilder.BuildGraph | watorword/phoenixword.graph.cpp:68-157 | the edges of the built graph are exactly those of the lattice |
| LatticeBuilder.ShortestPaths | watorword/phoenixword.graph.cpp:175-181 | a shortest-path tree of the graph, every vertex that is not reached its own parent |
| LatticeBuilder.CollectPath | watorword/phoenixword.graph.cpp:200-205 | the backward walk collects the tree path |
| Segmentation.AdjustedKeeps | watorword/phoenixword.cpp:226-248 | adjusting weights keeps order, places, coverage and positivity |
| Segmentation.SelectionSpells | watorword/phoenixword.cpp:287-303 | abutting groups with tilings select words that spell the text from the first group to the last |
| Segmentation.SelectionIsTextIff | watorword/phoenixword.cpp:287-303 | the selected words spell the whole text if and only if every group has a tiling, the first word starts the text and the last-positioned one ends it |
| Segmentation.SelectAppends | watorword/phoenixword.graph.cpp:206-218 | words of a later group are inserted behind everything selected before |
| PhoenixWords.KnownPiecesTile | watorword/phoenixword.cpp:44-67 | when the dictionary knows every single piece, every group has a tiling and the groups reach from the start of the text to its end |
| PhoenixWords.PhoenixWord.GetRawRank | watorword/phoenixword.cpp:89-162 | the sliding list of 31 pieces and the running position record exactly the words of the dictionary of the language, with its weights; none for another language |
| PhoenixWords.PhoenixWord.GetOutRank | watorword/phoenixword.cpp:166-193 | inserts the gaps between neighbouring hints in place |
| PhoenixWords.PhoenixWord.AdjustRank | watorword/phoenixword.cpp:235-248 | the adjusted words in the order of the hints |
| PhoenixWords.PhoenixWord.GetNoConflictSeq | watorword/phoenixword.cpp:253-285 | computes the finest partition |
| PhoenixWords.PhoenixWord.SelectPath | watorword/phoenixword.graph.cpp:206-218 | selection by word and position selects exactly the words on the path |
| PhoenixWords.PhoenixWord.CalcPredictionOf | watorword/phoenixword.graph.cpp:68-219 | selects the words of a cheapest tiling of the group, or nothing if there is none |
| PhoenixWords.PhoenixWord.CalcPrediction | watorword/phoenixword.cpp:287-303 | the selections of the groups, one behind the other |
| PhoenixWords.PhoenixWord.Cut | watorword/phoenixword.cpp:44-67 | the selected words are cheapest tilings for the weights of the dictionary, group after group, and the groups hold every word the dictionary knows; they spell the whole text if and only if every group has a tiling, the first hint starts the text and the last-positioned word ends it; so they do if the dictionary knows every piece |
| CutOff.LastPositionedEndsEarly | watorword/phoenixword.graph.cpp:76-93 | pieces and a dictionary for which every group has a tiling and the end of the text is lost |
| WordChains.ChainsExactly | watorword/treeword.cpp:87-130 | the enumeration holds exactly the maximal abutting chains from a position |
| WordChains.ChainsOnce | watorword/treeword.cpp:87-130 | each of them once |
| PredictionTrees.Forest.SetWordSeqFrom | watorword/treeword.cpp:87-130 | terminates for positive ranges; true exactly when the leaves stay at most 1025, and then the new leaves are the maximal chains, once and in order |
| PredictionTrees.Forest.SetWordSeq | watorword/treeword.cpp:42-83 | registers the words under fresh numbers and grows the tree from the first position |
| PredictionTrees.PredictionTree.GetPredSeq | watorword/treeword.cpp:250-273 | reads a node's chain back to the top and raises the largest weight to that of its words |
| PredictionTrees.Forest.FlatPredSeqInside | watorword/treeword.cpp:238-249 | every leaf, read back and reversed, is its chain, and the largest weight is that of all the words |
| PredictionTrees.Forest.FlatPredSeq | watorword/treeword.cpp:186-218 | with at most 1024 leaves, adds every chain under its share of the largest weight, behind equal keys, and sums the shares; with more it changes nothing |
| PredictionTrees.FileChain | watorword/treeword.cpp:196-218 | the body of the loop: an empty chain is skipped, any other is filed under 65535 times the average weight of its words over the largest weight, cut off to an integer |
| PredictionWeights.InsertPredBetween | watorword/treeword.cpp:213-218 | an entry is filed behind those with its key and before those with a larger one |
| PredictionWeights.FlattenedIs | watorword/treeword.cpp:186-218 | flattening keeps every chain as often as it occurs, in order of rising keys; the largest weight is that of one of the words |
| PredictionWeights.FlattenedKeys | watorword/treeword.cpp:196-218 | keys are between 0 and 65535, and 65535 if and only if all words of the chain have the largest weight |
| PredictionTrees.Enumerate | watorword/treeword.cpp:42-130 | a fresh tree, grown and flattened, yields all maximal chains once, filed by their shares, with the sum of these, or nothing above 1024; growing succeeds up to 1025 |
| PredictionTrees.WidthLimitMismatch | watorword/treeword.cpp:85-92 | n words side by side have n maximal chains, so the two limits do differ at 1025 |
| ParrotWords.ParrotWord.RankByWeight | watorword/parrotword.cpp:125-137 | the adjusted words, all of them, ordered by weight |
| ParrotWords.ConsideredOrder | watorword/parrotword.cpp:120-150 | the words considered are all adjusted hints, by falling weight, each starting inside the placeholder |
| ParrotWords.ParrotWord.Claim | watorword/parrotword.cpp:162-174 | a word claims its cells up to the first taken one, and is placed exactly when none was taken |
| ParrotWords.ParrotWord.CalcPrediction | watorword/parrotword.cpp:120-181 | considers all words by falling weight and selects exactly those whose cells are free when considered; they do not overlap, and the heaviest is among them |
| ParrotWords.ChosenDisjoint | watorword/parrotword.cpp:151-179 | selected words never overlap, not even where they run past the placeholder |
| ParrotWords.RejectedOverlaps | watorword/parrotword.cpp:151-179 | a rejected word overlaps an earlier considered word of at least its weight |
| ParrotWords.OverlapsSelectedIff | watorword/parrotword.cpp:151-179 | a word overlaps a selected one, considered at any time, if and only if one of its cells belongs to a selected one |
| ParrotWords.TakenIsSelectedIff | watorword/parrotword.cpp:151-179 | the taken cells are exactly those of the selected words if and only if every rejected word found its first cell taken |
| ParrotWords.RejectedOverlapsSelected | watorword/parrotword.cpp:151-179 | then every rejected word overlaps a selected one |
| ParrotWords.RejectedByRejected | watorword/parrotword.cpp:164-174 | otherwise it need not: three hints, for every weighting by length, placed through the same order and placeholder; the condition is not necessary either |
| ParrotWords.PlacementSound | watorword/parrotword.cpp:151-179 | the selection holds exactly the words that were free when considered, no two of them overlap, and the heaviest word is among them |
| Utf8Codec.MaskedIsAtLeast | watorword/utf8.cpp:32-56 | each mask test on a byte is a comparison with the mask |
| Utf8Codec.UnicodeToUtf8 | watorword/utf8.cpp:112-134 | the bit loop computes the row of the table in section 2 of RFC 2279 for every code point below 2^31 |
| Utf8Codec.Utf8ToUnicode | watorword/utf8.cpp:136-159 | the shifting loop takes exactly the announced bytes off the queue and computes their payload digits |
| Utf8Codec.DecodeInverts | watorword/utf8.cpp:112-159 | decoding an encoding, whatever follows, gives the code point and stops behind the encoding |
| Utf8Codec.ShortestForm | watorword/utf8.cpp:112-134 | of all well-formed byte strings for a code point the encoding is the shortest and the only one of its length |
| Utf8Splitter.ParseUTF8 | watorword/utf8.cpp:62-110 | appends the pieces of the article and the prefix sums of their lengths |
| Utf8Splitter.PiecesJoin | watorword/utf8.cpp:17-110 | the pieces concatenate to the text, and only the last can be shorter than announced |
| Utf8Splitter.PiecesUnique | watorword/utf8.cpp:17-110 | no other list of such pieces has the same text |
| Utf8Splitter.SplitApart | watorword/utf8.cpp:17-110 | two texts split independently of each other exactly when the first does not end inside a character |
| Utf8Splitter.PiecesOfEncodings | watorword/utf8.cpp:17-134 | the pieces of encoded code points are the encodings |
| CtrlClaws.ClawingUnique | watorword/ctrlclaw.cpp:46-114 | there is only one way to cut pieces into alternating homogeneous sentences |
| CtrlClaws.ClawingLossless | watorword/ctrlclaw.cpp:46-114 | the sentences' texts concatenate to the article |
| CtrlClaws.MultiSentence | watorword/ctrlclaw.cpp:57-114 | multi-byte sentences hold only pieces of three bytes or more that are no control characters, split into the same pieces again, and claw to themselves |
| CtrlClaws.SentenceKinds | watorword/ctrlclaw.cpp:14-93 | the same of every clawing, read off the table |
| CtrlClaws.ControlCuts | watorword/ctrlclaw.cpp:14-114 | a control character between two wide characters cuts them into two sentences |
| CtrlClaws.CtrlClaw.PushMulti | watorword/ctrlclaw.cpp:63-76 | the slice of the article between two positions is the text of the pending pieces |
| CtrlClaws.CtrlClaw.PushLast | watorword/ctrlclaw.cpp:94-113 | the trailing branch completes the cut |
| CtrlClaws.CtrlClaw.Claw | watorword/ctrlclaw.cpp:46-114 | cuts the article into homogeneous sentences of alternating kind whose pieces are those of the article; those of multi-byte sentences have three bytes or more and are not set in the table of control characters, all others have at most two or are set in it |
| CtrlClaws.CtrlClaw.Cut | watorword/ctrlclaw.cpp:40-44 | only splits |
| OstrichWords.OstrichWord.PushMultiWord | watorword/ostrichword.cpp:104-111 | raises one count by one |
| OstrichWords.OstrichWord.PushEnding | watorword/ostrichword.cpp:32-38 | counts the windows of two and more pieces that end with one piece |
| OstrichWords.OstrichWord.Learn | watorword/ostrichword.cpp:25-44 | after any calls the map holds, for every string, exactly the number of 2 to 32 piece windows of all learnt lists that join to it |
| WindowCounts.CountIsSpots | watorword/ostrichword.cpp:25-44 | a count is the number of places in the learnt lists where a run of 2 to 32 pieces spells the string |
| SubWindows.PartCounts | watorword/ostrichword.cpp:25-44 | whatever was learnt, the text of two or more pieces counts at least as often as any run of pieces containing them occurs |
| SubWindows.TextCounts | watorword/ostrichword.cpp:25-44 | over split text a string's count is the number of occurrences of its pieces |
| SubWindows.PartsCountMore | watorword/ostrichword.cpp:25-44 | over split text every part of a counted string is counted, at least as often |
| SubWindows.UnsplittablePartsCountLess | watorword/ostrichword.cpp:25-44 | over ambiguous pieces that fails: a concrete input |
| WordRanking.TopDominator | watorword/ostrichword.cpp:66-78 | above every word inside a longer word of its count there is one that is inside none |
| WordRanking.DroppedInsideRanked | watorword/ostrichword.cpp:48-92 | every frequent word left out lies inside a longer reported word of the same count |
| WordRanking.InsideIff | watorword/ostrichword.cpp:66-78 | a word is found inside another if and only if that is the word with something in front and behind |
| WordRanking.RankedIff | watorword/ostrichword.cpp:48-92 | a word is worth reporting if and only if it is frequent and no word of its count is the word with something around it |
| WordRanking.LeftOutIsSurrounded | watorword/ostrichword.cpp:48-92 | a frequent word left out is reported with something around it, at the same count |
| WordBuckets.BucketIs | watorword/ostrichword.cpp:65-91 | comparing within a bucket keeps exactly the words that no word of their count contains |
| WordBuckets.ReportExactly | watorword/ostrichword.cpp:48-92 | the report is exactly the frequent words inside no other word of their count, by rising count and then in map order, each once |
| WordBuckets.EmptyReport | watorword/ostrichword.cpp:93-100 | nothing is reported exactly when no word is frequent |
| OstrichWords.OstrichWord.Collect | watorword/ostrichword.cpp:48-60 | the frequent words in buckets by count |
| OstrichWords.OstrichWord.ReportBucket | watorword/ostrichword.cpp:65-91 | writes the words of one bucket that are in no other word of it |
| OstrichWords.WriteWord | watorword/ostrichword.cpp:79-89 | writes one entry, and sends the batch when the counter reaches a multiple of 256 |
| OstrichWords.OstrichWord.PickupWordRanking | watorword/ostrichword.cpp:46-102 | sends exactly the words counted three times or more that no word of their count has with something around, by rising count and then in map order, in batches of 255, then 256, then the rest, none lost; the empty batch alone if there are none |
| RankingWire.SplitTokens | utilities/service_ostrich_save_task.cpp:45-48 | no token holds a delimiter, nor a byte the text does not have |
| RankingWire.StoiInverts | utilities/service_ostrich_save_task.cpp:61-65 | the number parser reads back every printed count up to the largest int |
| RankingWire.BatchRoundTrip | utilities/service_ostrich_save_task.cpp:43-72 | a batch of clean words is read exactly as written |
| RankingWire.WireRoundTrip | utilities/service_ostrich_save_task.cpp:43-72 | however the entries are batched, they are read back in order if and only if no word contains a delimiter |
| RankingWire.EachWord | utilities/service_ostrich_save_task.cpp:43-72 | calls the handler for exactly the tokens with two parts and a positive number, in order |
| RankingBytes.SentTexts | watorword/ostrichword.cpp:62-101 | the texts byte for byte: 123, word, 44, number, 125, 59 for each entry, 123, 125 behind them; 255 entries in the first text and 256 in each of the next |
| RankingBytes.EntryIsThird | watorword/ostrichword.cpp:79-84 | the number sent for a word is a third of its count |
| RankingBytes.CleanIff | utilities/service_ostrich_save_task.cpp:43-55 | the delimiters are 123, 125, 59 and 44 |
| RankingBytes.StoiReads | utilities/service_ostrich_save_task.cpp:61-65 | spaces, at most one sign, digits and anything behind them are read as the decimal number, or throw outside the range of an int |
| RankingBytes.StoiThrows | utilities/service_ostrich_save_task.cpp:61-70 | text without digits there throws |
| RankingBytes.PairCalls | utilities/service_ostrich_save_task.cpp:51-70 | a token of two parts, however many commas are between them, calls the handler if and only if the second is a positive number |
| RankingBytes.OthersCallNothing | utilities/service_ostrich_save_task.cpp:51-70 | tokens of one part and of three and more call nothing |
| RankingPipeline.RankingRoundTrip | watorword/ostrichword.cpp:62-101 | the server reads from a ranking exactly the ranked words with a third of their counts, in order, if and only if no ranked word contains a delimiter |
| BracedWord.BracedIsNotRead | watorword/ostrichword.cpp:62-101 | a ranked word with delimiters, and whatever batches are sent, the server does not read the ranked words |
| BracedWord.BracedCounts | watorword/ostrichword.cpp:25-44 | that word is counted three times when its sentence is learnt three times |
| BracedWord.BracedClaws | watorword/ctrlclaw.cpp:46-114 | the sentence cutter makes that sentence |
| RankingPipeline.WideWordsAreClean | watorword/ostrichword.cpp:25-44 | words counted from well-formed multi-byte characters never do |
| RankingPipeline.ClawedIsWellFormed | watorword/ctrlclaw.cpp:46-114 | the sentences of encoded text consist of well-formed characters of three bytes or more |
| WaiBase.FilterOutLowFreq | browser-js/wai.base.js:71-81 | keeps exactly the words counted five times or more, for every key order |
| WaiBase.FilterOutInside | browser-js/wai.base.js:83-100 | deleting while scanning removes exactly the words that another word of their count has with something around, for every key order |
| WaiBase.SameRanking | browser-js/wai.base.js:50-54 | both filters together keep the words that the trainer's ranking with the same threshold reports |

## Left out

- Sockets, `poll`, boost::asio, strands, timeouts and the connect code: foreign calls; reads and writes are steps with every outcome, time is not modelled.
- Subscriptions and their messages, and closing from inside a handler: the client is modelled in its connected state and handlers do not call back into it.
- Error handlers that throw: the model's error handler returns.
- The rounding of weights in `double` arithmetic, and `pow`: weights are positive reals and the adjustment a positive factor, so costs that underflow or overflow are not modelled.
- LatticeBuilder.ShortestPaths: boost's Dijkstra is replaced by a relaxation in position order that is proved to meet the same contract; which of several equally cheap paths boost picks is not modelled.
- `statisticsRank_` and `statisticsMinWordSize_`: bookkeeping that only feeds the adjustment factor.
- `PredictionTree::splitComplexWordSeq` and `getNoConflictSeq` in `watorword/word_statistics_parrot.cpp`: their loops can step past the end, so they have no intended result.
- The scan of `ParrotWord::getRawRank`, the summaries, pair collection and learning of `PhoenixWord`, and the copies in `ZhiziWord`: the same patterns again.
- `createGraph` and all graphviz output: drawing only.
- `pickupWordRankingJson`: the same ranking in another format.
- `OstrichWord::commitArticle`, the storages behind the server, LevelDB, IPFS, crawlers, UDP servers and the browser's page: input and output.
- The concrete control characters of `CtrlClaw`: the set is a constructor argument and the results hold for every set.
- RedisParsers.RedisParser.OnArraySizeLF: does not model that the source reserves room for the announced number of elements, and throws when it is too large for that; the model goes on, as far as 2^63.
- RedisParsers.RedisParser.OnBulkSizeLF: nor that it reserves the announced size of a payload, which throws in the same way.
- ParrotWords.RejectedOverlapsSelected: one direction; its condition is sufficient and not necessary, as RejectedByRejected shows, and the exact one for a single word is OverlapsSelectedIff.
- Utf8Codec.Utf8ToUnicode: the queue must hold the bytes its lead byte announces and that byte be below 0xFE; the source checks neither, pops an empty queue in the first case and shifts an `int` by 36 bits and more in the second, both undefined.
- `utf8toCode`: on platforms with a signed `char` it passes negative numbers; the codec is modelled on bytes from 0 to 255.
- `mergeCollect_` and the sentence scan of the browser: sums and loops without more to prove.
- nlohmann-json and boost::split are libraries; the latter is modelled by its documented behaviour.
