# Verified model of the Riak C client's core

Riak's C client talks to the server in length-prefixed frames: four length bytes in network order
(Appendix B of RFC 791), one message id, and a protobuf body. This project models the code that reads,
writes, decodes, stores, prints and compares what travels in them, and proves properties of every run of it.

| file | what it holds |
|---|---|
| `Wire.dfy`, `Framing.dfy` | bytes, 32-bit words on hosts of either byte order, frames and their unique decoding |
| `Reader.dfy` | the state machine inside `riak_read`, one step for each call of the read callback, in two variants |
| `ReaderProperties.dfy` | what every run of the resumable variant keeps: conservation, chunking independence, progress |
| `AsWrittenReader.dfy` | exactly when the code as written is that machine, and what it does otherwise |
| `EventLoop.dfy` | calls under a callback that hands out all it has; the libevent adapter over any arrivals |
| `Operation.dfy`, `Writing.dfy`, `Callers.dfy` | `riak_read`, `riak_write`, the synchronous functions and the libevent callback on a heap |
| `Growth.dfy`, `Streaming.dfy` | reallocation and the decoders of streamed responses |
| `Callbacks.dfy` | an operation with its callbacks against the same operation without: asynchronous against synchronous use |
| `EndToEnd.dfy` | framing, chunking, accumulation and callbacks together, over every run |
| `StreamCalls.dfy` | one call on a stream, and the event loop over one: what is handed out, and when |
| `RiakArrays.dfy` | the doubling array |
| `Binaries.dfy`, `Printing.dfy` | order and printing of byte strings; the bounded print state |
| `Objects.dfy`, `Comparison.dfy` | object conversion and comparison |

`dafny verify dfyconfig.toml` checks all of it with Dafny 4.11.

## How the model reads

- The read callback is nondeterministic: it returns any number of bytes up to the size asked for, or -1.
  Protobuf unpacking is an arbitrary function from bytes to an optional record. The contents of memory
  fresh from `malloc` are an arbitrary function (`Config.junk`).
- Behaviour that C leaves undefined is the outcome `Fault` (a decoder's is `Crashed`): an access outside a
  buffer, a NULL dereference, a failed assertion. A frame of announced length zero is one, since the code
  then looks at the id byte of an empty buffer.
- `Variant.AsWritten` is what `riak_read` does, and what `RiakOperation.Read` is proved to do.
  `Variant.Resumable` differs in two reads only, and is what the comments at `src/riak.c:432-433` and
  `src/riak.c:444-445` describe.
- Methods that change state are proved against functions; the theorems are lemmas about those functions.
  Runs of successive `riak_read` calls are joined by `AsWrittenReader.RunsConcatenate`.
- Callbacks are optional: theorems about streamed responses hold with and without them and say what the
  response itself is. The synchronous functions make their operations without any (`Callbacks.Quiet`).
- A theorem about runs is stated twice: of the resumable reader without any condition on chunking, arrival
  or split into calls, and, in a corollary whose name starts with `Clean` or in its own last clause, of the
  code as written over reads that neither continue a length field nor fail inside a body.

## Where the code departs from what it is for

Each departure is kept as it is in the code; the condition under which it does no harm is proved exact.

- A length field that arrives in pieces is not resumed: `position` is assigned, not advanced
  (`src/riak.c:447`), and not reset when the field is whole (`src/riak.c:454-455`). A read does what the
  resumable reader does exactly when it does not continue such a field and is not a failed read of a body
  (`StepsAgreeExactlyWhenClean`); `SplitLengthShiftsTheFrame` gives the effect for every split in two, and
  `FrameAfterPieces` for any number of pieces, and `SplitLengthPoisonsTheFrame` for every way of going on.
- A failed read inside a body is added to the position as an unsigned -1 (`src/riak.c:470-472`):
  `FailedBodyReadForgetsAByte`, `FailedFirstBodyRead`.
- The synchronous path ignores `done_streaming` (`src/riak.c:74-79`), so a call whose last read came up
  short hands out an unfinished response as OK: `UnfinishedExactlyWhenReadIsShort`, `Callers.ListKeys`.
- `riak_write` tests only for zero, so a short write or a failed one passes for success, and the one body of
  2^32 - 1 bytes is announced as empty (`src/riak.c:541-549`): `FrameGoesOutExactlyWhen`, `OnlyZeroFails`,
  `LongestBodyIsAnnouncedAsEmpty`.
- The error callback runs twice for one error frame: `ErrorsAreReportedTwice`.
- The 2i key cursor steps over at most one chunk (`src/messages/riak_2i.c:181-184`), and the results loop
  takes success for failure (`src/messages/riak_2i.c:189`), which also hides that it is bounded by the wrong
  count (`src/messages/riak_2i.c:195`): `Flatten`, `NoResultIsHandedOut`, `IndexAnsweredExactlyWhen`.
- The doubling loop needs a capacity to double; a position of 2^63 or more passes the signed range test, and
  removing at half of these takes some other element out and reports success; removing from a full array
  reads one slot behind it: `DoublingEndsExactlyWhen`, `FailureChangesNothing`, `RiakArray.RemoveAt`.
- Comparing with a C string keeps the string's length in an `int`: `CompareStringAgrees`.
- The binary printers store more than `len` bytes in some cases: `StoresAtMostLenExactlyWhen`,
  `BinaryPrintersStayInsideExactlyWhen`.
- Comparing objects is not transitive, and looks at charset, content type and encoding even where they are
  absent: `ZeroIsTransitiveThroughBridges`, `ZeroIsNotTransitive`, `ReadBackComparesEqual`.

## Model

| member | source | states |
|---|---|---|
| `Wire.HostOrderIsInvisible` | src/riak.c:434-455 | on a host of either byte order, `ntohl` of four received bytes is their network-order value, and what `htonl` leaves in memory is the network-order bytes |
| `Wire.FirstByteWeighsMost` | src/riak.c:455 | network order: of the four bytes of a number the first weighs 2^24, the last one |
| `Wire.MemoryByWeight` | src/riak.c:434-440 | a word in memory: on a big-endian host the lowest byte weighs most, on a little-endian one least |
| `Framing.ParseThenEncode` | src/riak.c:429-485 | cutting frames off a byte string loses nothing: re-encoding them and appending the rest gives the string back |
| `Framing.EncodeThenParse` | src/riak.c:536-550 | frames are uniquely decodable whatever follows them |
| `Reader.AdvanceIsUnsignedAddition` | src/riak.c:472 | the position is advanced as a 32-bit field to which a size_t, possibly -1, is added |
| `ReaderProperties.StepKeepsGood` | src/riak.c:429-485 | each read of the resumable reader keeps the invariant and accounts for exactly the bytes it was given |
| `ReaderProperties.RunConserves` | src/riak.c:429-485 | over every run the bytes consumed are the delivered frames, re-encoded, followed by the bytes held: nothing lost, repeated or reordered |
| `ReaderProperties.RunIsDenoted` | src/riak.c:431-485 | chunking independence: after any run, over any number of calls and short reads, the whole state (fields, buffer, frames, response, callbacks) is a function of the bytes consumed |
| `ReaderProperties.ChunkingIsInvisible` | src/riak.c:431-485 | two runs that consumed the same bytes end in the same state |
| `ReaderProperties.RunIsDefinedExactlyWhenSound` | src/riak.c:468-485 | behaviour stays defined exactly when no announced length is zero and no frame crashes its dispatch; in particular the buffer is never overrun and the assertion at line 478 holds |
| `ReaderProperties.TurnConsumes` | src/riak.c:429-485 | each turn of the loop that starts at a length field and does not exit consumes the rest of the field and a whole body of at least one byte, so five bytes from a frame boundary, and ends at one |
| `ReaderProperties.ReadsAreBounded` | src/riak.c:429-485 | the reads of one call of the resumable reader, from any state between calls, are bounded by the bytes it consumes: five bytes for two reads, but for a constant |
| `ReaderProperties.LaterBytesParseAfresh` | src/riak.c:480-524 | resynchronisation: whichever way a whole frame leaves `riak_read`, later bytes are cut into frames as by a fresh operation |
| `ReaderProperties.DispatchByWays` | src/riak.c:490-527 | every way through the dispatch, for each setting of the callbacks: no decoder, server error (id 0), decoder crashed, failed, asking for more, done; what becomes of the response, which callback is called with what, and the result |
| `ReaderProperties.ErrorsAreReportedTwice` | src/riak.c:495-507 | for any list of frames the error callback gets each server error twice if there is one, nothing is called otherwise, and no response survives an error |
| `ReaderProperties.AnswersAreReported` | src/riak.c:519-524 | for any list of frames the response callback, if there is one, gets each completed response and nothing else |
| `ReaderProperties.CallbackLog` | src/riak.c:490-527 | the calls made over any run, for each of the four settings of the callbacks, as a function of the bytes consumed |
| `ReaderProperties.CallReports` | src/riak.c:487-527 | for both variants, every state and every call: the response callback runs once, with the response there is then, if the call returns OK and done, and otherwise not at all; the error callback runs twice exactly on a server error; undefined behaviour is reported as such |
| `ReaderProperties.DoneCallEndsFrame` | src/riak.c:480-527 | a call that returns done returns what the dispatch of the last whole frame says |
| `AsWrittenReader.StepsAgreeExactlyWhenClean` | src/riak.c:431-478 | in every state, the code as written and the resumable reader do the same with a read if and only if it neither continues a partial length field nor fails inside a body, or the position is already past the buffer |
| `AsWrittenReader.CleanRunsAgree` | src/riak.c:429-485 | simulation: along clean reads the code as written goes through exactly the states of the resumable reader |
| `AsWrittenReader.UncleanRunsDiverge` | src/riak.c:444-455 | a run that is not clean has a read at which the two, equal until then, part |
| `AsWrittenReader.RunsConcatenate` | src/riak.c:419-528 | the runs of successive calls make one run, clean exactly if both are |
| `AsWrittenReader.CleanRunIsDenoted` | src/riak.c:429-485 | for the code as written, the state after a clean run is the one the consumed bytes denote |
| `AsWrittenReader.SplitLengthShiftsTheFrame` | src/riak.c:441-485 | for every split of a length field into p and 4-p bytes: the delivered frame starts with p uninitialised bytes and p bytes of its body stay unread, or the buffer is overrun if the body is shorter than p |
| `AsWrittenReader.SplitLengthInPieces` | src/riak.c:431-463 | a length field in any number of pieces: each is stored at the length of the one before it, the announced length is the network value of the bytes so laid over each other, and the position left is the length of the last piece but one |
| `AsWrittenReader.FrameAfterPieces` | src/riak.c:431-485 | so the frame delivered next starts with that many uninitialised bytes, or the buffer is overrun |
| `AsWrittenReader.FailedReadChangesNothing` | src/riak.c:441-452 | a failed read of a length field is an error, not done, and changes nothing, in both variants |
| `AsWrittenReader.SplitLengthPoisonsTheFrame` | src/riak.c:441-485 | from every state with part of a length field, over every run without a failed read: the next frame delivered starts with a byte of uninitialised memory |
| `AsWrittenReader.FailedBodyReadForgetsAByte` | src/riak.c:470-485 | a failed read inside a begun body is reported as OK; the frame delivered after it lacks the byte received last and has one byte too many from what follows |
| `AsWrittenReader.FailedFirstBodyRead` | src/riak.c:470-485 | a failed read before the first byte of a body trips the assertion, except that a body of 2^32 - 1 bytes is delivered unread |
| `EventLoop.NoLostWakeup` | src/riak.c:441-477 | when reads return the lesser of what was asked for and what is there, a call that returns OK without being done has emptied the input |
| `EventLoop.UnfinishedExactlyWhenReadIsShort` | src/riak.c:419-528 | for both variants, every state and every call: it returns OK and not done if and only if its last read came up short (or, as written, failed inside a begun body) |
| `EventLoop.CallsCompose` | src/riak.c:419-528 | two calls of the resumable reader on input that arrives in two parts do what one call on all of it does |
| `EventLoop.CallsComposeUnlessSplit` | src/riak.c:419-528 | two calls of the code as written do what one does unless the first stops inside a length field that the second goes on with |
| `EventLoop.SplitCallPoisons` | src/riak.c:441-485 | and in that case the next frame the code delivers starts with a byte that was never received |
| `EventLoop.FullCallIsRun` | src/riak.c:419-528 | a full call is a run of reads none of which fails, clean unless it starts inside a length field |
| `EventLoop.FullCallsAgree` | src/riak.c:419-528 | a full call that does not go on with a partial length field does the same in both variants |
| `EventLoop.LoopFollowsOneCall` | src/adapters/riak_libevent.h:116-140 | over the resumable reader, at every point of every event sequence: the rest of one call on all arrived bytes lies ahead of the loop, or the loop has closed where that call ends |
| `EventLoop.SyncAndAsyncAgree` | src/adapters/riak_libevent.h:116-140 | after a readable event, whatever arrived when, the event-driven run of the resumable reader is in the state of a single call on all the bytes |
| `EventLoop.CleanLoopFollowsOneCall` | src/adapters/riak_libevent.h:116-140 | the same over the code as written, when no readable event continues a partial length field |
| `EventLoop.CallIsCleanUnlessBodyFails` | src/riak.c:419-528 | one call as written that does not start inside a length field, however short its reads, is clean if and only if no read of a body fails |
| `EventLoop.CleanCallsAgree` | src/riak.c:419-528 | a clean call as written is a call of the resumable reader with the same result |
| `EventLoop.CleanEventsAgreeWithSync` | src/adapters/riak_libevent.h:116-140 | the adapter over the code as written agrees with one call as written of the same operation when no readable event continues a partial length field |
| `Callbacks.FullCallIgnoresCallbacks` | src/riak.c:499-525 | in both variants, from every state, a call does the same under any two settings of the callbacks but for the calls it makes to them, and calls none that is not there |
| `Callbacks.AsyncAgreesWithSync` | src/riak.c:60-80 | the adapter with its callbacks against one synchronous call, which has none: same fields, frames and response; the response callback has been given exactly the response the synchronous call returns with OK when done, and nothing otherwise; over the code as written, when no event continues a partial length field |
| `Operation.Input.Fetch` | src/include/riak.h:381-389 | the read callback: any number of bytes up to the size asked for, stored at the given place, or -1; an eager one hands out all it can |
| `Operation.RiakOperation.ReadLength` | src/riak.c:431-463 | the length-field half of the loop is the header step of the machine as written |
| `Operation.RiakOperation.StartBody` | src/riak.c:454-463 | once the length field is whole, the length is converted and an uninitialised buffer of that size allocated |
| `Operation.RiakOperation.ReadBody` | src/riak.c:468-485 | the body half of the loop is the body step of the machine as written |
| `Operation.RiakOperation.Dispatch` | src/riak.c:487-524 | dispatch of a frame: missing decoder, server error, decoder outcomes and callbacks, with the whole new client state |
| `Operation.RiakOperation.Read` | src/riak.c:419-528 | one call makes exactly the reads of one call of the machine as written, ends in its state with its result and flag, and consumes exactly the bytes it logged; behind an eager callback it is the full call |
| `Writing.Write` | src/riak.c:532-577 | what goes out is the accepted part of length field, id and body, in order, and it stops at the first write that returns zero and only there |
| `Writing.FrameGoesOutExactlyWhen` | src/riak.c:541-550 | when it returns OK, the frame of the message has gone out if and only if its length fits 32 bits and each part was taken whole |
| `Writing.QueuedMeansWhole` | src/adapters/riak_libevent.h:102-114 | through the libevent write callback, OK means the whole frame was queued |
| `Writing.LengthFieldIsUnsignedAddition` | src/riak.c:541-542 | the announced length is the body plus the id byte, as a 32-bit unsigned field holds the sum |
| `Writing.LongestBodyIsAnnouncedAsEmpty` | src/riak.c:541-543 | the length field of a body of 2^32 - 1 bytes is zero |
| `Writing.PartsAre` | src/riak.c:541-573 | the parts written: four bytes announcing the length, the id, and the body unless it is empty |
| `Writing.OnlyZeroFails` | src/riak.c:545-573 | it fails exactly if the callback returns zero, at the first zero; a callback that fails with -1 every time makes it succeed with nothing sent |
| `Writing.WhatIsWrittenIsRead` | src/riak.c:536-550 | framing round trip: what is written for any list of messages, fed to the resumable reader in any chunking and any split into calls, is handed on as exactly that list with nothing left over |
| `Writing.CleanWritingIsRead` | src/riak.c:536-550 | the same of the reader as written, in any clean chunking |
| `Writing.WritingIsInjective` | src/riak.c:536-550 | a list of messages is determined by the bytes written for it |
| `Callers.SyncRequest` | src/riak.c:60-80 | one write and one call of `riak_read`; the response is whatever is there by then, and nothing is read when writing fails |
| `Callers.NewRequest` | src/riak.c:220-238 | a synchronous function's request: a new operation without callbacks, written and read once |
| `Callers.ListKeys` | src/riak.c:219-240 | what `riak_listkeys` hands out while the server sends such a stream, however short the reads, unless one of a body fails: the keys of all messages read, in order, up to the last or fewer; behind a callback that hands out all it has, always OK, and complete exactly when the last message had arrived |
| `Callers.MapReduce` | src/riak.c:350-371 | the same for `riak_mapreduce`: the history of the messages read, and the user-level messages once the last is among them |
| `Callers.QueryIndex` | src/riak.c:372-395 | the same for `riak_2i`: all keys with OK, or what a rejected stream leaves behind with an error, exactly when all of the stream has been read; before, the stored messages and no keys |
| `Callers.Libevent.ResultCb` | src/adapters/riak_libevent.h:116-140 | one readable event: a full call on the input buffer, and the bufferevent is dropped exactly when the call is done |
| `Growth.ArrayRealloc` | src/riak_utils.c:62-76 | a new block that starts with the old slots and is cleared behind them |
| `Growth.AppendMessage` | src/messages/riak_listkeys.c:133-150 | the message vector grows by exactly the new message, in order |
| `Growth.AppendAll` | src/messages/riak_listkeys.c:93-124 | the vector of keys becomes the old keys followed by the new ones |
| `Streaming.ListAccumulator.Accumulate` | src/messages/riak_listkeys.c:79-153 | eager accumulation: keys appended, end mark taken from this message, message kept |
| `Streaming.MapRedAccumulator.Accumulate` | src/messages/riak_mapreduce.c:73-135 | messages are stored, and projected all at once at the end |
| `Streaming.EndMarkMustBePresent` | src/messages/riak_2i.c:127-130 | the end mark of a message counts only if it is there, for all three kinds of messages |
| `Streaming.Project` | src/messages/riak_mapreduce.c:111-130 | the user-level messages are the stored ones, field by field and in order |
| `Streaming.Flatten` | src/messages/riak_2i.c:153-185 | the (i, j, chunk) cursor stays in bounds if and only if no empty chunk precedes a non-empty one, and then yields the chunks' keys in order |
| `Streaming.FlattenSkipping` | src/messages/riak_2i.c:172-185 | with the cursor moved past empty chunks, the loop flattens every list of chunks |
| `Streaming.IndexAccumulator.Accumulate` | src/messages/riak_2i.c:118-210 | store, then assemble when streaming or done, with the failures of the code as written; continuation and end mark come from the latest message alone, field by field in `EndToEnd.IndexStores` and `EndToEnd.IndexAnsweredExactlyWhen` |
| `Streaming.IndexAccumulator.Assemble` | src/messages/riak_2i.c:153-200 | assembling yields all keys in order, and runs the results loop with its inverted test, which frees the results at the first that could be copied |
| `Streaming.CopyResults` | src/messages/riak_2i.c:186-199 | the results loop turn by turn: a copied result ends it as a failure, one for which there is no memory is passed over, and the cursor moves on by the number of keys |
| `Streaming.NoResultIsHandedOut` | src/messages/riak_2i.c:186-200 | the results loop succeeds only if not one result could be copied |
| `Streaming.ResultsLoopExactlyWhen` | src/messages/riak_2i.c:186-199 | for any pattern of memory shortage, the results loop ends at the first turn whose place, counted by the number of keys, is not there, or whose copy succeeds |
| `EndToEnd.PrefixParses` | src/riak.c:429-485 | any prefix of a stream of frames parses to a prefix of its frames and announces no empty one |
| `EndToEnd.RunOnStream` | src/riak.c:429-525 | on any stream of frames, over every chunking and split into calls of the resumable reader: at every point exactly a prefix of the frames has been delivered and dispatched, all of them exactly when all bytes are consumed, and behaviour is defined exactly if their dispatch is |
| `EndToEnd.CleanRunOnStream` | src/riak.c:429-525 | the same of the code as written over clean runs |
| `EndToEnd.ListsAccumulate` | src/messages/riak_listkeys.c:81-151 | for any list of messages the response holds their keys concatenated, and the callback, if there is one, runs once for each message marked as the last |
| `EndToEnd.ListKeysEndToEnd` | src/messages/riak_listkeys.c:81-151 | if only message k is marked as the last: over every chunking and split into calls of the resumable reader, at every point of every run, the response holds the keys of all messages read, in order, and the callback, if there is one, has run not at all before frame k is whole and exactly once from then on, with messages 0 to k |
| `EndToEnd.CleanListKeysEndToEnd` | src/messages/riak_listkeys.c:81-151 | the same of the code as written over clean runs |
| `EndToEnd.IndexStores` | src/messages/riak_2i.c:132-149 | before the last message the 2i response has no keys, stores the exact message history, has continuation and end mark of the latest message, and calls nothing |
| `EndToEnd.IndexAnsweredExactlyWhen` | src/messages/riak_2i.c:151-210 | the 2i response has all keys in order with continuation and end mark of the last message, and the callback gets it, if and only if no message without keys precedes one with keys and no message has results; otherwise nothing is called: behaviour is undefined exactly if there is such a gap, or there are results but none in the first message, and any other stream with results is rejected, with a stated remainder |
| `EndToEnd.StreamedIndexKeepsUp` | src/messages/riak_2i.c:151-210 | with the streaming flag set, the response is assembled anew with every message |
| `EndToEnd.IndexEndToEnd` | src/messages/riak_2i.c:106-211 | over every chunking and split into calls of the resumable reader, for every 2i stream: nothing is called before all of it has been read, and then it is answered, rejected or undefined as its messages decide |
| `EndToEnd.CleanIndexEndToEnd` | src/messages/riak_2i.c:106-211 | the same of the code as written over clean runs |
| `EndToEnd.EagerAndDeferredAgree` | src/messages/riak_2i.c:132-185 | list keys' appending and 2i's storing and flattening give the same list for the same chunks, and both keep the exact message history |
| `EndToEnd.MapRedKeepsHistory` | src/messages/riak_mapreduce.c:90-131 | for any list of messages of which only message k is marked as the last, the map/reduce response is the exact message history, and the callback, if there is one, is given it once, when that one has come |
| `EndToEnd.StreamedMapRedKeepsUp` | src/messages/riak_mapreduce.c:108-131 | with the streaming flag set, the user-level messages keep up with the history |
| `EndToEnd.MapRedEndToEnd` | src/messages/riak_mapreduce.c:73-135 | over every chunking and split into calls of the resumable reader, at every point the client is that of the messages read so far |
| `EndToEnd.CleanMapRedEndToEnd` | src/messages/riak_mapreduce.c:73-135 | the same of the code as written over clean runs |
| `EndToEnd.UnreadableListFrameIsRefused` | src/messages/riak_listkeys.c:74-78 | a list-keys frame that does not unpack ends the call with an error and done, leaves the response as it was and calls nothing |
| `EndToEnd.UnreadableMapRedFrameIsRefused` | src/messages/riak_mapreduce.c:66-71 | so does a map/reduce frame |
| `EndToEnd.UnreadableIndexFrameIsRefused` | src/messages/riak_2i.c:112-116 | so does a 2i frame |
| `EndToEnd.DecodersCloseOnError` | src/messages/riak_listkeys.c:76-78 | whenever one of the decoders fails it leaves the flag set, as the adapter relies on to close |
| `StreamCalls.CallOnStream` | src/riak.c:519-527 | on a stream whose frame k ends the response, one call of the resumable reader, however short its reads, is done exactly when frame k has been read, with its outcome, and reads no frame behind it |
| `StreamCalls.CallAsWrittenOnStream` | src/riak.c:519-527 | so is one call of the code as written, if no read of a body fails |
| `StreamCalls.FullCallOnStream` | src/riak.c:519-527 | behind a callback that hands out all it has, the call is done exactly when the bytes of frame k have arrived |
| `StreamCalls.ListCall` | src/riak.c:60-80 | on a stream of list-keys messages one call of the code as written, with or without callbacks, however short its reads, if no read of a body fails: done exactly when message k has been read, and the response holds the keys of all messages read, done or not |
| `StreamCalls.BrokenCall` | src/riak.c:515-517 | a stream that breaks off with a refused frame: one call as written is done exactly when it has read that frame, and then it is an error with the response of the frames before |
| `StreamCalls.BrokenListCall` | src/messages/riak_listkeys.c:74-78 | for list keys: an error, the keys of the messages before, and no callback |
| `StreamCalls.BrokenMapRedCall` | src/messages/riak_mapreduce.c:66-71 | for map/reduce: an error, the history of the messages before, no user-level messages, and no callback |
| `StreamCalls.BrokenIndexCall` | src/messages/riak_2i.c:112-116 | for 2i: an error, the stored messages without keys, and no callback |
| `StreamCalls.ListCallDoneExactlyAtLast` | src/riak.c:60-80 | behind a callback that hands out all it has: no condition, always OK, done exactly when message k has arrived |
| `StreamCalls.MapRedCall` | src/riak.c:60-80 | the same for map/reduce: the client is that of the messages read |
| `StreamCalls.MapRedCallDoneExactlyAtLast` | src/riak.c:60-80 | behind a callback that hands out all it has: always OK, done exactly when message k has arrived |
| `StreamCalls.IndexCall` | src/riak.c:419-528 | one call of the resumable reader on so much of any 2i stream as has arrived is done exactly when it has read all of it, with the outcome the messages decide |
| `StreamCalls.IndexCallAsWritten` | src/riak.c:60-80 | so is one call of the code as written, if no read of a body fails |
| `StreamCalls.StreamThroughTheEventLoop` | src/adapters/riak_libevent.h:116-140 | any such stream through the adapter, over every pattern of arrivals: after a readable event it is where one synchronous call on the arrived bytes would be, has called back what that one returns, and is open exactly until frame k has arrived; over the code as written, when no event splits a length field |
| `StreamCalls.ListKeysThroughTheEventLoop` | src/adapters/riak_libevent.h:116-140 | list keys through the adapter, over every pattern of arrivals: it stays open exactly until message k has arrived, has called back once by then and not before with all keys in order, and agrees with a synchronous call; over the code as written, when no event splits a length field |
| `StreamCalls.MapRedThroughTheEventLoop` | src/adapters/riak_libevent.h:116-140 | map/reduce through the adapter, likewise: its client is that of the messages read |
| `StreamCalls.IndexThroughTheEventLoop` | src/adapters/riak_libevent.h:116-140 | every 2i stream through the adapter, over every pattern of arrivals: open exactly until all of the stream has arrived, nothing called before, and then answered, rejected or undefined as its messages decide; over the code as written, when no event splits a length field |
| `RiakArrays.ShiftUp` | src/riak_array.c:97-101 | the insertion loop opens a gap and keeps all elements in order |
| `RiakArrays.ShiftDown` | src/riak_array.c:114-116 | the removal loop closes the gap, and reads behind the allocation exactly when the array is full |
| `RiakArrays.RiakArray.Resize` | src/riak_array.c:69-84 | for any size: the doubling loop and the reallocation keep the elements, make room, and copy exactly the old capacity; without a capacity the loop would not end |
| `RiakArrays.RiakArray.InsertAt` | src/riak_array.c:86-106 | refines insertion into a sequence, with the range errors and the capacity growth; the element stands in its slot |
| `RiakArrays.RiakArray.RemoveAt` | src/riak_array.c:108-119 | refines removal from a sequence, with the truncated loop index for positions of 2^63 or more; reads one slot too far exactly if it shifts in a full array |
| `RiakArrays.RiakArray.PushBack` | src/riak_array.c:121-131 | refines appending to a sequence; the element stands in the last slot |
| `RiakArrays.RiakArray.PopBack` | src/riak_array.c:133-143 | refines dropping the last element, which it returns |
| `RiakArrays.RiakArray.At` | src/riak_array.c:145-154 | returns the element at a position in range and an error otherwise |
| `RiakArrays.RiakArray.Put` | src/riak_array.c:156-166 | refines replacing one element: it stands in its slot and all other slots are unchanged |
| `RiakArrays.DoublingEndsExactlyWhen` | src/riak_array.c:72-76 | repeated doubling reaches the size if and only if the capacity is at least one or nothing is asked for |
| `RiakArrays.NothingFitsWithoutCapacity` | src/riak_array.c:69-131 | over every run an array made without capacity stays empty |
| `RiakArrays.CopyingIsLinear` | src/riak_array.c:70-131 | over every run from capacity c0: slots copied are exactly the capacity gained, the capacity is a doubling of c0 below twice the greatest length, and copies are fewer than two for each addition |
| `RiakArrays.FailureChangesNothing` | src/riak_array.c:86-166 | an operation that does not succeed changes nothing; below 2^63 it succeeds exactly in range (and with a capacity, to add); from 2^63 on there is no error code, and exactly a removal at a position whose low 32 bits are below 2^31 takes an element out of any array that has one |
| `RiakArrays.SuccessElementByElement` | src/riak_array.c:86-166 | what a successful operation does, element by element: the new element is at its place, those before stay, those behind move by one; from 2^63 on a removal takes out the element at the low 32 bits, or the last |
| `RiakArrays.RemovalUndoesInsertion` | src/riak_array.c:86-143 | removing undoes inserting at the same place, popping undoes pushing, and inserting at the end is pushing |
| `Binaries.CompareIsAnOrder` | src/riak_binary.c:68-78 | a shortlex order: zero exactly on equal byte strings, sign-symmetric, transitive, shorter first |
| `Binaries.CompareIsLexicographic` | src/riak_binary.c:68-78 | among equal lengths the first differing byte decides |
| `Binaries.CompareStringAgrees` | src/riak_binary.c:80-91 | comparing any binary with a C string is comparing it with the bytes before the first zero if and only if these are fewer than 2^31; a longer string differs even from the binary of its bytes; a binary with a zero byte equals no shorter string |
| `Binaries.PrintText` | src/riak_binary.c:175-190 | stores as many bytes as fit before a terminator, each as it is if it is at least 32 and as a dot otherwise, and touches nothing else |
| `Binaries.TextIsShown` | src/riak_binary.c:180-184 | the text of a binary, byte by byte; a printable binary is its own text |
| `Binaries.PrintHex` | src/riak_binary.c:192-209 | stores the hexadecimal text of as many bytes as the loop takes and a terminator, and touches nothing else |
| `Binaries.HexDigitByDigit` | src/riak_binary.c:196-205 | each byte shows as its two digits of 0123456789abcdef, the high one first |
| `Binaries.PrintedHexReadsBack` | src/riak_binary.c:192-209 | reading the printed digits back gives exactly the bytes printed |
| `Binaries.UnhexReadsHex` | src/riak_binary.c:192-209 | hexadecimal text determines its bytes |
| `Binaries.StoresAtMostLenExactlyWhen` | src/include/riak_binary.h:131-153 | the documented limit of `len` bytes is kept exactly when: the length is not zero or nothing is shown (text); the length is odd, or text and terminator fit, or nothing is shown (hexadecimal) |
| `Printing.RunsAreLawful` | src/riak_print.c:41-147 | over any run of print calls, the bare binary printers among them where they have room, the ideal text is the concatenation of all full renderings, and what stands in the buffer is all of it or all but what does not fit |
| `Printing.CallIsLawful` | src/riak_print.c:89-147 | each labelled, raw or bare print call adds its full rendering to the ideal text and keeps the law of the counters |
| `Printing.LabelledByByte` | src/riak_print.c:89-100 | what a labelled binary looks like, byte by byte: name, colon, space, value with dots for control characters, newline |
| `Printing.LabelledHexByByte` | src/riak_print.c:113-124 | the same in hexadecimal |
| `Printing.RawHexByByte` | src/riak_print.c:137-147 | what a raw array looks like: 0x and two digits for each byte |
| `Printing.BufferHoldsPrefix` | src/riak_print.c:41-147 | the buffer starts with a NUL-terminated prefix of the ideal text |
| `Printing.BinaryPrintersStayInsideExactlyWhen` | src/riak_print.c:102-135 | called without room, the binary printers stay inside the buffer exactly if the counters are at the end and at most one byte (none, for hexadecimal) is shown |
| `Printing.PrintState.constructor` | src/riak_print.c:29-39 | a fresh state over a buffer keeps the law |
| `Printing.PrintState.Vsnprintf` | src/riak_print.c:49 | stores at most `size` bytes with the terminator and returns the full length |
| `Printing.PrintState.PrintFormatted` | src/riak_print.c:41-59 | moves the counters by the full length if there is room at all, keeps `wrote + len == total - 1` and `target - start == wrote`, the terminated prefix, and every byte behind `total` |
| `Printing.PrintState.PrintBinary` | src/riak_print.c:102-111 | the same for a binary shown as text; called without room it stays inside exactly at the very end with at most one byte, which takes the last place, and then keeps the law exactly if that was not the terminator's |
| `Printing.PrintState.PrintBinaryHex` | src/riak_print.c:126-135 | the same for a binary shown as hexadecimal; called without room it stays inside exactly at the very end with nothing to show |
| `Printing.PrintState.PrintLabelBinary` | src/riak_print.c:89-100 | the same for a labelled binary or a NULL one, with or without room; as far as it fits, it stands in the buffer byte by byte |
| `Printing.PrintState.PrintLabelHex` | src/riak_print.c:113-124 | the same for a labelled binary or a NULL one in hexadecimal |
| `Printing.PrintState.PrintRawHex` | src/riak_print.c:137-147 | the same for a raw array, although the loop gives up early |
| `Objects.PairsCopyToPb` | src/riak_object.c:39-67 | the copied array holds every pair, in order, with its flag and value |
| `Objects.PairsCopyFromPb` | src/riak_object.c:81-127 | the array made of a record's pairs holds every pair, in order |
| `Objects.LinksCopyToPb` | src/riak_object.c:209-242 | the copied array holds every link, in order, with its flags and values |
| `Objects.LinksCopyFromPb` | src/riak_object.c:256-297 | the array made of a record's links holds every link, in order |
| `Objects.RpbContent.CopyFrom` | src/riak_object.c:434-488 | the whole new record in terms of the old one and the object |
| `Objects.NewFromPb` | src/riak_object.c:490-570 | the whole new object in terms of the record |
| `Objects.EveryFieldLands` | src/riak_object.c:434-488 | copying onto any record: each field, and each field of each pair and link, lands in its own place where the object has it, and is left alone where it has not |
| `Objects.EveryFieldArrives` | src/riak_object.c:490-570 | a new object has each field that the record has, in its own place, and no other |
| `Objects.ObjectRoundTrip` | src/riak_object.c:434-570 | object to fresh record and back preserves every presence flag, every present field and all indexes, metadata and links in order |
| `Objects.RecordRoundTrip` | src/riak_object.c:434-570 | record to object and back is the identity if and only if unflagged fields have their initial values |
| `Comparison.CompareInternal` | src/riak_object.c:600-685 | for any two objects, the first check that fails or dereferences a NULL pointer, in the order of the code, and zero if and only if the contents are the same |
| `Comparison.ZeroExactlyWhenSame` | src/riak_object.c:600-685 | zero exactly if all compared fields are there and agree, the three skippable ones where both have them |
| `Comparison.FirstDifferenceDecides` | src/riak_object.c:600-685 | for any two objects the first of the nineteen checks, in the order of the code, that does not agree decides, whatever comes after it: binaries by their order or a NULL dereference, flags, numbers and lengths by 1, arrays by their first differing elements |
| `Comparison.CrashesExactlyWhen` | src/riak_object.c:600-685 | a NULL pointer is dereferenced if and only if some check looks at one and all before it agree |
| `Comparison.PairDecides` | src/riak_object.c:644-653 | two pairs: value flags, then keys, then values |
| `Comparison.LinkDecides` | src/riak_object.c:654-673 | two links: three flags, then bucket, key and tag |
| `Comparison.FirstPairDecides` | src/riak_object.c:644-653 | in arrays of one length the first differing pair decides |
| `Comparison.FirstLinkDecides` | src/riak_object.c:654-673 | likewise the first differing link |
| `Comparison.ComparableObjectsDoNotCrash` | src/riak_object.c:600-685 | no NULL pointer is dereferenced between objects that have all the comparison may look at |
| `Comparison.ZeroIsReflexiveAndSymmetric` | src/riak_object.c:600-685 | comparing equal is reflexive on exactly those objects, and symmetric on all |
| `Comparison.ZeroIsTransitiveThroughBridges` | src/riak_object.c:622-634 | it is transitive through any object that has the skippable fields both ends have, hence an equivalence where the same fields are present; and in a chain of two, the ends compare equal exactly if those fields agree |
| `Comparison.ZeroIsNotTransitive` | src/riak_object.c:622-626 | for every such object, two different tags with a tagless copy between them break transitivity |
| `Comparison.ReadBackComparesEqual` | src/riak_object.c:434-685 | an object converted and back equals the original exactly if that is comparable, charset, content type and encoding are present, and no unflagged deletion mark was dropped; without one of the three, comparing dereferences a NULL pointer |

## Left out

- RiakArray: positions are 64-bit as in the source, but lengths are unbounded; the loop counters of type `int` and the 32-bit counts of `riak_array_realloc` limit the source to lengths below 2^31. `riak_array_sort` is not part of this model.
- RiakArray.InsertAt: at a position of 2^63 or more the array may still grow before the element is stored outside it; the model stops before. Nor does it go on after a removal has made the length negative.
- RiakArray.Resize: returns where the doubling loop of the source would not end, that is, with nothing to double (`DoublingEndsExactlyWhen`).
- PrintState.PrintBinary: stops where the source would store outside the buffer, as does PrintState.PrintBinaryHex.
- PrintState.Vsnprintf: the rendered text is given; number and time formatting, and a negative result of `vsnprintf`, are not part of this model.
- RpbContent: the fields of the two structures are held in one record value each, so aliasing between a binary and the buffer it shares is not modelled; a binary with a NULL data pointer is an empty one.
- Protobuf packing and unpacking, and the request encoders: only a function from bytes to records.
- Sockets, DNS, libevent internals, timeouts and connection callbacks, logging and debugging output.
- Allocation failure and freeing: allocation succeeds (but for the copies of 2i results, where any may fail and the end-to-end statements need only the first to succeed), and leaks are not modelled.
- The one-message decoders (get, put, delete, search, ping, server information, bucket properties, client id): single-step instances of the same dispatch.
- The 32-bit counters of streamed keys and messages are unbounded.
- List buckets: the decoder at `src/messages/riak_listbuckets.c:67-156` has the shape of list keys and shares its accumulator.
- Option structures, getters and setters, public wrappers, examples, command line, tests and build scripts.
