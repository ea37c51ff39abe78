/** Framing, chunking, accumulation and callbacks together: what the user's callback gets. */
module EndToEnd {
  import opened Wire
  import opened Framing
  import opened Reader
  import opened ReaderProperties
  import opened AsWrittenReader
  import opened EventLoop
  import opened Streaming

  // ----- Runs that have read part of a stream of frames -----

  lemma BeforeFirstFrame(frame: seq<byte>, later: seq<byte>, bs: seq<byte>)
    requires WellFormed(frame) && bs <= EncodeFrame(frame) + later && |bs| < 4 + |frame|
    ensures Parse(bs) == Parsed([], bs)
    ensures |bs| >= 4 ==> FromNetwork(bs[..4]) != 0
  {
    NetworkRoundTrip(|frame|);
    if |bs| >= 4 {
      assert bs[..4] == ToNetwork(|frame|);
    }
  }

  lemma AfterFirstFrame(frame: seq<byte>, later: seq<byte>, bs: seq<byte>)
    requires WellFormed(frame) && bs <= EncodeFrame(frame) + later && |bs| >= 4 + |frame|
    ensures bs == EncodeFrame(frame) + bs[4 + |frame|..]
    ensures bs[4 + |frame|..] <= later
  {
    assert bs[..4 + |frame|] == EncodeFrame(frame);
  }

  /** Reading any prefix of a stream delivers a prefix of its frames and announces no empty one. */
  lemma {:induction false} PrefixParses(frames: seq<seq<byte>>, bs: seq<byte>)
    requires AllWellFormed(frames) && bs <= Encode(frames)
    ensures Parse(bs).frames <= frames
    ensures |Parse(bs).rest| >= 4 ==> FromNetwork(Parse(bs).rest[..4]) != 0
    decreases |frames|
  {
    if frames == [] {
      assert bs == [];
    } else {
      var first, others := frames[0], frames[1..];
      assert Encode(frames) == EncodeFrame(first) + Encode(others) by {
        EncodeFirst(first, others);
        assert frames == [first] + others;
      }
      if |bs| < 4 + |first| {
        BeforeFirstFrame(first, Encode(others), bs);
      } else {
        AfterFirstFrame(first, Encode(others), bs);
        var tail := bs[4 + |first|..];
        assert Parse(bs) == Parsed([first] + Parse(tail).frames, Parse(tail).rest) by {
          ParseFrame(first, tail);
        }
        PrefixParses(others, tail);
        assert [first] + Parse(tail).frames <= [first] + others;
      }
    }
  }

  lemma WholeStream(frames: seq<seq<byte>>, bs: seq<byte>)
    requires AllWellFormed(frames) && bs <= Encode(frames)
    ensures bs == Encode(frames) <==> Parse(bs).frames == frames
  {
    if bs == Encode(frames) {
      EncodeThenParse(frames, []);
      assert Encode(frames) + [] == Encode(frames) && frames + [] == frames;
    } else {
      ParseThenEncode(bs);
    }
  }

  /** The run that ends in `t` has delivered the first n of these frames and dispatched just them. */
  ghost predicate At<R>(cfg: Config<R>, frames: seq<seq<byte>>, n: nat, t: State<R>)
    requires AllWellFormed(frames)
  {
    n <= |frames| && t.frames == frames[..n] && t.client == HandleAll(cfg, frames[..n])
  }

  /** Any stream of frames, read by the resumable reader in any chunking and any split into calls: at
      every point of the run a prefix of the frames has been delivered and dispatched, and nothing
      else; it is all of them exactly when all bytes are consumed; and behaviour is defined exactly if
      their dispatch is. */
  lemma RunOnStream<R>(cfg: Config<R>, frames: seq<seq<byte>>, rs: seq<Reply>) returns (n: nat)
    requires AllWellFormed(frames)
    requires Possible(Resumable, cfg, Start<R>(), rs) && Consumed(rs) <= Encode(frames)
    ensures n <= |frames| && (Consumed(rs) == Encode(frames) <==> n == |frames|)
    ensures var t := Run(Resumable, cfg, Start<R>(), rs);
            if HandleAll(cfg, frames[..n]).fault then t.client.fault else At(cfg, frames, n, t)
  {
    PrefixParses(frames, Consumed(rs));
    n := |Parse(Consumed(rs)).frames|;
    assert Parse(Consumed(rs)).frames == frames[..n];
    RunIsDefinedExactlyWhenSound(cfg, rs);
    if !HandleAll(cfg, frames[..n]).fault {
      RunIsDenoted(cfg, rs);
    }
    WholeStream(frames, Consumed(rs));
  }

  lemma CleanRunFromStart<R>(cfg: Config<R>, rs: seq<Reply>)
    requires Possible(AsWritten, cfg, Start<R>(), rs) && Clean(cfg, Start<R>(), rs)
    ensures Possible(Resumable, cfg, Start<R>(), rs)
    ensures Run(Resumable, cfg, Start<R>(), rs) == Run(AsWritten, cfg, Start<R>(), rs)
  {
    StartIsGood(cfg);
    CleanRunsAgree(cfg, Start<R>(), rs);
  }

  /** The same of the code as written, over clean runs. */
  lemma CleanRunOnStream<R>(cfg: Config<R>, frames: seq<seq<byte>>, rs: seq<Reply>) returns (n: nat)
    requires AllWellFormed(frames)
    requires Possible(AsWritten, cfg, Start<R>(), rs) && Clean(cfg, Start<R>(), rs) && Consumed(rs) <= Encode(frames)
    ensures n <= |frames| && (Consumed(rs) == Encode(frames) <==> n == |frames|)
    ensures var t := Run(AsWritten, cfg, Start<R>(), rs);
            if HandleAll(cfg, frames[..n]).fault then t.client.fault else At(cfg, frames, n, t)
  {
    CleanRunFromStart(cfg, rs);
    n := RunOnStream(cfg, frames, rs);
  }

  // ----- List keys -----

  /** The operation decodes list-keys messages; it may have callbacks or not. */
  ghost predicate ListsKeys(cfg: Config<ListResponse>, unpack: seq<byte> -> Option<ListMsg>) {
    && cfg.decoder.Some?
    && forall r: Option<ListResponse>, f: seq<byte> :: cfg.decoder.value(r, f) == ListDecode(unpack, r, f)
  }

  /** Frames that are no error frames and carry these messages behind their ids. */
  predicate Carry<M(==)>(unpack: seq<byte> -> Option<M>, frames: seq<seq<byte>>, ms: seq<M>) {
    && |frames| == |ms| && AllWellFormed(frames)
    && forall i :: 0 <= i < |ms| ==> frames[i][0] != MSG_RPBERRORRESP && unpack(frames[i][1..]) == Some(ms[i])
  }

  function ItemChunks(ms: seq<ListMsg>): (cs: seq<seq<Binary>>)
    ensures |cs| == |ms| && forall i :: 0 <= i < |ms| ==> cs[i] == ms[i].items
  {
    seq(|ms|, i requires 0 <= i < |ms| => ms[i].items)
  }

  /** The response that stands for a list of messages. */
  function AllListed(ms: seq<ListMsg>): ListResponse
    requires ms != []
  {
    ListResponse(Concat(ItemChunks(ms)), ms[|ms| - 1].IsLast(), ms)
  }

  /** The callback's calls, if there is one: one for each message marked as the last, with all messages so far. */
  function ListCalls(cb: bool, ms: seq<ListMsg>): seq<Option<ListResponse>> {
    if ms == [] then []
    else ListCalls(cb, ms[..|ms| - 1]) + if cb && ms[|ms| - 1].IsLast() then [Some(AllListed(ms))] else []
  }

  lemma ItemsGrow(ms: seq<ListMsg>)
    requires ms != []
    ensures Concat(ItemChunks(ms)) == Concat(ItemChunks(ms[..|ms| - 1])) + ms[|ms| - 1].items
  {
    var last := |ms| - 1;
    assert ItemChunks(ms)[..last] == ItemChunks(ms[..last]);
  }

  lemma ListStepAdds(ms: seq<ListMsg>)
    requires ms != []
    ensures var init := ms[..|ms| - 1];
            ListStep(if init == [] then None else Some(AllListed(init)), ms[|ms| - 1]) == AllListed(ms)
  {
    ItemsGrow(ms);
    var init := ms[..|ms| - 1];
    assert init + [ms[|ms| - 1]] == ms;
    assert ItemChunks(init) == [] ==> Concat(ItemChunks(init)) == [];
  }

  lemma {:induction false} ListsAccumulate(cfg: Config<ListResponse>, unpack: seq<byte> -> Option<ListMsg>,
                                           frames: seq<seq<byte>>, ms: seq<ListMsg>)
    requires ListsKeys(cfg, unpack) && Carry(unpack, frames, ms)
    ensures HandleAll(cfg, frames) ==
              Client(if ms == [] then None else Some(AllListed(ms)), ListCalls(cfg.responseCb, ms), [], false)
    decreases |frames|
  {
    if frames != [] {
      var last := |frames| - 1;
      ListsAccumulate(cfg, unpack, frames[..last], ms[..last]);
      var c := HandleAll(cfg, frames[..last]);
      var d := cfg.decoder.value(c.response, frames[last]);
      assert d == Decoding(Decoded, Some(AllListed(ms)), ms[last].IsLast()) by {
        ListStepAdds(ms);
      }
    }
  }

  /** The client after some messages, of which only the k-th is marked as the last. */
  function ListClient(cb: bool, ms: seq<ListMsg>, k: nat): Client<ListResponse> {
    Client(if ms == [] then None else Some(AllListed(ms)),
           if cb && |ms| > k then [Some(AllListed(ms[..k + 1]))] else [], [], false)
  }

  lemma {:induction false} OneCallForOneLast(cb: bool, ms: seq<ListMsg>, k: nat)
    requires forall i :: 0 <= i < |ms| ==> (ms[i].IsLast() <==> i == k)
    ensures ListCalls(cb, ms) == if cb && |ms| > k then [Some(AllListed(ms[..k + 1]))] else []
    decreases |ms|
  {
    if ms != [] {
      var last := |ms| - 1;
      OneCallForOneLast(cb, ms[..last], k);
      if last == k {
        assert ms[..k + 1] == ms;
      } else if last > k {
        assert ms[..last][..k + 1] == ms[..k + 1];
      }
    }
  }

  lemma ListClientAfter(cfg: Config<ListResponse>, unpack: seq<byte> -> Option<ListMsg>,
                        frames: seq<seq<byte>>, ms: seq<ListMsg>, k: nat)
    requires ListsKeys(cfg, unpack) && Carry(unpack, frames, ms)
    requires forall i :: 0 <= i < |ms| ==> (ms[i].IsLast() <==> i == k)
    ensures HandleAll(cfg, frames) == ListClient(cfg.responseCb, ms, k)
  {
    ListsAccumulate(cfg, unpack, frames, ms);
    OneCallForOneLast(cfg.responseCb, ms, k);
  }

  /** What is to be seen when so much of a stream of list-keys messages, of which only the k-th is
      marked as the last, has been read: the response holds the keys of all messages read, in order;
      and the callback, if there is one, has not been called before frame k is whole, and exactly once
      from then on, with the keys of messages 0 to k. */
  predicate KeysListed(cb: bool, frames: seq<seq<byte>>, ms: seq<ListMsg>, k: nat, t: State<ListResponse>) {
    && t.frames <= frames && |frames| == |ms|
    && t.client == ListClient(cb, ms[..|t.frames|], k)
  }

  lemma KeysListedAt(cfg: Config<ListResponse>, unpack: seq<byte> -> Option<ListMsg>,
                     frames: seq<seq<byte>>, ms: seq<ListMsg>, k: nat, n: nat, t: State<ListResponse>)
    requires ListsKeys(cfg, unpack) && Carry(unpack, frames, ms) && n <= |ms|
    requires forall i :: 0 <= i < |ms| ==> (ms[i].IsLast() <==> i == k)
    requires if HandleAll(cfg, frames[..n]).fault then t.client.fault else At(cfg, frames, n, t)
    ensures KeysListed(cfg.responseCb, frames, ms, k, t) && |t.frames| == n
  {
    ListClientAfter(cfg, unpack, frames[..n], ms[..n], k);
  }

  /** End to end, over every chunking of the reads and every split into calls of the resumable reader:
      at every point of every run the response is what it should be and the callback has been called as
      it should, and all frames have been delivered exactly when all bytes have been read. */
  lemma ListKeysEndToEnd(cfg: Config<ListResponse>, unpack: seq<byte> -> Option<ListMsg>,
                         frames: seq<seq<byte>>, ms: seq<ListMsg>, k: nat, rs: seq<Reply>)
    requires ListsKeys(cfg, unpack) && Carry(unpack, frames, ms)
    requires forall i :: 0 <= i < |ms| ==> (ms[i].IsLast() <==> i == k)
    requires Possible(Resumable, cfg, Start<ListResponse>(), rs) && Consumed(rs) <= Encode(frames)
    ensures var t := Run(Resumable, cfg, Start<ListResponse>(), rs);
            KeysListed(cfg.responseCb, frames, ms, k, t) && (Consumed(rs) == Encode(frames) <==> t.frames == frames)
  {
    var n := RunOnStream(cfg, frames, rs);
    KeysListedAt(cfg, unpack, frames, ms, k, n, Run(Resumable, cfg, Start<ListResponse>(), rs));
    assert frames[..n] == frames <==> n == |frames|;
  }

  /** The same of the code as written, at every point of every clean run. */
  lemma CleanListKeysEndToEnd(cfg: Config<ListResponse>, unpack: seq<byte> -> Option<ListMsg>,
                              frames: seq<seq<byte>>, ms: seq<ListMsg>, k: nat, rs: seq<Reply>)
    requires ListsKeys(cfg, unpack) && Carry(unpack, frames, ms)
    requires forall i :: 0 <= i < |ms| ==> (ms[i].IsLast() <==> i == k)
    requires Possible(AsWritten, cfg, Start<ListResponse>(), rs) && Clean(cfg, Start<ListResponse>(), rs)
    requires Consumed(rs) <= Encode(frames)
    ensures var t := Run(AsWritten, cfg, Start<ListResponse>(), rs);
            KeysListed(cfg.responseCb, frames, ms, k, t) && (Consumed(rs) == Encode(frames) <==> t.frames == frames)
  {
    CleanRunFromStart(cfg, rs);
    ListKeysEndToEnd(cfg, unpack, frames, ms, k, rs);
  }

  // ----- Secondary indexes -----

  /** The operation decodes 2i messages, without streaming; `copies` says for which results there is
      memory, and there is for the first. */
  ghost predicate QueriesIndex(cfg: Config<IndexResponse>, copies: nat -> bool, unpack: seq<byte> -> Option<IndexMsg>) {
    && cfg.decoder.Some? && copies(0)
    && forall r: Option<IndexResponse>, f: seq<byte> :: cfg.decoder.value(r, f) == IndexDecode(false, copies, unpack, r, f)
  }

  /** The response before the last message has come: no keys yet, the exact history, and continuation
      and end mark of the latest message. */
  function StoredIndex(ms: seq<IndexMsg>): IndexResponse
    requires ms != []
  {
    var last := ms[|ms| - 1];
    IndexResponse([], 0, None, last.hasContinuation, last.continuation, last.hasDone, last.done, ms)
  }

  function StoredClient(ms: seq<IndexMsg>): Client<IndexResponse> {
    Client(if ms == [] then None else Some(StoredIndex(ms)), [], [], false)
  }

  /** Before the last message the response only stores. */
  lemma {:induction false} IndexStores(cfg: Config<IndexResponse>, copies: nat -> bool, unpack: seq<byte> -> Option<IndexMsg>,
                                       frames: seq<seq<byte>>, ms: seq<IndexMsg>)
    requires QueriesIndex(cfg, copies, unpack) && Carry(unpack, frames, ms)
    requires forall i :: 0 <= i < |ms| ==> !ms[i].IsLast()
    ensures HandleAll(cfg, frames) == StoredClient(ms)
    decreases |frames|
  {
    if frames != [] {
      var last := |frames| - 1;
      IndexStores(cfg, copies, unpack, frames[..last], ms[..last]);
      assert ms[..last] + [ms[last]] == ms;
      var c := HandleAll(cfg, frames[..last]);
      var d := cfg.decoder.value(c.response, frames[last]);
      assert d == Decoding(Decoded, Some(StoredIndex(ms)), false);
    }
  }

  predicate NoResults(ms: seq<IndexMsg>) {
    forall i :: 0 <= i < |ms| ==> ms[i].results == []
  }

  /** No message without keys precedes one with keys, and none has results. */
  predicate Answerable(ms: seq<IndexMsg>) {
    NoGap(KeyChunks(ms)) && NoResults(ms)
  }

  /** One of the two cursors starts a turn where there is nothing to read. */
  predicate Crashing(ms: seq<IndexMsg>)
    requires ms != []
  {
    !NoGap(KeyChunks(ms)) || (!NoResults(ms) && ms[0].results == [])
  }

  lemma NoResultsAtAll(ms: seq<IndexMsg>)
    ensures |Concat(ResultChunks(ms))| == 0 <==> NoResults(ms)
  {
    EmptyChunksAddNothing(ResultChunks(ms));
    assert forall i :: 0 <= i < |ms| ==> ResultChunks(ms)[i] == ms[i].results;
  }

  /** The response that answers a list of messages: all keys in order, no results, the exact history, and
      continuation and end mark of the latest message. */
  function AllIndexed(ms: seq<IndexMsg>): IndexResponse
    requires ms != []
  {
    var last := ms[|ms| - 1];
    IndexResponse(Concat(KeyChunks(ms)), 0, Some([]), last.hasContinuation, last.continuation, last.hasDone, last.done, ms)
  }

  /** What is left in the operation when the last message is rejected for its results: all keys, as many
      results announced as there were, none of them there, and the marks of the message before. */
  function RejectedIndex(ms: seq<IndexMsg>): Option<IndexResponse>
    requires ms != []
  {
    if |ms| == 1 then None
    else
      var before := ms[|ms| - 2];
      Some(IndexResponse(Concat(KeyChunks(ms)), |Concat(ResultChunks(ms))|, None,
                         before.hasContinuation, before.continuation, before.hasDone, before.done, ms))
  }

  /** The client after all messages of a stream that does not crash. */
  function FinalClient(cb: bool, ms: seq<IndexMsg>): Client<IndexResponse>
    requires ms != []
  {
    if Answerable(ms)
    then Client(Some(AllIndexed(ms)), if cb then [Some(AllIndexed(ms))] else [], [], false)
    else Client(RejectedIndex(ms), [], [], false)
  }

  /** What riak_read returns for a whole list of messages. */
  function IndexOutcome(ms: seq<IndexMsg>): Outcome
    requires ms != []
  {
    if Answerable(ms) then Ok else if Crashing(ms) then Fault else ReadError
  }

  /** A message that makes the response be assembled: the last, or any with the streaming flag set. */
  lemma AssemblingIndexStep(streaming: bool, copies: nat -> bool, prior: IndexResponse, ms: seq<IndexMsg>)
    requires ms != [] && copies(0) && prior.history == ms[..|ms| - 1]
    requires streaming || ms[|ms| - 1].IsLast()
    ensures var (status, r) := IndexStep(streaming, copies, prior, ms[|ms| - 1]);
            && (status == Decoded <==> Answerable(ms))
            && (status == Crashed <==> Crashing(ms))
            && (status == Decoded ==> r == AllIndexed(ms))
            && (status == Rejected && |ms| > 1 && prior == StoredIndex(ms[..|ms| - 1]) ==> Some(r) == RejectedIndex(ms))
  {
    assert prior.history + [ms[|ms| - 1]] == ms;
    NoResultsAtAll(ms);
  }

  lemma LastIndexDispatch(cfg: Config<IndexResponse>, copies: nat -> bool, unpack: seq<byte> -> Option<IndexMsg>,
                          frame: seq<byte>, ms: seq<IndexMsg>)
    requires QueriesIndex(cfg, copies, unpack) && WellFormed(frame) && frame[0] != MSG_RPBERRORRESP
    requires ms != [] && unpack(frame[1..]) == Some(ms[|ms| - 1]) && ms[|ms| - 1].IsLast()
    ensures var (c, st) := Handle(cfg, StoredClient(ms[..|ms| - 1]), frame);
            && st == Return(IndexOutcome(ms), true)
            && if Crashing(ms) then c.fault && c.fired == [] else c == FinalClient(cfg.responseCb, ms)
  {
    var c := StoredClient(ms[..|ms| - 1]);
    AssemblingIndexStep(false, copies, if c.response.Some? then c.response.value else CLEARED_INDEX_RESPONSE, ms);
    assert cfg.decoder.value(c.response, frame) == IndexDecode(false, copies, unpack, c.response, frame);
  }

  /** Secondary indexes as written: when the last message has come, the response has all keys in order,
      and the callback, if there is one, gets it, exactly when no message without keys precedes one with
      keys and no message has results. Otherwise it is not called at all: behaviour becomes undefined if
      there is such a gap, or there are results but none in the first message, and any other stream with
      results is rejected. */
  lemma IndexAnsweredExactlyWhen(cfg: Config<IndexResponse>, copies: nat -> bool, unpack: seq<byte> -> Option<IndexMsg>,
                                 frames: seq<seq<byte>>, ms: seq<IndexMsg>)
    requires QueriesIndex(cfg, copies, unpack) && Carry(unpack, frames, ms) && ms != []
    requires forall i :: 0 <= i < |ms| ==> (ms[i].IsLast() <==> i == |ms| - 1)
    ensures var c := HandleAll(cfg, frames);
            if Crashing(ms) then c.fault && c.fired == [] else c == FinalClient(cfg.responseCb, ms)
    ensures EndedBy(cfg, frames, Return(IndexOutcome(ms), true))
  {
    var last := |frames| - 1;
    IndexStores(cfg, copies, unpack, frames[..last], ms[..last]);
    LastIndexDispatch(cfg, copies, unpack, frames[last], ms);
  }

  lemma AnswerableSoFar(ms: seq<IndexMsg>, n: nat)
    requires Answerable(ms) && n <= |ms|
    ensures Answerable(ms[..n])
  {
    assert forall i :: 0 <= i < n ==> KeyChunks(ms[..n])[i] == KeyChunks(ms)[i];
  }

  /** The operation decodes 2i messages with the streaming flag set. */
  ghost predicate StreamsIndex(cfg: Config<IndexResponse>, copies: nat -> bool, unpack: seq<byte> -> Option<IndexMsg>) {
    && cfg.decoder.Some? && copies(0)
    && forall r: Option<IndexResponse>, f: seq<byte> :: cfg.decoder.value(r, f) == IndexDecode(true, copies, unpack, r, f)
  }

  lemma StreamedIndexDispatch(cfg: Config<IndexResponse>, copies: nat -> bool, unpack: seq<byte> -> Option<IndexMsg>,
                              c: Client<IndexResponse>, frame: seq<byte>, ms: seq<IndexMsg>)
    requires StreamsIndex(cfg, copies, unpack) && ms != [] && Answerable(ms) && !c.fault
    requires WellFormed(frame) && frame[0] != MSG_RPBERRORRESP && unpack(frame[1..]) == Some(ms[|ms| - 1])
    requires c.response == if |ms| == 1 then None else Some(AllIndexed(ms[..|ms| - 1]))
    ensures var c' := Handle(cfg, c, frame).0; !c'.fault && c'.response == Some(AllIndexed(ms))
  {
    AssemblingIndexStep(true, copies, if c.response.Some? then c.response.value else CLEARED_INDEX_RESPONSE, ms);
    assert cfg.decoder.value(c.response, frame) == IndexDecode(true, copies, unpack, c.response, frame);
  }

  /** With the streaming flag set, which nothing in the library does, the response is assembled anew
      with every message. */
  lemma {:induction false} StreamedIndexKeepsUp(cfg: Config<IndexResponse>, copies: nat -> bool,
                                                unpack: seq<byte> -> Option<IndexMsg>,
                                                frames: seq<seq<byte>>, ms: seq<IndexMsg>)
    requires StreamsIndex(cfg, copies, unpack) && Carry(unpack, frames, ms) && Answerable(ms)
    ensures var c := HandleAll(cfg, frames);
            !c.fault && c.response == if ms == [] then None else Some(AllIndexed(ms))
    decreases |frames|
  {
    if frames != [] {
      var last := |frames| - 1;
      AnswerableSoFar(ms, last);
      StreamedIndexKeepsUp(cfg, copies, unpack, frames[..last], ms[..last]);
      StreamedIndexDispatch(cfg, copies, unpack, HandleAll(cfg, frames[..last]), frames[last], ms);
    }
  }

  /** What is to be seen when so much of such a stream, of which `whole` says whether it is all, has been read. */
  predicate IndexReported(cb: bool, frames: seq<seq<byte>>, ms: seq<IndexMsg>, whole: bool, t: State<IndexResponse>)
    requires ms != [] && |frames| == |ms|
  {
    if !whole then t.frames < frames && t.client == StoredClient(ms[..|t.frames|])
    else if Crashing(ms) then t.client.fault
    else t.frames == frames && t.client == FinalClient(cb, ms)
  }

  lemma IndexReportedAt(cfg: Config<IndexResponse>, copies: nat -> bool, unpack: seq<byte> -> Option<IndexMsg>,
                        frames: seq<seq<byte>>, ms: seq<IndexMsg>, n: nat, t: State<IndexResponse>)
    requires QueriesIndex(cfg, copies, unpack) && Carry(unpack, frames, ms) && ms != [] && n <= |frames|
    requires forall i :: 0 <= i < |ms| ==> (ms[i].IsLast() <==> i == |ms| - 1)
    requires if HandleAll(cfg, frames[..n]).fault then t.client.fault else At(cfg, frames, n, t)
    ensures IndexReported(cfg.responseCb, frames, ms, n == |frames|, t)
  {
    if n < |frames| {
      IndexStores(cfg, copies, unpack, frames[..n], ms[..n]);
    } else {
      assert frames[..n] == frames;
      IndexAnsweredExactlyWhen(cfg, copies, unpack, frames, ms);
    }
  }

  /** The same over every chunking and every split into calls of the resumable reader, for every
      stream, answerable or not. */
  lemma IndexEndToEnd(cfg: Config<IndexResponse>, copies: nat -> bool, unpack: seq<byte> -> Option<IndexMsg>,
                      frames: seq<seq<byte>>, ms: seq<IndexMsg>, rs: seq<Reply>)
    requires QueriesIndex(cfg, copies, unpack) && Carry(unpack, frames, ms) && ms != []
    requires forall i :: 0 <= i < |ms| ==> (ms[i].IsLast() <==> i == |ms| - 1)
    requires Possible(Resumable, cfg, Start<IndexResponse>(), rs) && Consumed(rs) <= Encode(frames)
    ensures IndexReported(cfg.responseCb, frames, ms, Consumed(rs) == Encode(frames),
                          Run(Resumable, cfg, Start<IndexResponse>(), rs))
  {
    var n := RunOnStream(cfg, frames, rs);
    IndexReportedAt(cfg, copies, unpack, frames, ms, n, Run(Resumable, cfg, Start<IndexResponse>(), rs));
  }

  /** And of the code as written, over clean runs. */
  lemma CleanIndexEndToEnd(cfg: Config<IndexResponse>, copies: nat -> bool, unpack: seq<byte> -> Option<IndexMsg>,
                           frames: seq<seq<byte>>, ms: seq<IndexMsg>, rs: seq<Reply>)
    requires QueriesIndex(cfg, copies, unpack) && Carry(unpack, frames, ms) && ms != []
    requires forall i :: 0 <= i < |ms| ==> (ms[i].IsLast() <==> i == |ms| - 1)
    requires Possible(AsWritten, cfg, Start<IndexResponse>(), rs) && Clean(cfg, Start<IndexResponse>(), rs)
    requires Consumed(rs) <= Encode(frames)
    ensures IndexReported(cfg.responseCb, frames, ms, Consumed(rs) == Encode(frames),
                          Run(AsWritten, cfg, Start<IndexResponse>(), rs))
  {
    CleanRunFromStart(cfg, rs);
    IndexEndToEnd(cfg, copies, unpack, frames, ms, rs);
  }

  /** Eager and deferred accumulation agree: for the same chunks of keys, list keys' appending and
      2i's storing and flattening give the same list, whenever the latter is defined; and both keep
      the exact message history. */
  lemma EagerAndDeferredAgree(lists: Config<ListResponse>, unpackList: seq<byte> -> Option<ListMsg>,
                              listFrames: seq<seq<byte>>, lms: seq<ListMsg>,
                              index: Config<IndexResponse>, copies: nat -> bool, unpackIndex: seq<byte> -> Option<IndexMsg>,
                              indexFrames: seq<seq<byte>>, ims: seq<IndexMsg>)
    requires ListsKeys(lists, unpackList) && Carry(unpackList, listFrames, lms)
    requires QueriesIndex(index, copies, unpackIndex) && Carry(unpackIndex, indexFrames, ims)
    requires |lms| == |ims| > 0 && ItemChunks(lms) == KeyChunks(ims)
    requires forall i :: 0 <= i < |ims| ==> (ims[i].IsLast() <==> i == |ims| - 1)
    requires Answerable(ims)
    ensures var eager, deferred := HandleAll(lists, listFrames), HandleAll(index, indexFrames);
            && eager.response.Some? && deferred.response.Some?
            && eager.response.value.items == deferred.response.value.keys
            && eager.response.value.history == lms && deferred.response.value.history == ims
  {
    ListsAccumulate(lists, unpackList, listFrames, lms);
    IndexAnsweredExactlyWhen(index, copies, unpackIndex, indexFrames, ims);
  }

  // ----- Map/reduce -----

  ghost predicate MapsAndReduces(cfg: Config<MapRedResponse>, unpack: seq<byte> -> Option<MapRedMsg>) {
    && cfg.decoder.Some?
    && forall r: Option<MapRedResponse>, f: seq<byte> :: cfg.decoder.value(r, f) == MapRedDecode(false, unpack, r, f)
  }

  /** The response after some messages, of which only the k-th is marked as the last. */
  function MapRedSoFar(ms: seq<MapRedMsg>, k: nat): MapRedResponse {
    MapRedResponse(if |ms| > k then ms[..k + 1] else [], ms)
  }

  function MapRedClient(cb: bool, ms: seq<MapRedMsg>, k: nat): Client<MapRedResponse> {
    Client(if ms == [] then None else Some(MapRedSoFar(ms, k)),
           if cb && |ms| > k then [Some(MapRedResponse(ms[..k + 1], ms[..k + 1]))] else [], [], false)
  }

  lemma MapRedStepAdds(ms: seq<MapRedMsg>, k: nat)
    requires ms != [] && (ms[|ms| - 1].IsLast() <==> |ms| - 1 == k)
    ensures var init := ms[..|ms| - 1];
            MapRedStep(false, if init == [] then None else Some(MapRedSoFar(init, k)), ms[|ms| - 1]) == MapRedSoFar(ms, k)
  {
    var init := ms[..|ms| - 1];
    assert init + [ms[|ms| - 1]] == ms;
    if |init| > k {
      assert init[..k + 1] == ms[..k + 1];
    } else if |init| == k {
      assert ms[..k + 1] == ms;
    }
  }

  lemma MapRedDispatch(cfg: Config<MapRedResponse>, unpack: seq<byte> -> Option<MapRedMsg>,
                       frame: seq<byte>, ms: seq<MapRedMsg>, k: nat)
    requires MapsAndReduces(cfg, unpack) && ms != [] && (ms[|ms| - 1].IsLast() <==> |ms| - 1 == k)
    requires WellFormed(frame) && frame[0] != MSG_RPBERRORRESP && unpack(frame[1..]) == Some(ms[|ms| - 1])
    ensures Handle(cfg, MapRedClient(cfg.responseCb, ms[..|ms| - 1], k), frame).0 == MapRedClient(cfg.responseCb, ms, k)
  {
    var last := |ms| - 1;
    var c := MapRedClient(cfg.responseCb, ms[..last], k);
    assert cfg.decoder.value(c.response, frame) == Decoding(Decoded, Some(MapRedSoFar(ms, k)), last == k) by {
      MapRedStepAdds(ms, k);
    }
    if last > k {
      assert ms[..last][..k + 1] == ms[..k + 1];
    } else if last == k {
      assert ms[..k + 1] == ms;
    }
  }

  /** The response of map/reduce is the exact message history, and the callback, if there is one, is given
      it once, when the last message has come. */
  lemma {:induction false} MapRedKeepsHistory(cfg: Config<MapRedResponse>, unpack: seq<byte> -> Option<MapRedMsg>,
                                              frames: seq<seq<byte>>, ms: seq<MapRedMsg>, k: nat)
    requires MapsAndReduces(cfg, unpack) && Carry(unpack, frames, ms)
    requires forall i :: 0 <= i < |ms| ==> (ms[i].IsLast() <==> i == k)
    ensures HandleAll(cfg, frames) == MapRedClient(cfg.responseCb, ms, k)
    decreases |frames|
  {
    if frames != [] {
      var last := |frames| - 1;
      MapRedKeepsHistory(cfg, unpack, frames[..last], ms[..last], k);
      MapRedDispatch(cfg, unpack, frames[last], ms, k);
    }
  }

  /** Over every chunking and every split into calls of the resumable reader: at every point the client
      is that of the messages read so far, so the history is handed out once, when message k has come. */
  lemma MapRedEndToEnd(cfg: Config<MapRedResponse>, unpack: seq<byte> -> Option<MapRedMsg>,
                       frames: seq<seq<byte>>, ms: seq<MapRedMsg>, k: nat, rs: seq<Reply>)
    requires MapsAndReduces(cfg, unpack) && Carry(unpack, frames, ms)
    requires forall i :: 0 <= i < |ms| ==> (ms[i].IsLast() <==> i == k)
    requires Possible(Resumable, cfg, Start<MapRedResponse>(), rs) && Consumed(rs) <= Encode(frames)
    ensures var t := Run(Resumable, cfg, Start<MapRedResponse>(), rs);
            && t.frames <= frames && t.client == MapRedClient(cfg.responseCb, ms[..|t.frames|], k)
            && (Consumed(rs) == Encode(frames) <==> t.frames == frames)
  {
    var n := RunOnStream(cfg, frames, rs);
    MapRedKeepsHistory(cfg, unpack, frames[..n], ms[..n], k);
    assert frames[..n] == frames <==> n == |frames|;
  }

  /** And of the code as written, over clean runs. */
  lemma CleanMapRedEndToEnd(cfg: Config<MapRedResponse>, unpack: seq<byte> -> Option<MapRedMsg>,
                            frames: seq<seq<byte>>, ms: seq<MapRedMsg>, k: nat, rs: seq<Reply>)
    requires MapsAndReduces(cfg, unpack) && Carry(unpack, frames, ms)
    requires forall i :: 0 <= i < |ms| ==> (ms[i].IsLast() <==> i == k)
    requires Possible(AsWritten, cfg, Start<MapRedResponse>(), rs) && Clean(cfg, Start<MapRedResponse>(), rs)
    requires Consumed(rs) <= Encode(frames)
    ensures var t := Run(AsWritten, cfg, Start<MapRedResponse>(), rs);
            && t.frames <= frames && t.client == MapRedClient(cfg.responseCb, ms[..|t.frames|], k)
            && (Consumed(rs) == Encode(frames) <==> t.frames == frames)
  {
    CleanRunFromStart(cfg, rs);
    MapRedEndToEnd(cfg, unpack, frames, ms, k, rs);
  }

  /** With the streaming flag set, which nothing in the library does, the user-level messages keep up with
      the history. */
  lemma {:induction false} StreamedMapRedKeepsUp(cfg: Config<MapRedResponse>, unpack: seq<byte> -> Option<MapRedMsg>,
                                                 frames: seq<seq<byte>>, ms: seq<MapRedMsg>)
    requires cfg.decoder.Some? && Carry(unpack, frames, ms)
    requires forall r, f :: cfg.decoder.value(r, f) == MapRedDecode(true, unpack, r, f)
    ensures var c := HandleAll(cfg, frames);
            !c.fault && c.response == if ms == [] then None else Some(MapRedResponse(ms, ms))
    decreases |frames|
  {
    if frames != [] {
      var last := |frames| - 1;
      StreamedMapRedKeepsUp(cfg, unpack, frames[..last], ms[..last]);
      assert ms[..last] + [ms[last]] == ms;
      var c := HandleAll(cfg, frames[..last]);
      assert cfg.decoder.value(c.response, frames[last]) == Decoding(Decoded, Some(MapRedResponse(ms, ms)), ms[last].IsLast());
    }
  }

  // ----- Frames that do not unpack -----

  /** No error frame, and its body is no message. */
  predicate Unreadable<M>(unpack: seq<byte> -> Option<M>, frame: seq<byte>) {
    WellFormed(frame) && frame[0] != 0 && unpack(frame[1..]).None?
  }

  /** The frame ends the call with an error, leaves the response as it was and calls nothing. */
  ghost predicate Refused<R>(cfg: Config<R>, c: Client<R>, frame: seq<byte>)
    requires WellFormed(frame)
  {
    Handle(cfg, c, frame) == (c, Return(ReadError, true))
  }

  lemma UnreadableListFrameIsRefused(cfg: Config<ListResponse>, unpack: seq<byte> -> Option<ListMsg>,
                                     c: Client<ListResponse>, frame: seq<byte>)
    requires ListsKeys(cfg, unpack) && Unreadable(unpack, frame)
    ensures Refused(cfg, c, frame)
  {
    assert cfg.decoder.value(c.response, frame) == ListDecode(unpack, c.response, frame);
  }

  lemma UnreadableIndexFrameIsRefused(cfg: Config<IndexResponse>, copies: nat -> bool, unpack: seq<byte> -> Option<IndexMsg>,
                                      c: Client<IndexResponse>, frame: seq<byte>)
    requires QueriesIndex(cfg, copies, unpack) && Unreadable(unpack, frame)
    ensures Refused(cfg, c, frame)
  {
    assert cfg.decoder.value(c.response, frame) == IndexDecode(false, copies, unpack, c.response, frame);
  }

  lemma UnreadableMapRedFrameIsRefused(cfg: Config<MapRedResponse>, unpack: seq<byte> -> Option<MapRedMsg>,
                                       c: Client<MapRedResponse>, frame: seq<byte>)
    requires MapsAndReduces(cfg, unpack) && Unreadable(unpack, frame)
    ensures Refused(cfg, c, frame)
  {
    assert cfg.decoder.value(c.response, frame) == MapRedDecode(false, unpack, c.response, frame);
  }

  /** These decoders ask for no more messages when they fail, as the adapter relies on. */
  lemma DecodersCloseOnError(lists: Config<ListResponse>, unpackList: seq<byte> -> Option<ListMsg>,
                             index: Config<IndexResponse>, copies: nat -> bool, unpackIndex: seq<byte> -> Option<IndexMsg>,
                             mapred: Config<MapRedResponse>, unpackMapRed: seq<byte> -> Option<MapRedMsg>)
    requires ListsKeys(lists, unpackList)
    requires QueriesIndex(index, copies, unpackIndex)
    requires MapsAndReduces(mapred, unpackMapRed)
    ensures ClosesOnError(lists) && ClosesOnError(index) && ClosesOnError(mapred)
  {
  }
}
