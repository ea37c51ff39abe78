/** The two callers of riak_read, the synchronous request and the libevent adapter, and what the
    synchronous functions for streamed responses hand out. */
module Callers {
  import opened Wire
  import opened Framing
  import opened Reader
  import opened EventLoop
  import opened Callbacks
  import opened Operation
  import opened Streaming
  import opened EndToEnd
  import opened StreamCalls
  import opened Writing

  /** riak_sync_request: one write, one read, and whatever response there is by then. */
  method SyncRequest<R>(rop: RiakOperation<R>, out: Output, input: Input, reqid: byte, body: seq<byte>)
    returns (written: WriteOutcome, outcome: Outcome, response: Option<R>, ghost done: bool, ghost rs: seq<Reply>)
    requires rop.Valid() && |body| < TWO_TO_THE_32
    modifies rop, rop.msgbuf, out, input
    ensures exists ns :: IsWrite(Parts(reqid, body), ns, written)
                      && out.sent == old(out.sent) + Accepted(Parts(reqid, body), ns)
    ensures written == WriteError ==> rop.Snapshot() == old(rop.Snapshot()) && input.pending == old(input.pending)
    ensures written == WriteOk ==>
      && response == rop.Snapshot().client.response
      && Finished(rop.cfg, old(rop.Snapshot()), old(input.pending), input.eager,
                  rop.Snapshot(), input.pending, rs, outcome, done)
    ensures written == WriteOk && input.eager ==>
      var one := FullCall(AsWritten, rop.cfg, old(rop.Snapshot()), old(input.pending));
      rop.Snapshot() == one.state && outcome == one.outcome && done == one.done && response == one.state.client.response
  {
    ghost var ns;
    written, ns := Write(out, rop.cfg.order, reqid, body);
    if written == WriteError {
      return written, Ok, None, false, [];
    }
    var done_streaming;
    outcome, done_streaming, rs := rop.Read(input);
    done := done_streaming;
    response := rop.response;
  }

  /** How every synchronous function makes its request: a new operation, without callbacks. */
  method NewRequest<R>(cfg: Config<R>, out: Output, input: Input, reqid: byte, body: seq<byte>)
    returns (written: WriteOutcome, outcome: Outcome, response: Option<R>, ghost done: bool, ghost rs: seq<Reply>)
    requires |body| < TWO_TO_THE_32
    modifies out, input
    ensures written == WriteError ==> input.pending == old(input.pending)
    ensures written == WriteOk ==>
      && IsCall(AsWritten, Quiet(cfg), Start<R>(), rs, outcome, done) && Possible(AsWritten, Quiet(cfg), Start<R>(), rs)
      && Consumed(rs) + input.pending == old(input.pending)
      && response == Run(AsWritten, Quiet(cfg), Start<R>(), rs).client.response
    ensures written == WriteOk && input.eager ==>
      && !BodyFails(Quiet(cfg), Start<R>(), rs)
      && var one := FullCall(AsWritten, Quiet(cfg), Start<R>(), old(input.pending));
      outcome == one.outcome && done == one.done && response == one.state.client.response
  {
    var rop := new RiakOperation<R>(Quiet(cfg));
    written, outcome, response, done, rs := SyncRequest(rop, out, input, reqid, body);
    if written == WriteOk && input.eager {
      NoBodyFails(Quiet(cfg), Start<R>(), rs);
    }
  }

  /** riak_listkeys, while the server sends `frames`, of which message k is marked as the last. However short
      the reads, unless one of a body fails, the response holds the keys of all messages read, in order: up to
      message k if the call is done, and otherwise fewer, which the result does not tell. Behind a callback
      that hands out all it has, the result is OK, and the list complete exactly when message k had arrived. */
  method ListKeys(cfg: Config<ListResponse>, out: Output, input: Input, reqid: byte, body: seq<byte>,
                  ghost unpack: seq<byte> -> Option<ListMsg>,
                  ghost frames: seq<seq<byte>>, ghost ms: seq<ListMsg>, ghost k: nat)
    returns (written: WriteOutcome, outcome: Outcome, response: Option<ListResponse>,
             ghost done: bool, ghost rs: seq<Reply>, ghost n: nat)
    requires |body| < TWO_TO_THE_32 && ListsKeys(cfg, unpack) && Carry(unpack, frames, ms)
    requires forall i :: 0 <= i < |ms| ==> (ms[i].IsLast() <==> i == k)
    requires input.pending <= Encode(frames)
    modifies out, input
    ensures written == WriteOk ==> Possible(AsWritten, Quiet(cfg), Start(), rs)
    ensures written == WriteOk && !BodyFails(Quiet(cfg), Start(), rs) ==>
      && n <= |ms| && response == (if n == 0 then None else Some(AllListed(ms[..n])))
      && if done then n == k + 1 && outcome == Ok else n <= k
    ensures written == WriteOk && input.eager ==>
      && !BodyFails(Quiet(cfg), Start(), rs)
      && outcome == Ok && (done <==> Reaches(frames, k, old(input.pending)))
  {
    ghost var pending := input.pending;
    written, outcome, response, done, rs := NewRequest(cfg, out, input, reqid, body);
    n := 0;
    if written == WriteOk && !BodyFails(Quiet(cfg), Start(), rs) {
      assert Consumed(rs) <= pending;
      ListCall(Quiet(cfg), unpack, frames, ms, k, rs, outcome, done);
      ListCallDoneExactlyAtLast(Quiet(cfg), unpack, frames, ms, k, pending);
      n := |Run(AsWritten, Quiet(cfg), Start<ListResponse>(), rs).frames|;
    }
  }

  /** riak_mapreduce, likewise: the stored history is that of the messages read, and the user-level messages
      are made of it when message k is among them. */
  method MapReduce(cfg: Config<MapRedResponse>, out: Output, input: Input, reqid: byte, body: seq<byte>,
                   ghost unpack: seq<byte> -> Option<MapRedMsg>,
                   ghost frames: seq<seq<byte>>, ghost ms: seq<MapRedMsg>, ghost k: nat)
    returns (written: WriteOutcome, outcome: Outcome, response: Option<MapRedResponse>,
             ghost done: bool, ghost rs: seq<Reply>, ghost n: nat)
    requires |body| < TWO_TO_THE_32 && MapsAndReduces(cfg, unpack) && Carry(unpack, frames, ms)
    requires forall i :: 0 <= i < |ms| ==> (ms[i].IsLast() <==> i == k)
    requires input.pending <= Encode(frames)
    modifies out, input
    ensures written == WriteOk ==> Possible(AsWritten, Quiet(cfg), Start(), rs)
    ensures written == WriteOk && !BodyFails(Quiet(cfg), Start(), rs) ==>
      && n <= |ms| && response == (if n == 0 then None else Some(MapRedResponse(if done then ms[..n] else [], ms[..n])))
      && if done then n == k + 1 && outcome == Ok else n <= k
    ensures written == WriteOk && input.eager ==>
      && !BodyFails(Quiet(cfg), Start(), rs)
      && outcome == Ok && (done <==> Reaches(frames, k, old(input.pending)))
  {
    ghost var pending := input.pending;
    written, outcome, response, done, rs := NewRequest(cfg, out, input, reqid, body);
    n := 0;
    if written == WriteOk && !BodyFails(Quiet(cfg), Start(), rs) {
      assert Consumed(rs) <= pending;
      MapRedCall(Quiet(cfg), unpack, frames, ms, k, rs, outcome, done);
      MapRedCallDoneExactlyAtLast(Quiet(cfg), unpack, frames, ms, k, pending);
      MapRedHandsOut(frames, ms, k, Run(AsWritten, Quiet(cfg), Start(), rs), outcome, done);
      n := |Run(AsWritten, Quiet(cfg), Start<MapRedResponse>(), rs).frames|;
    }
  }

  /** riak_2i, while the server sends `frames`, of which the last is marked so. When all of them have been read,
      the result is what the messages decide: all keys in order and OK, or an error with what the rejected
      message has left behind, if behaviour is defined at all; before, it is a response that has stored the
      messages read and has no keys. */
  method QueryIndex(cfg: Config<IndexResponse>, out: Output, input: Input, reqid: byte, body: seq<byte>,
                    ghost copies: nat -> bool, ghost unpack: seq<byte> -> Option<IndexMsg>,
                    ghost frames: seq<seq<byte>>, ghost ms: seq<IndexMsg>)
    returns (written: WriteOutcome, outcome: Outcome, response: Option<IndexResponse>,
             ghost done: bool, ghost rs: seq<Reply>, ghost n: nat)
    requires |body| < TWO_TO_THE_32 && QueriesIndex(cfg, copies, unpack) && Carry(unpack, frames, ms) && ms != []
    requires forall i :: 0 <= i < |ms| ==> (ms[i].IsLast() <==> i == |ms| - 1)
    requires input.pending <= Encode(frames)
    modifies out, input
    ensures written == WriteOk ==> Possible(AsWritten, Quiet(cfg), Start(), rs)
    ensures written == WriteOk && !BodyFails(Quiet(cfg), Start(), rs) ==>
      && (done <==> Consumed(rs) == Encode(frames))
      && (!done ==> n < |ms| && response == if n == 0 then None else Some(StoredIndex(ms[..n])))
      && (done ==> outcome == IndexOutcome(ms))
      && (done && outcome != Fault ==> response == if outcome == Ok then Some(AllIndexed(ms)) else RejectedIndex(ms))
    ensures written == WriteOk && input.eager ==>
      !BodyFails(Quiet(cfg), Start(), rs) && (done <==> old(input.pending) == Encode(frames))
  {
    ghost var pending := input.pending;
    written, outcome, response, done, rs := NewRequest(cfg, out, input, reqid, body);
    n := 0;
    if written == WriteOk && !BodyFails(Quiet(cfg), Start(), rs) {
      assert Consumed(rs) <= pending;
      IndexCallAsWritten(Quiet(cfg), copies, unpack, frames, ms, rs, outcome, done);
      FullIndexCall(Quiet(cfg), copies, unpack, frames, ms, pending);
      FullCallsAgree(Quiet(cfg), Start<IndexResponse>(), pending);
      n := |Run(AsWritten, Quiet(cfg), Start<IndexResponse>(), rs).frames|;
    }
  }

  /** The adapter's shared data: the operation, and the bufferevent until it is freed. */
  class Libevent<R> {
    const rop: RiakOperation<R>
    var bevent: Input?

    constructor (rop: RiakOperation<R>, bevent: Input)
      ensures this.rop == rop && this.bevent == bevent
    {
      this.rop, this.bevent := rop, bevent;
    }

    /** riak_libevent_result_cb, called on a readable event. */
    method ResultCb()
      requires bevent != null && bevent.eager && rop.Valid()
      modifies this, rop, rop.msgbuf, bevent
      ensures bevent == null || bevent == old(bevent)
      ensures !rop.faulted ==> rop.Valid()
      ensures Loop(rop.Snapshot(), old(bevent).pending, bevent != null)
           == OnEvent(AsWritten, rop.cfg, old(Loop(rop.Snapshot(), bevent.pending, true)), Readable)
    {
      var err, done_streaming;
      ghost var rs;
      err, done_streaming, rs := rop.Read(bevent);
      if done_streaming {
        bevent := null;
      }
    }
  }
}
