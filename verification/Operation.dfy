/** riak_read on a heap: the operation's fields, its message buffer, and the receiving end of the
    connection. Each method is proved against the state machine as written. */
module Operation {
  import opened Wire
  import opened Framing
  import opened Reader
  import opened AsWrittenReader
  import opened EventLoop

  /** The receiving end of a connection behind a read callback. An eager one hands out all it
      can, as bufferevent_read does; one that is not may return any number of bytes from none
      to what was asked for and is there, or -1, as read(2) does. */
  class Input {
    const eager: bool
    var pending: seq<byte>

    constructor (eager: bool, pending: seq<byte>)
      ensures this.eager == eager && this.pending == pending
    {
      this.eager, this.pending := eager, pending;
    }

    /** The read callback: store at most `size` bytes at `offset`, and return their number. */
    method Fetch(buf: array<byte>, offset: nat, size: nat) returns (n: int, ghost r: Reply)
      requires offset + size <= buf.Length
      modifies this, buf
      ensures -1 <= n <= Min(size, |old(pending)|)
      ensures eager ==> n == Min(size, |old(pending)|)
      ensures n < 0 ==> pending == old(pending) && buf[..] == old(buf[..])
      ensures n >= 0 ==> pending == old(pending)[n..]
      ensures n >= 0 ==> buf[..] == Overlay(old(buf[..]), offset, old(pending)[..n])
      ensures r == if n < 0 then Failed else Bytes(old(pending)[..n])
    {
      var most := Min(size, |pending|);
      n :| -1 <= n <= most && (eager ==> n == most);
      r := if n < 0 then Failed else Bytes(pending[..n]);
      if n < 0 {
        return;
      }
      ghost var before := buf[..];
      for i := 0 to n
        modifies buf
        invariant buf[..] == before[..offset] + pending[..i] + before[offset + i..]
      {
        buf[offset + i] := pending[i];
      }
      pending := pending[n..];
    }
  }

  lemma BodyLeadsOn<R>(cfg: Config<R>, s: State<R>, r: Reply)
    requires Ready(s) && s.complete && Fits(s, r)
    ensures var (t, st) := BodyStep(AsWritten, cfg, s, r);
            && (st == Again ==> Ready(t) && !t.complete)
            && (st != Again && !t.client.fault ==> Ready(t) && Unfinished(t))
  {
  }

  /** Reads after each of which the loop goes round again. */
  ghost predicate Continues<R>(cfg: Config<R>, s: State<R>, rs: seq<Reply>)
    decreases |rs|
  {
    rs == [] ||
    (&& Ready(s) && Fits(s, rs[0])
     && var (s', st) := Step(AsWritten, cfg, s, rs[0]);
     st == Again && Continues(cfg, s', rs[1..]))
  }

  /** Part of a call: the reads `rs` led from `s0` to `s` and the input from `pending0` to `pending`. */
  ghost predicate Underway<R>(cfg: Config<R>, s0: State<R>, pending0: seq<byte>, eager: bool,
                              s: State<R>, pending: seq<byte>, rs: seq<Reply>)
  {
    && Ready(s0)
    && Continues(cfg, s0, rs) && Possible(AsWritten, cfg, s0, rs) && Run(AsWritten, cfg, s0, rs) == s
    && Consumed(rs) + pending == pending0
    && (eager ==> forall i :: 0 <= i < |rs| ==> rs[i].Bytes?)
    && (eager ==> Ready(s) && FullCall(AsWritten, cfg, s0, pending0) == FullCall(AsWritten, cfg, s, pending))
  }

  /** A whole call of riak_read, returning `outcome` and `done`. */
  ghost predicate Finished<R>(cfg: Config<R>, s0: State<R>, pending0: seq<byte>, eager: bool,
                              s: State<R>, pending: seq<byte>, rs: seq<Reply>, outcome: Outcome, done: bool)
  {
    && IsCall(AsWritten, cfg, s0, rs, outcome, done)
    && Possible(AsWritten, cfg, s0, rs) && Run(AsWritten, cfg, s0, rs) == s
    && Consumed(rs) + pending == pending0
    && (eager ==> forall i :: 0 <= i < |rs| ==> rs[i].Bytes?)
    && (eager ==> Ready(s0) && FullCall(AsWritten, cfg, s0, pending0) == CallResult(s, outcome, done, pending))
  }

  lemma {:induction false} RunAppend<R>(v: Variant, cfg: Config<R>, s: State<R>, rs: seq<Reply>, r: Reply)
    requires Possible(v, cfg, s, rs)
    requires Ready(Run(v, cfg, s, rs)) && Fits(Run(v, cfg, s, rs), r)
    ensures Possible(v, cfg, s, rs + [r])
    ensures Run(v, cfg, s, rs + [r]) == Step(v, cfg, Run(v, cfg, s, rs), r).0
    decreases |rs|
  {
    if rs == [] {
      assert (rs + [r])[1..] == [];
    } else {
      assert (rs + [r])[1..] == rs[1..] + [r];
      RunAppend(v, cfg, Step(v, cfg, s, rs[0]).0, rs[1..], r);
    }
  }

  /** One more read makes a longer stretch of the call, or ends it. */
  lemma {:induction false} CallAppend<R>(cfg: Config<R>, s: State<R>, rs: seq<Reply>, r: Reply)
    requires Continues(cfg, s, rs) && Possible(AsWritten, cfg, s, rs)
    requires Ready(Run(AsWritten, cfg, s, rs)) && Fits(Run(AsWritten, cfg, s, rs), r)
    ensures var st := Step(AsWritten, cfg, Run(AsWritten, cfg, s, rs), r).1;
            if st == Again then Continues(cfg, s, rs + [r])
            else IsCall(AsWritten, cfg, s, rs + [r], st.outcome, st.done)
    decreases |rs|
  {
    if rs == [] {
      assert (rs + [r])[1..] == [];
    } else {
      assert (rs + [r])[1..] == rs[1..] + [r];
      CallAppend(cfg, Step(AsWritten, cfg, s, rs[0]).0, rs[1..], r);
    }
  }

  lemma OneMoreFullRead<R>(cfg: Config<R>, s: State<R>, pending: seq<byte>, pending': seq<byte>)
    requires Ready(s) && Available(s, pending) + pending' == pending
    ensures var (t, st) := Step(AsWritten, cfg, s, Bytes(Available(s, pending)));
            FullCall(AsWritten, cfg, s, pending) ==
              if st == Again then FullCall(AsWritten, cfg, t, pending')
              else CallResult(t, st.outcome, st.done, pending')
  {
    assert pending' == pending[|Available(s, pending)|..];
  }

  lemma ConsumedAppend(rs: seq<Reply>, r: Reply)
    ensures Consumed(rs + [r]) == Consumed(rs) + DataOf(r)
  {
    ConsumedConcatenates(rs, [r]);
    assert [r][1..] == [];
    assert Consumed([r]) == DataOf(r);
  }

  lemma OneMoreConsumed(rs: seq<Reply>, r: Reply, pending: seq<byte>, pending': seq<byte>)
    requires DataOf(r) + pending' == pending
    ensures Consumed(rs + [r]) + pending' == Consumed(rs) + pending
  {
    ConsumedAppend(rs, r);
    AppendIsAssociative(Consumed(rs), DataOf(r), pending');
  }

  lemma ReadLengthensCall<R>(cfg: Config<R>, s0: State<R>, pending0: seq<byte>, eager: bool,
                             s: State<R>, pending: seq<byte>, rs: seq<Reply>, r: Reply, pending': seq<byte>)
    requires Underway(cfg, s0, pending0, eager, s, pending, rs)
    requires Ready(s) && Fits(s, r) && DataOf(r) + pending' == pending
    requires eager ==> r == Bytes(Available(s, pending))
    requires Step(AsWritten, cfg, s, r).1 == Again
    ensures Underway(cfg, s0, pending0, eager, Step(AsWritten, cfg, s, r).0, pending', rs + [r])
  {
    var t := Step(AsWritten, cfg, s, r).0;
    assert Possible(AsWritten, cfg, s0, rs + [r]) && Run(AsWritten, cfg, s0, rs + [r]) == t by {
      RunAppend(AsWritten, cfg, s0, rs, r);
    }
    assert Continues(cfg, s0, rs + [r]) by {
      CallAppend(cfg, s0, rs, r);
    }
    OneMoreConsumed(rs, r, pending, pending');
    if eager {
      AgainIsReady(AsWritten, cfg, s, r.data);
      OneMoreFullRead(cfg, s, pending, pending');
    }
  }

  lemma ReadEndsCall<R>(cfg: Config<R>, s0: State<R>, pending0: seq<byte>, eager: bool,
                        s: State<R>, pending: seq<byte>, rs: seq<Reply>, r: Reply, pending': seq<byte>)
    requires Underway(cfg, s0, pending0, eager, s, pending, rs)
    requires Ready(s) && Fits(s, r) && DataOf(r) + pending' == pending
    requires eager ==> r == Bytes(Available(s, pending))
    requires Step(AsWritten, cfg, s, r).1 != Again
    ensures var (t, st) := Step(AsWritten, cfg, s, r);
            Finished(cfg, s0, pending0, eager, t, pending', rs + [r], st.outcome, st.done)
  {
    RunAppend(AsWritten, cfg, s0, rs, r);
    CallAppend(cfg, s0, rs, r);
    OneMoreConsumed(rs, r, pending, pending');
    if eager {
      OneMoreFullRead(cfg, s, pending, pending');
    }
  }

  lemma OneMoreRead<R>(cfg: Config<R>, s0: State<R>, pending0: seq<byte>, eager: bool,
                       s: State<R>, pending: seq<byte>, rs: seq<Reply>, r: Reply, pending': seq<byte>)
    requires Underway(cfg, s0, pending0, eager, s, pending, rs)
    requires Ready(s) && Fits(s, r) && DataOf(r) + pending' == pending
    requires eager ==> r == Bytes(Available(s, pending))
    ensures var (t, st) := Step(AsWritten, cfg, s, r);
            if st == Again then Underway(cfg, s0, pending0, eager, t, pending', rs + [r])
            else Finished(cfg, s0, pending0, eager, t, pending', rs + [r], st.outcome, st.done)
  {
    if Step(AsWritten, cfg, s, r).1 == Again {
      ReadLengthensCall(cfg, s0, pending0, eager, s, pending, rs, r, pending');
    } else {
      ReadEndsCall(cfg, s0, pending0, eager, s, pending, rs, r, pending');
    }
  }

  class RiakOperation<R> {
    const cfg: Config<R>

    var position: nat
    var msglen: nat
    var msgbuf: array<byte>
    var msglenComplete: bool
    var response: Option<R>

    /** The calls made to the user's callbacks, in order. */
    var responseCalls: seq<Option<R>>
    var errorCalls: seq<ErrorMessage>

    /** Set where the C code's behaviour is no longer defined. */
    var faulted: bool

    /** The messages made of whole frames, in order. */
    var frames: seq<seq<byte>>

    constructor (cfg: Config<R>)
      ensures this.cfg == cfg && Snapshot() == Start()
      ensures fresh(msgbuf)
    {
      this.cfg := cfg;
      position, msglen, msglenComplete := 0, 0, false;
      msgbuf := new byte[0];
      response, responseCalls, errorCalls, faulted, frames := None, [], [], false, [];
    }

    ghost function Snapshot(): (s: State<R>)
      reads this, msgbuf
    {
      State(position, msglen, if msglenComplete then msgbuf[..] else [], msglenComplete, frames,
            Client(response, responseCalls, errorCalls, faulted))
    }

    /** What holds between calls of riak_read. */
    ghost predicate Valid()
      reads this, msgbuf
    {
      Ready(Snapshot()) && Unfinished(Snapshot())
    }

    /** The first half of the loop: a read of the length field. */
    method ReadLength(input: Input) returns (st: Status, ghost r: Reply)
      requires Ready(Snapshot()) && !msglenComplete
      modifies this, input
      ensures msgbuf == old(msgbuf) || fresh(msgbuf)
      ensures Fits(old(Snapshot()), r) && DataOf(r) + input.pending == old(input.pending)
      ensures input.eager ==> r == Bytes(Available(old(Snapshot()), old(input.pending)))
      ensures (Snapshot(), st) == HeaderStep(AsWritten, cfg, old(Snapshot()), r)
    {
      var stored := Memory(cfg.order, msglen);
      var inmsglen := new byte[4](i requires 0 <= i < 4 => stored[i]);
      assert inmsglen[..] == stored;
      var remaining := 4 - position;
      var buflen: int;
      buflen, r := input.Fetch(inmsglen, position, remaining);
      if buflen != remaining {
        if buflen == 0 {
          st := Return(Ok, false);
          return;
        }
        if 0 <= buflen < 4 {
          position, msglen := buflen, Word(cfg.order, inmsglen[..]);
          st := Return(Ok, false);
          return;
        }
        st := Return(ReadError, false);
        return;
      }
      st := StartBody(Word(cfg.order, inmsglen[..]));
    }

    /** The length field is whole: allocate the message buffer. */
    method StartBody(word: nat) returns (st: Status)
      requires word < TWO_TO_THE_32
      modifies this
      ensures fresh(msgbuf)
      ensures var n := Ntohl(cfg.order, word);
              var s := old(Snapshot()).(msglen := n, complete := true, msgbuf := FreshBuffer(cfg, |old(frames)|, n));
              (Snapshot(), st) == if n == 0 then (Faulted(s), Return(Fault, true)) else (s, Again)
    {
      msglenComplete := true;
      msglen := Ntohl(cfg.order, word);
      var k, junk := |frames|, cfg.junk;
      msgbuf := new byte[msglen](i requires 0 <= i => junk(k, i));
      assert msgbuf[..] == FreshBuffer(cfg, k, msglen);
      if msglen == 0 {
        // there is no id byte to read
        faulted := true;
        return Return(Fault, true);
      }
      return Again;
    }

    /** Dispatch of the whole frame in the buffer, once the reader's fields are reset. */
    method Dispatch(frame: seq<byte>) returns (st: Status)
      requires WellFormed(frame)
      modifies this
      ensures msgbuf == old(msgbuf) && msglenComplete == old(msglenComplete)
      ensures position == old(position) && msglen == old(msglen) && frames == old(frames)
      ensures (Client(response, responseCalls, errorCalls, faulted), st)
           == Handle(cfg, old(Client(response, responseCalls, errorCalls, faulted)), frame)
    {
      var msgid := frame[0];
      if cfg.decoder.None? {
        return Return(ReadError, true);
      }
      if msgid == MSG_RPBERRORRESP {
        var unpacked := cfg.unpackError(frame[1..]);
        if unpacked.None? {
          faulted := true;
          return Return(Fault, true);
        }
        if cfg.errorCb {
          errorCalls := errorCalls + [unpacked.value];
        }
        if cfg.errorCb {
          errorCalls := errorCalls + [unpacked.value];
        }
        assert cfg.errorCb ==> errorCalls == old(errorCalls) + [unpacked.value, unpacked.value];
        response := None;
        return Return(ServerError, true);
      }
      var d := cfg.decoder.value(response, frame);
      response := d.response;
      if d.status == Crashed {
        faulted := true;
        return Return(Fault, true);
      }
      if d.status == Rejected {
        return Return(ReadError, d.done);
      }
      if d.done {
        if cfg.responseCb {
          responseCalls := responseCalls + [response];
        }
        return Return(Ok, true);
      }
      return Again;
    }

    /** The buffer holds a whole frame: reset the reader's fields and dispatch it. */
    method HandOn() returns (st: Status)
      requires 1 <= msgbuf.Length < TWO_TO_THE_32
      modifies this
      ensures msgbuf == old(msgbuf)
      ensures (Snapshot(), st) == Deliver(cfg, old(Snapshot()), old(msgbuf[..]))
    {
      var frame := msgbuf[..];
      position, msglen, msglenComplete := 0, 0, false;
      frames := frames + [frame];
      st := Dispatch(frame);
    }

    /** The second half of the loop: a read of the body and, when it is whole, its dispatch. */
    method ReadBody(input: Input) returns (st: Status, ghost r: Reply)
      requires Ready(Snapshot()) && msglenComplete
      modifies this, msgbuf, input
      ensures msgbuf == old(msgbuf)
      ensures Fits(old(Snapshot()), r) && DataOf(r) + input.pending == old(input.pending)
      ensures input.eager ==> r == Bytes(Available(old(Snapshot()), old(input.pending)))
      ensures (Snapshot(), st) == BodyStep(AsWritten, cfg, old(Snapshot()), r)
    {
      var buflen: int;
      if position > msglen {
        // the size wraps around and the read may store anything past the buffer
        buflen, r := input.Fetch(msgbuf, msglen, 0);
        assert msgbuf[..] == old(msgbuf[..]);
        faulted := true;
        st := Return(Fault, true);
        return;
      }
      buflen, r := input.Fetch(msgbuf, position, msglen - position);
      position := Advance(position, buflen);
      if position < msglen {
        st := Return(Ok, false);
        return;
      }
      if position != msglen {
        faulted := true;
        st := Return(Fault, true);
        return;
      }
      st := HandOn();
    }

    /** ReadLength as the next read of a call whose reads so far were `rs0`. */
    method LengthTurn(input: Input, ghost s0: State<R>, ghost pending0: seq<byte>, ghost rs0: seq<Reply>)
      returns (st: Status, ghost rs: seq<Reply>)
      requires Valid() && !msglenComplete
      requires Underway(cfg, s0, pending0, input.eager, Snapshot(), input.pending, rs0)
      modifies this, input
      ensures msgbuf == old(msgbuf) || fresh(msgbuf)
      ensures if st == Again
              then && Ready(Snapshot()) && msglenComplete && |input.pending| < |old(input.pending)|
                   && Underway(cfg, s0, pending0, input.eager, Snapshot(), input.pending, rs)
              else Finished(cfg, s0, pending0, input.eager, Snapshot(), input.pending, rs, st.outcome, st.done)
      ensures st != Again && !faulted ==> Valid()
    {
      ghost var s, pending := Snapshot(), input.pending;
      ghost var r: Reply;
      st, r := ReadLength(input);
      OneMoreRead(cfg, s0, pending0, input.eager, s, pending, rs0, r, input.pending);
      rs := rs0 + [r];
    }

    /** ReadBody as the next read of a call whose reads so far were `rs0`. */
    method BodyTurn(input: Input, ghost s0: State<R>, ghost pending0: seq<byte>, ghost rs0: seq<Reply>)
      returns (st: Status, ghost rs: seq<Reply>)
      requires Ready(Snapshot()) && msglenComplete
      requires Underway(cfg, s0, pending0, input.eager, Snapshot(), input.pending, rs0)
      modifies this, msgbuf, input
      ensures msgbuf == old(msgbuf)
      ensures if st == Again
              then && Valid() && !msglenComplete && |input.pending| <= |old(input.pending)|
                   && Underway(cfg, s0, pending0, input.eager, Snapshot(), input.pending, rs)
              else Finished(cfg, s0, pending0, input.eager, Snapshot(), input.pending, rs, st.outcome, st.done)
      ensures st != Again && !faulted ==> Valid()
    {
      ghost var s, pending := Snapshot(), input.pending;
      ghost var r: Reply;
      st, r := ReadBody(input);
      BodyLeadsOn(cfg, s, r);
      OneMoreRead(cfg, s0, pending0, input.eager, s, pending, rs0, r, input.pending);
      rs := rs0 + [r];
    }

    /** riak_read. Its reads are those of one call of the machine as written; behind an eager
        callback it is the full call. */
    method Read(input: Input) returns (outcome: Outcome, done: bool, ghost rs: seq<Reply>)
      requires Valid()
      modifies this, msgbuf, input
      ensures !faulted ==> Valid()
      ensures msgbuf == old(msgbuf) || fresh(msgbuf)
      ensures Finished(cfg, old(Snapshot()), old(input.pending), input.eager, Snapshot(), input.pending, rs, outcome, done)
    {
      ghost var s0, pending0 := Snapshot(), input.pending;
      rs := [];
      while true
        invariant Valid()
        invariant msgbuf == old(msgbuf) || fresh(msgbuf)
        invariant Underway(cfg, s0, pending0, input.eager, Snapshot(), input.pending, rs)
        decreases 2 * |input.pending| + if msglenComplete then 1 else 0
      {
        var st: Status;
        if !msglenComplete {
          st, rs := LengthTurn(input, s0, pending0, rs);
          if st != Again {
            return st.outcome, st.done, rs;
          }
        }
        st, rs := BodyTurn(input, s0, pending0, rs);
        if st != Again {
          return st.outcome, st.done, rs;
        }
      }
    }
  }
}
