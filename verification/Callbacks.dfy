/** What the callbacks change: nothing but the calls made to them. The synchronous functions make
    their operations without any, so this is what relates the two ways of using the library. */
module Callbacks {
  import opened Wire
  import opened Framing
  import opened Reader
  import opened ReaderProperties
  import opened EventLoop

  /** The same operation with other callbacks: with a response callback or not, an error callback or not. */
  function With<R>(cfg: Config<R>, responseCb: bool, errorCb: bool): Config<R> {
    cfg.(responseCb := responseCb, errorCb := errorCb)
  }

  /** An operation as the synchronous functions make it. */
  function Quiet<R>(cfg: Config<R>): Config<R> {
    With(cfg, false, false)
  }

  /** Equal but for the calls made so far. */
  ghost predicate SameButCalls<R>(s: State<R>, q: State<R>) {
    q == s.(client := s.client.(fired := q.client.fired, errors := q.client.errors))
  }

  lemma HandleIgnoresCallbacks<R>(cfg: Config<R>, rcb: bool, ecb: bool, c: Client<R>, q: Client<R>, frame: seq<byte>)
    requires WellFormed(frame) && q == c.(fired := q.fired, errors := q.errors)
    ensures var ((c', st), (q', st')) := (Handle(cfg, c, frame), Handle(With(cfg, rcb, ecb), q, frame));
            && st == st' && q' == c'.(fired := q'.fired, errors := q'.errors)
            && (!rcb ==> q'.fired == q.fired) && (!ecb ==> q'.errors == q.errors)
  {
  }

  lemma DeliverIgnoresCallbacks<R>(cfg: Config<R>, rcb: bool, ecb: bool, s: State<R>, q: State<R>, frame: seq<byte>)
    requires WellFormed(frame) && SameButCalls(s, q)
    ensures var ((t, st), (t', st')) := (Deliver(cfg, s, frame), Deliver(With(cfg, rcb, ecb), q, frame));
            && st == st' && SameButCalls(t, t')
            && (!rcb ==> t'.client.fired == q.client.fired) && (!ecb ==> t'.client.errors == q.client.errors)
  {
    HandleIgnoresCallbacks(cfg, rcb, ecb, s.client, q.client, frame);
  }

  lemma StepIgnoresCallbacks<R>(v: Variant, cfg: Config<R>, rcb: bool, ecb: bool, s: State<R>, q: State<R>, r: Reply)
    requires Typed(s) && Fits(s, r) && SameButCalls(s, q)
    ensures var ((t, st), (t', st')) := (Step(v, cfg, s, r), Step(v, With(cfg, rcb, ecb), q, r));
            && st == st' && SameButCalls(t, t')
            && (!rcb ==> t'.client.fired == q.client.fired) && (!ecb ==> t'.client.errors == q.client.errors)
  {
    if s.complete && s.position <= s.msglen {
      DeliverIgnoresCallbacks(cfg, rcb, ecb, s, q, if r.Bytes? then Overlay(s.msgbuf, s.position, r.data) else s.msgbuf);
    }
  }

  /** The first read of the two calls, and what is left to do after it. */
  lemma FirstReadIgnoresCallbacks<R>(v: Variant, cfg: Config<R>, rcb: bool, ecb: bool, s: State<R>, q: State<R>, input: seq<byte>)
    returns (t: State<R>, t': State<R>, st: Status, rest: seq<byte>)
    requires Ready(s) && SameButCalls(s, q)
    ensures SameButCalls(t, t') && (!rcb ==> t'.client.fired == q.client.fired) && (!ecb ==> t'.client.errors == q.client.errors)
    ensures if st == Again
            then && Ready(t) && 2 * |rest| + (if t.complete then 1 else 0) < 2 * |input| + (if s.complete then 1 else 0)
                 && FullCall(v, cfg, s, input) == FullCall(v, cfg, t, rest)
                 && FullCall(v, With(cfg, rcb, ecb), q, input) == FullCall(v, With(cfg, rcb, ecb), t', rest)
            else && FullCall(v, cfg, s, input) == CallResult(t, st.outcome, st.done, rest)
                 && FullCall(v, With(cfg, rcb, ecb), q, input) == CallResult(t', st.outcome, st.done, rest)
  {
    var bs := Available(s, input);
    rest := input[|bs|..];
    assert Available(q, input) == bs;
    StepIgnoresCallbacks(v, cfg, rcb, ecb, s, q, Bytes(bs));
    t, st := Step(v, cfg, s, Bytes(bs)).0, Step(v, cfg, s, Bytes(bs)).1;
    t' := Step(v, With(cfg, rcb, ecb), q, Bytes(bs)).0;
  }

  /** A call does the same with and without callbacks, but for the calls it makes to them. */
  lemma {:induction false} FullCallIgnoresCallbacks<R>(v: Variant, cfg: Config<R>, rcb: bool, ecb: bool, s: State<R>, q: State<R>, input: seq<byte>)
    requires Ready(s) && SameButCalls(s, q)
    ensures var one, other := FullCall(v, cfg, s, input), FullCall(v, With(cfg, rcb, ecb), q, input);
            && SameButCalls(one.state, other.state)
            && other == CallResult(other.state, one.outcome, one.done, one.rest)
            && (!rcb ==> other.state.client.fired == q.client.fired) && (!ecb ==> other.state.client.errors == q.client.errors)
    decreases 2 * |input| + if s.complete then 1 else 0
  {
    var t, t', st, rest := FirstReadIgnoresCallbacks(v, cfg, rcb, ecb, s, q, input);
    if st == Again {
      FullCallIgnoresCallbacks(v, cfg, rcb, ecb, t, t', rest);
    }
  }

  lemma FirstCallReports<R>(v: Variant, cfg: Config<R>, input: seq<byte>)
    ensures var one := FullCall(v, cfg, Start<R>(), input);
            Reports(cfg, NewClient(), one.state.client, Return(one.outcome, one.done))
  {
    var one := FullCall(v, cfg, Start<R>(), input);
    var rs := FullCallIsRun(v, cfg, Start<R>(), input);
    CallReports(v, cfg, Start<R>(), rs, one.outcome, one.done);
  }

  /** The event loop over an operation with its callbacks, against one synchronous call, which has none,
      on the bytes that have arrived: the reader's fields, the frames and the response are the same; the
      response callback has been given exactly what the synchronous call hands out if that call is done
      and returns OK, and nothing otherwise; and the error callback has been called twice exactly if the
      synchronous call returns a server error. */
  ghost predicate AgreesWithSync<R>(v: Variant, cfg: Config<R>, es: seq<Event>) {
    var l := RunEvents(v, cfg, NewLoop<R>(), es);
    var sync := FullCall(v, Quiet(cfg), Start<R>(), Arrived(es));
    && SameButCalls(l.state, sync.state) && l.input == sync.rest && l.open == !sync.done
    && sync.state.client.fired == [] && sync.state.client.errors == []
    && l.state.client.fired ==
         (if cfg.responseCb && sync.done && sync.outcome == Ok then [sync.state.client.response] else [])
    && (if cfg.errorCb && sync.outcome == ServerError then exists e :: l.state.client.errors == [e, e]
        else l.state.client.errors == [])
  }

  lemma SameCallAgreesWithSync<R>(v: Variant, cfg: Config<R>, es: seq<Event>)
    requires var l := RunEvents(v, cfg, NewLoop(), es);
             var one := FullCall(v, cfg, Start(), Arrived(es));
             l.state == one.state && l.input == one.rest && l.open == !one.done
    ensures AgreesWithSync(v, cfg, es)
  {
    FullCallIgnoresCallbacks(v, cfg, false, false, Start<R>(), Start<R>(), Arrived(es));
    FirstCallReports(v, cfg, Arrived(es));
  }

  /** Asynchronous and synchronous use agree, after a readable event, between the configurations they
      really have: over the resumable reader whatever arrived when, and over the code as written when
      no event continues a partial length field. */
  lemma AsyncAgreesWithSync<R(!new)>(cfg: Config<R>, es: seq<Event>)
    requires ClosesOnError(cfg)
    requires es != [] && es[|es| - 1] == Readable
    ensures AgreesWithSync(Resumable, cfg, es)
    ensures CleanEvents(cfg, es) ==> AgreesWithSync(AsWritten, cfg, es)
  {
    SyncAndAsyncAgree(cfg, es);
    SameCallAgreesWithSync(Resumable, cfg, es);
    if CleanEvents(cfg, es) {
      CleanEventsAgreeWithSync(cfg, es);
      SameCallAgreesWithSync(AsWritten, cfg, es);
    }
  }
}
