/** riak_read under a callback that hands out all it has (bufferevent_read, or a blocking read of
    everything asked for), and the libevent adapter that calls it once per readable event. */
module EventLoop {
  import opened Wire
  import opened Framing
  import opened Reader
  import opened ReaderProperties
  import opened AsWrittenReader

  datatype CallResult<+R> = CallResult(state: State<R>, outcome: Outcome, done: bool, rest: seq<byte>)

  /** The next read can be made: nothing undefined has happened. */
  predicate Ready<R>(s: State<R>) {
    Typed(s) && !s.client.fault
  }

  function Available<R>(s: State<R>, input: seq<byte>): (bs: seq<byte>)
    requires Typed(s)
    ensures Fits(s, Bytes(bs))
  {
    input[..Min(Ask(s), |input|)]
  }

  /** One call of riak_read in which every read returns the lesser of what was asked for and
      what is there. */
  function FullCall<R>(v: Variant, cfg: Config<R>, s: State<R>, input: seq<byte>): (r: CallResult<R>)
    requires Ready(s)
    ensures r.state.client.fault ==> r.done
    ensures !r.state.client.fault ==> Typed(r.state)
    decreases 2 * |input| + if s.complete then 1 else 0
  {
    var bs := Available(s, input);
    var (s', st) := Step(v, cfg, s, Bytes(bs));
    match st
    case Return(outcome, done) => CallResult(s', outcome, done, input[|bs|..])
    case Again => FullCall(v, cfg, s', input[|bs|..])
  }

  /** No lost wakeup, for both variants and from every state: a call that returns OK without
      having finished has emptied the input, so the adapter never waits for an event about
      bytes it already has. */
  lemma {:induction false} NoLostWakeup<R>(v: Variant, cfg: Config<R>, s: State<R>, input: seq<byte>)
    requires Ready(s)
    ensures var r := FullCall(v, cfg, s, input); r.outcome == Ok && !r.done ==> r.rest == []
    decreases 2 * |input| + if s.complete then 1 else 0
  {
    var bs := Available(s, input);
    var (s', st) := Step(v, cfg, s, Bytes(bs));
    if st == Again {
      NoLostWakeup(v, cfg, s', input[|bs|..]);
    }
  }

  /** The read came up short, or, as written, failed inside a begun body. */
  predicate Short<R>(v: Variant, s: State<R>, r: Reply)
    requires Typed(s)
  {
    if r.Bytes? then |r.data| < Ask(s) else v == AsWritten && s.complete && 0 < s.position <= s.msglen
  }

  predicate LastIsShort<R>(v: Variant, cfg: Config<R>, s: State<R>, rs: seq<Reply>)
    requires rs != [] && Possible(v, cfg, s, rs)
    decreases |rs|
  {
    if |rs| == 1 then Short(v, s, rs[0]) else LastIsShort(v, cfg, Step(v, cfg, s, rs[0]).0, rs[1..])
  }

  lemma ShortReadReturnsOk<R>(v: Variant, cfg: Config<R>, s: State<R>, r: Reply)
    requires Ready(s) && Fits(s, r)
    ensures Step(v, cfg, s, r).1 == Return(Ok, false) <==> Short(v, s, r)
  {
  }

  /** Both variants, every state, every call: riak_read returns OK without the end of the response
      exactly when its last read came up short (or, as written, failed inside a begun body). The
      synchronous path calls riak_read once and does not look at the flag, so these are the calls
      after which it hands out an unfinished response. */
  lemma {:induction false} UnfinishedExactlyWhenReadIsShort<R>(v: Variant, cfg: Config<R>, s: State<R>, rs: seq<Reply>,
                                                               outcome: Outcome, done: bool)
    requires IsCall(v, cfg, s, rs, outcome, done) && Possible(v, cfg, s, rs)
    ensures outcome == Ok && !done <==> LastIsShort(v, cfg, s, rs)
    decreases |rs|
  {
    ShortReadReturnsOk(v, cfg, s, rs[0]);
    if |rs| > 1 {
      UnfinishedExactlyWhenReadIsShort(v, cfg, Step(v, cfg, s, rs[0]).0, rs[1..], outcome, done);
    }
  }

  /** A body that has been begun is not yet complete. */
  predicate Unfinished<R>(s: State<R>) {
    s.complete ==> s.position < s.msglen
  }

  lemma PrependRead<R>(v: Variant, cfg: Config<R>, s: State<R>, r: Reply, tail: seq<Reply>,
                       outcome: Outcome, done: bool)
    requires Ready(s) && Fits(s, r) && tail != []
    requires var (s', st) := Step(v, cfg, s, r);
             st == Again && IsCall(v, cfg, s', tail, outcome, done) && Possible(v, cfg, s', tail)
    ensures IsCall(v, cfg, s, [r] + tail, outcome, done) && Possible(v, cfg, s, [r] + tail)
    ensures Run(v, cfg, s, [r] + tail) == Run(v, cfg, Step(v, cfg, s, r).0, tail)
    ensures Consumed([r] + tail) == DataOf(r) + Consumed(tail)
    ensures v == AsWritten && CleanStep(s, r) && Clean(cfg, Step(v, cfg, s, r).0, tail) ==> Clean(cfg, s, [r] + tail)
  {
    var rs := [r] + tail;
    assert rs[0] == r && rs[1..] == tail;
  }

  lemma OneRead<R>(v: Variant, cfg: Config<R>, s: State<R>, r: Reply, outcome: Outcome, done: bool)
    requires Ready(s) && Fits(s, r) && Step(v, cfg, s, r).1 == Return(outcome, done)
    ensures IsCall(v, cfg, s, [r], outcome, done) && Possible(v, cfg, s, [r])
    ensures Run(v, cfg, s, [r]) == Step(v, cfg, s, r).0 && Consumed([r]) == DataOf(r)
    ensures v == AsWritten && CleanStep(s, r) ==> Clean(cfg, s, [r])
  {
    assert [r][1..] == [];
  }

  /** Where no piece of a length field has been read, a call cannot split one and go on. */
  predicate NotInLength<R>(s: State<R>) {
    s.complete || s.position == 0
  }

  lemma AgainIsReady<R>(v: Variant, cfg: Config<R>, s: State<R>, bs: seq<byte>)
    requires Ready(s) && Fits(s, Bytes(bs))
    requires Step(v, cfg, s, Bytes(bs)).1 == Again
    ensures var s' := Step(v, cfg, s, Bytes(bs)).0;
            Ready(s') && NotInLength(s') && (v == Resumable || NotInLength(s) ==> Unfinished(s'))
  {
  }

  lemma FullCallTakesRead<R>(v: Variant, cfg: Config<R>, s: State<R>, input: seq<byte>, bs: seq<byte>, rest: seq<byte>)
    requires Ready(s) && bs == Available(s, input) && rest == input[|bs|..]
    ensures var (t, st) := Step(v, cfg, s, Bytes(bs));
            FullCall(v, cfg, s, input) ==
              if st == Again then FullCall(v, cfg, t, rest) else CallResult(t, st.outcome, st.done, rest)
  {
  }

  /** These are the reads of a full call, none of which fails; they are clean unless the call goes on
      with a partial length field. */
  ghost predicate AreReadsOf<R>(v: Variant, cfg: Config<R>, s: State<R>, input: seq<byte>, rs: seq<Reply>)
    requires Ready(s)
  {
    var r := FullCall(v, cfg, s, input);
    && IsCall(v, cfg, s, rs, r.outcome, r.done)
    && Possible(v, cfg, s, rs) && Run(v, cfg, s, rs) == r.state
    && Consumed(rs) + r.rest == input
    && (forall i :: 0 <= i < |rs| ==> rs[i].Bytes?)
    && (v == AsWritten && (NotInLength(s) || input == []) ==> Clean(cfg, s, rs))
  }

  lemma FirstOfReads<R>(v: Variant, cfg: Config<R>, s: State<R>, bs: seq<byte>, later: seq<byte>, tail: seq<Reply>)
    requires Ready(s) && bs == Available(s, bs + later) && Step(v, cfg, s, Bytes(bs)).1 == Again
    requires var s' := Step(v, cfg, s, Bytes(bs)).0; Ready(s') && NotInLength(s') && AreReadsOf(v, cfg, s', later, tail)
    ensures AreReadsOf(v, cfg, s, bs + later, [Bytes(bs)] + tail)
  {
    var r := FullCall(v, cfg, Step(v, cfg, s, Bytes(bs)).0, later);
    assert FullCall(v, cfg, s, bs + later) == r by {
      FullCallTakesRead(v, cfg, s, bs + later, bs, later);
    }
    PrependRead(v, cfg, s, Bytes(bs), tail, r.outcome, r.done);
    assert (bs + Consumed(tail)) + r.rest == bs + later by {
      AppendIsAssociative(bs, Consumed(tail), r.rest);
    }
  }

  /** A full call is a run. */
  lemma {:induction false} FullCallIsRun<R>(v: Variant, cfg: Config<R>, s: State<R>, input: seq<byte>) returns (rs: seq<Reply>)
    requires Ready(s)
    ensures AreReadsOf(v, cfg, s, input, rs)
    decreases 2 * |input| + if s.complete then 1 else 0
  {
    var bs := Available(s, input);
    var (s', st) := Step(v, cfg, s, Bytes(bs));
    var later := input[|bs|..];
    assert input == bs + later;
    if st == Again {
      AgainIsReady(v, cfg, s, bs);
      var tail := FullCallIsRun(v, cfg, s', later);
      FirstOfReads(v, cfg, s, bs, later, tail);
      rs := [Bytes(bs)] + tail;
    } else {
      rs := [Bytes(bs)];
      OneRead(v, cfg, s, Bytes(bs), st.outcome, st.done);
    }
  }

  /** Read once or in two pieces: the resumable reader ends in the same state. */
  lemma HeaderStepSplits<R>(cfg: Config<R>, s: State<R>, a: seq<byte>, b: seq<byte>)
    requires Typed(s) && !s.complete && |a| < 4 - s.position && |a| + |b| <= 4 - s.position
    ensures var (s', st) := HeaderStep(Resumable, cfg, s, Bytes(a));
            && st == Return(Ok, false) && Typed(s') && !s'.complete && s'.position == s.position + |a|
            && HeaderStep(Resumable, cfg, s, Bytes(a + b)) == HeaderStep(Resumable, cfg, s', Bytes(b))
  {
    var mem := Memory(cfg.order, s.msglen);
    var raw := Overlay(mem, s.position, a);
    WordRoundTrip(cfg.order, raw);
    if a == [] {
      assert a + b == b;
    } else {
      assert Overlay(mem, s.position, a + b) == Overlay(raw, s.position + |a|, b);
      assert b == [] ==> Overlay(mem, s.position, a + b) == raw;
    }
  }

  lemma BodyStepSplits<R>(cfg: Config<R>, s: State<R>, a: seq<byte>, b: seq<byte>)
    requires Typed(s) && s.complete && s.position + |a| < s.msglen && s.position + |a| + |b| <= s.msglen
    ensures var (s', st) := BodyStep(Resumable, cfg, s, Bytes(a));
            && st == Return(Ok, false) && Typed(s') && s'.complete && s'.position == s.position + |a|
            && s'.msglen == s.msglen
            && BodyStep(Resumable, cfg, s, Bytes(a + b)) == BodyStep(Resumable, cfg, s', Bytes(b))
  {
    BodyStepShape(cfg, s, Bytes(a));
    BodyStepShape(cfg, s, Bytes(a + b));
    var s' := BodyStep(Resumable, cfg, s, Bytes(a)).0;
    BodyStepShape(cfg, s', Bytes(b));
    assert Overlay(s.msgbuf, s.position, a + b) == Overlay(s'.msgbuf, s'.position, b);
  }

  lemma StepSplits<R>(cfg: Config<R>, s: State<R>, a: seq<byte>, b: seq<byte>)
    requires Ready(s) && Unfinished(s) && |a| < Ask(s) && |a| + |b| <= Ask(s)
    ensures var (s', st) := Step(Resumable, cfg, s, Bytes(a));
            && st == Return(Ok, false) && Ready(s') && Unfinished(s') && Ask(s') == Ask(s) - |a|
            && Step(Resumable, cfg, s, Bytes(a + b)) == Step(Resumable, cfg, s', Bytes(b))
  {
    if s.complete { BodyStepSplits(cfg, s, a, b); } else { HeaderStepSplits(cfg, s, a, b); }
  }

  lemma ShortCall<R>(cfg: Config<R>, s: State<R>, a: seq<byte>)
    requires Ready(s) && Unfinished(s) && |a| < Ask(s)
    ensures FullCall(Resumable, cfg, s, a) == CallResult(Step(Resumable, cfg, s, Bytes(a)).0, Ok, false, [])
  {
    StepSplits(cfg, s, a, []);
    assert Available(s, a) == a;
  }

  lemma SameAvailable<R>(s: State<R>, t: State<R>, a: seq<byte>, b: seq<byte>)
    requires Typed(s) && Typed(t) && |a| + Ask(t) == Ask(s)
    ensures var bs := Available(t, b);
            Available(s, a + b) == a + bs && (a + b)[|a + bs|..] == b[|bs|..]
  {
  }

  lemma SameFirstRead<R>(cfg: Config<R>, s: State<R>, t: State<R>, a: seq<byte>, b: seq<byte>, bs: seq<byte>)
    requires Ready(s) && Ready(t) && |a| + Ask(t) == Ask(s) && bs == Available(t, b)
    requires Step(Resumable, cfg, s, Bytes(a + bs)) == Step(Resumable, cfg, t, Bytes(bs))
    ensures FullCall(Resumable, cfg, s, a + b) == FullCall(Resumable, cfg, t, b)
  {
    SameAvailable(s, t, a, b);
    FullCallTakesRead(Resumable, cfg, s, a + b, a + bs, b[|bs|..]);
    FullCallTakesRead(Resumable, cfg, t, b, bs, b[|bs|..]);
  }

  lemma ShortCallContinues<R>(cfg: Config<R>, s: State<R>, a: seq<byte>, b: seq<byte>)
    requires Ready(s) && Unfinished(s) && |a| < Ask(s)
    ensures var t := Step(Resumable, cfg, s, Bytes(a)).0;
            && Ready(t) && Unfinished(t)
            && FullCall(Resumable, cfg, s, a + b) == FullCall(Resumable, cfg, t, b)
  {
    var t := Step(Resumable, cfg, s, Bytes(a)).0;
    StepSplits(cfg, s, a, []);
    StepSplits(cfg, s, a, Available(t, b));
    SameFirstRead(cfg, s, t, a, b, Available(t, b));
  }

  lemma LongCall<R>(cfg: Config<R>, s: State<R>, a: seq<byte>, b: seq<byte>)
    requires Ready(s) && Unfinished(s) && |a| >= Ask(s)
    ensures var bs := a[..Ask(s)];
            var (s', st) := Step(Resumable, cfg, s, Bytes(bs));
            if st == Again
            then && Ready(s') && Unfinished(s')
                 && FullCall(Resumable, cfg, s, a) == FullCall(Resumable, cfg, s', a[|bs|..])
                 && FullCall(Resumable, cfg, s, a + b) == FullCall(Resumable, cfg, s', a[|bs|..] + b)
            else && st != Return(Ok, false)
                 && FullCall(Resumable, cfg, s, a) == CallResult(s', st.outcome, st.done, a[|bs|..])
                 && FullCall(Resumable, cfg, s, a + b) == CallResult(s', st.outcome, st.done, a[|bs|..] + b)
  {
    var bs := a[..Ask(s)];
    assert Available(s, a) == bs;
    assert Available(s, a + b) == bs;
    assert (a + b)[|bs|..] == a[|bs|..] + b;
    if Step(Resumable, cfg, s, Bytes(bs)).1 == Again {
      AgainIsReady(Resumable, cfg, s, bs);
    }
  }

  /** Input that arrives in two parts, with a call after each, is handled as if it had arrived
      at once: the second call goes on exactly where the first stopped for want of bytes. */
  lemma {:induction false} CallsCompose<R>(cfg: Config<R>, s: State<R>, a: seq<byte>, b: seq<byte>)
    requires Ready(s) && Unfinished(s)
    ensures var r := FullCall(Resumable, cfg, s, a);
            if r.outcome == Ok && !r.done
            then Ready(r.state) && Unfinished(r.state)
                 && FullCall(Resumable, cfg, s, a + b) == FullCall(Resumable, cfg, r.state, b)
            else FullCall(Resumable, cfg, s, a + b) == r.(rest := r.rest + b)
    decreases 2 * |a| + if s.complete then 1 else 0
  {
    if |a| < Ask(s) {
      ShortCall(cfg, s, a);
      ShortCallContinues(cfg, s, a, b);
    } else {
      LongCall(cfg, s, a, b);
      var (s', st) := Step(Resumable, cfg, s, Bytes(a[..Ask(s)]));
      if st == Again {
        CallsCompose(cfg, s', a[Ask(s)..], b);
      }
    }
  }

  // ----- The adapter -----

  datatype Event = Arrive(data: seq<byte>) | Readable

  /** The shared operation, the input buffer of the bufferevent, and whether `event->bevent`
      is still set. */
  datatype Loop<+R> = Loop(state: State<R>, input: seq<byte>, open: bool)

  predicate LoopReady<R>(l: Loop<R>) {
    l.open ==> Ready(l.state)
  }

  function NewLoop<R>(): (l: Loop<R>)
    ensures LoopReady(l)
  {
    Loop(Start(), [], true)
  }

  function OnEvent<R>(v: Variant, cfg: Config<R>, l: Loop<R>, e: Event): (l': Loop<R>)
    requires LoopReady(l)
    ensures LoopReady(l')
  {
    match e
    case Arrive(data) => l.(input := l.input + data)
    case Readable =>
      if !l.open then l
      else
        var r := FullCall(v, cfg, l.state, l.input);
        Loop(r.state, r.rest, !r.done)
  }

  function RunEvents<R>(v: Variant, cfg: Config<R>, l: Loop<R>, es: seq<Event>): (l': Loop<R>)
    requires LoopReady(l)
    ensures LoopReady(l')
    decreases |es|
  {
    if es == [] then l
    else OnEvent(v, cfg, RunEvents(v, cfg, l, es[..|es| - 1]), es[|es| - 1])
  }

  function Arrived(es: seq<Event>): seq<byte> {
    if es == [] then []
    else Arrived(es[..|es| - 1]) + if es[|es| - 1].Arrive? then es[|es| - 1].data else []
  }

  /** The decoder asks for no more messages when it fails. */
  ghost predicate ClosesOnError<R(!new)>(cfg: Config<R>) {
    cfg.decoder.Some? ==>
      forall r: Option<R>, f: seq<byte> ::
        var d := cfg.decoder.value(r, f); d.status != Decoded ==> d.done
  }

  lemma {:induction false} UnfinishedCallIsOk<R(!new)>(v: Variant, cfg: Config<R>, s: State<R>, input: seq<byte>)
    requires Ready(s) && ClosesOnError(cfg)
    ensures var r := FullCall(v, cfg, s, input); !r.done ==> r.outcome == Ok
    decreases 2 * |input| + if s.complete then 1 else 0
  {
    var bs := Available(s, input);
    var (s', st) := Step(v, cfg, s, Bytes(bs));
    if st == Again {
      UnfinishedCallIsOk(v, cfg, s', input[|bs|..]);
    }
  }

  /** The event loop at any point of any run, against one call on everything that has arrived:
      while it is open the rest of that call lies ahead of it, and once it has closed it is
      where that call ends, with the same bytes left unread. */
  lemma {:induction false} LoopFollowsOneCall<R(!new)>(cfg: Config<R>, es: seq<Event>)
    requires ClosesOnError(cfg)
    ensures var l := RunEvents(Resumable, cfg, NewLoop(), es);
            var one := FullCall(Resumable, cfg, Start(), Arrived(es));
            if l.open then Unfinished(l.state) && one == FullCall(Resumable, cfg, l.state, l.input)
            else one == CallResult(l.state, one.outcome, true, l.input)
    decreases |es|
  {
    if es == [] {
    } else {
      var es' := es[..|es| - 1];
      LoopFollowsOneCall(cfg, es');
      var l := RunEvents(Resumable, cfg, NewLoop(), es');
      match es[|es| - 1]
      case Arrive(data) =>
        CallsCompose(cfg, Start(), Arrived(es'), data);
        if l.open {
          CallsCompose(cfg, l.state, l.input, data);
        }
      case Readable =>
        assert Arrived(es) == Arrived(es');
        if l.open {
          UnfinishedCallIsOk(Resumable, cfg, l.state, l.input);
          NoLostWakeup(Resumable, cfg, l.state, l.input);
          CallsCompose(cfg, l.state, l.input, []);
          assert l.input + [] == l.input;
        }
    }
  }

  lemma EmptyReadKeepsState<R>(cfg: Config<R>, s: State<R>)
    requires Ready(s) && Unfinished(s)
    ensures Step(Resumable, cfg, s, Bytes([])).0 == s
  {
    if s.complete {
      assert Overlay(s.msgbuf, s.position, []) == s.msgbuf;
    }
  }

  lemma DrainedLoopIsAtRest<R(!new)>(cfg: Config<R>, l: Loop<R>)
    requires LoopReady(l) && ClosesOnError(cfg)
    requires var l' := OnEvent(Resumable, cfg, l, Readable); l'.open && Unfinished(l'.state)
    ensures var l' := OnEvent(Resumable, cfg, l, Readable);
            FullCall(Resumable, cfg, l'.state, l'.input) == CallResult(l'.state, Ok, false, l'.input)
  {
    UnfinishedCallIsOk(Resumable, cfg, l.state, l.input);
    NoLostWakeup(Resumable, cfg, l.state, l.input);
    var s := OnEvent(Resumable, cfg, l, Readable).state;
    ShortCall(cfg, s, []);
    EmptyReadKeepsState(cfg, s);
  }

  /** Synchronous and event-driven reading agree: after a readable event, whatever arrived when,
      the operation is in the state that a single call on all the bytes leaves. */
  lemma SyncAndAsyncAgree<R(!new)>(cfg: Config<R>, es: seq<Event>)
    requires ClosesOnError(cfg)
    requires es != [] && es[|es| - 1] == Readable
    ensures var l := RunEvents(Resumable, cfg, NewLoop(), es);
            var one := FullCall(Resumable, cfg, Start(), Arrived(es));
            l.state == one.state && l.input == one.rest && l.open == !one.done
  {
    LoopFollowsOneCall(cfg, es);
    if RunEvents(Resumable, cfg, NewLoop(), es).open {
      DrainedLoopIsAtRest(cfg, RunEvents(Resumable, cfg, NewLoop(), es[..|es| - 1]));
    }
  }

  // ----- The adapter over the code as written -----

  /** A call under such a callback that does not go on with a partial length field splits none, so
      it does the same in both variants. */
  lemma {:induction false} FullCallsAgree<R>(cfg: Config<R>, s: State<R>, input: seq<byte>)
    requires Ready(s) && Unfinished(s) && (NotInLength(s) || input == [])
    ensures FullCall(AsWritten, cfg, s, input) == FullCall(Resumable, cfg, s, input)
    decreases 2 * |input| + if s.complete then 1 else 0
  {
    var bs := Available(s, input);
    StepsAgreeExactlyWhenClean(cfg, s, Bytes(bs));
    var (s', st) := Step(Resumable, cfg, s, Bytes(bs));
    if st == Again {
      AgainIsReady(Resumable, cfg, s, bs);
      FullCallsAgree(cfg, s', input[|bs|..]);
    }
  }

  /** Two calls as written do what one does, if the first does not stop inside a length field that the
      second goes on with. */
  lemma CallsComposeUnlessSplit<R>(cfg: Config<R>, s: State<R>, a: seq<byte>, b: seq<byte>)
    requires Ready(s) && Unfinished(s) && NotInLength(s)
    ensures var r := FullCall(AsWritten, cfg, s, a);
            if r.outcome == Ok && !r.done
            then && Ready(r.state) && Unfinished(r.state)
                 && (NotInLength(r.state) || b == [] ==>
                       FullCall(AsWritten, cfg, s, a + b) == FullCall(AsWritten, cfg, r.state, b))
            else FullCall(AsWritten, cfg, s, a + b) == r.(rest := r.rest + b)
  {
    CallsCompose(cfg, s, a, b);
    FullCallsAgree(cfg, s, a);
    FullCallsAgree(cfg, s, a + b);
    var r := FullCall(Resumable, cfg, s, a);
    if r.outcome == Ok && !r.done && (NotInLength(r.state) || b == []) {
      FullCallsAgree(cfg, r.state, b);
    }
  }

  /** And if it does: the next frame starts with a byte that was never received. */
  lemma SplitCallPoisons<R>(cfg: Config<R>, s: State<R>, input: seq<byte>)
    requires Ready(s) && !NotInLength(s)
    requires |FullCall(AsWritten, cfg, s, input).state.frames| > |s.frames|
    ensures var f := FullCall(AsWritten, cfg, s, input).state.frames[|s.frames|];
            f != [] && f[0] == cfg.junk(|s.frames|, 0)
  {
    var rs := FullCallIsRun(AsWritten, cfg, s, input);
    SplitLengthPoisonsTheFrame(cfg, s, rs);
  }

  /** A read of a message body returns -1. */
  predicate BodyFails<R>(cfg: Config<R>, s: State<R>, rs: seq<Reply>)
    requires Possible(AsWritten, cfg, s, rs)
    decreases |rs|
  {
    rs != [] && ((s.complete && rs[0].Failed?) || BodyFails(cfg, Step(AsWritten, cfg, s, rs[0]).0, rs[1..]))
  }

  lemma {:induction false} NoBodyFails<R>(cfg: Config<R>, s: State<R>, rs: seq<Reply>)
    requires Possible(AsWritten, cfg, s, rs) && forall i :: 0 <= i < |rs| ==> rs[i].Bytes?
    ensures !BodyFails(cfg, s, rs)
    decreases |rs|
  {
    if rs != [] {
      NoBodyFails(cfg, Step(AsWritten, cfg, s, rs[0]).0, rs[1..]);
    }
  }

  lemma AgainIsNotInLength<R>(cfg: Config<R>, s: State<R>, r: Reply)
    requires Ready(s) && NotInLength(s) && Fits(s, r) && Step(AsWritten, cfg, s, r).1 == Again
    ensures NotInLength(Step(AsWritten, cfg, s, r).0)
  {
  }

  /** One call as written, however short its reads, that does not start inside a length field: it is
      clean exactly if no read of a body fails, since a short read ends the call. */
  lemma {:induction false} CallIsCleanUnlessBodyFails<R>(cfg: Config<R>, s: State<R>, rs: seq<Reply>,
                                                         outcome: Outcome, done: bool)
    requires NotInLength(s) && IsCall(AsWritten, cfg, s, rs, outcome, done) && Possible(AsWritten, cfg, s, rs)
    ensures Clean(cfg, s, rs) <==> !BodyFails(cfg, s, rs)
    decreases |rs|
  {
    if |rs| > 1 {
      AgainIsNotInLength(cfg, s, rs[0]);
      CallIsCleanUnlessBodyFails(cfg, Step(AsWritten, cfg, s, rs[0]).0, rs[1..], outcome, done);
    }
  }

  /** A clean call is a call of the resumable reader, with the same result. */
  lemma {:induction false} CleanCallsAgree<R>(cfg: Config<R>, s: State<R>, rs: seq<Reply>, outcome: Outcome, done: bool)
    requires Good(cfg, s) && IsCall(AsWritten, cfg, s, rs, outcome, done)
    requires Possible(AsWritten, cfg, s, rs) && Clean(cfg, s, rs)
    ensures IsCall(Resumable, cfg, s, rs, outcome, done)
    decreases |rs|
  {
    StepsAgreeExactlyWhenClean(cfg, s, rs[0]);
    if |rs| > 1 {
      StepKeepsGood(cfg, s, rs[0]);
      CleanCallsAgree(cfg, Step(AsWritten, cfg, s, rs[0]).0, rs[1..], outcome, done);
    }
  }

  /** Event sequences that never make the code go on with a length field it has part of. */
  predicate CleanEvents<R>(cfg: Config<R>, es: seq<Event>)
    decreases |es|
  {
    es == [] ||
    var es' := es[..|es| - 1];
    var l := RunEvents(AsWritten, cfg, NewLoop<R>(), es');
    CleanEvents(cfg, es') &&
    (es[|es| - 1] == Readable && l.open && l.input != [] ==> NotInLength(l.state))
  }

  lemma {:induction false} CleanLoopsAgree<R(!new)>(cfg: Config<R>, es: seq<Event>)
    requires ClosesOnError(cfg) && CleanEvents(cfg, es)
    ensures RunEvents(AsWritten, cfg, NewLoop<R>(), es) == RunEvents(Resumable, cfg, NewLoop<R>(), es)
    decreases |es|
  {
    if es != [] {
      var es' := es[..|es| - 1];
      CleanLoopsAgree(cfg, es');
      LoopFollowsOneCall(cfg, es');
      var l := RunEvents(Resumable, cfg, NewLoop<R>(), es');
      if es[|es| - 1] == Readable && l.open {
        FullCallsAgree(cfg, l.state, l.input);
      }
    }
  }

  /** LoopFollowsOneCall for the adapter as written, on such events. */
  lemma CleanLoopFollowsOneCall<R(!new)>(cfg: Config<R>, es: seq<Event>)
    requires ClosesOnError(cfg) && CleanEvents(cfg, es)
    ensures var l := RunEvents(AsWritten, cfg, NewLoop(), es);
            var one := FullCall(AsWritten, cfg, Start(), Arrived(es));
            if l.open then NotInLength(l.state) || l.input == [] ==> one == FullCall(AsWritten, cfg, l.state, l.input)
            else one == CallResult(l.state, one.outcome, true, l.input)
  {
    CleanLoopsAgree(cfg, es);
    LoopFollowsOneCall(cfg, es);
    FullCallsAgree(cfg, Start<R>(), Arrived(es));
    var l := RunEvents(AsWritten, cfg, NewLoop<R>(), es);
    if l.open && (NotInLength(l.state) || l.input == []) {
      FullCallsAgree(cfg, l.state, l.input);
    }
  }

  /** The adapter as written, against the synchronous path as written: when no event splits a
      length field, the event-driven run ends in the state of one call on all the bytes. The
      single call needs no condition. */
  lemma CleanEventsAgreeWithSync<R(!new)>(cfg: Config<R>, es: seq<Event>)
    requires ClosesOnError(cfg) && CleanEvents(cfg, es)
    requires es != [] && es[|es| - 1] == Readable
    ensures var l := RunEvents(AsWritten, cfg, NewLoop(), es);
            var one := FullCall(AsWritten, cfg, Start(), Arrived(es));
            l.state == one.state && l.input == one.rest && l.open == !one.done
  {
    CleanLoopsAgree(cfg, es);
    FullCallsAgree(cfg, Start<R>(), Arrived(es));
    SyncAndAsyncAgree(cfg, es);
  }
}
