/** One call of riak_read on a stream, as the synchronous functions make it, and the event loop over
    one: what is handed out, and when. */
module StreamCalls {
  import opened Wire
  import opened Framing
  import opened Reader
  import opened ReaderProperties
  import opened AsWrittenReader
  import opened EventLoop
  import opened Callbacks
  import opened Streaming
  import opened EndToEnd

  // ----- One call on a stream -----

  /** A stream whose k-th frame, and no earlier one, ends the response, with this outcome. */
  ghost predicate EndsAt<R>(cfg: Config<R>, frames: seq<seq<byte>>, k: nat, last: Outcome) {
    && AllWellFormed(frames)
    && (forall n :: 0 <= n <= |frames| ==> !HandleAll(cfg, frames[..n]).fault)
    && (forall n :: 1 <= n <= |frames| && n <= k + 1 ==>
          EndedBy(cfg, frames[..n], if n == k + 1 then Return(last, true) else Again))
  }

  lemma StepEndsFrame<R>(cfg: Config<R>, s: State<R>, r: Reply)
    requires Good(cfg, s) && Fits(s, r) && !Step(Resumable, cfg, s, r).0.client.fault
    ensures var (t, st) := Step(Resumable, cfg, s, r);
            if t.frames == s.frames then st.Return? ==> !st.done
            else |t.frames| == |s.frames| + 1 && t.frames[..|s.frames|] == s.frames && EndedBy(cfg, t.frames, st)
  {
    if s.complete {
      BodyStepShape(cfg, s, r);
      var t := Step(Resumable, cfg, s, r).0;
      assert t.frames != s.frames ==> t.frames[..|s.frames|] == s.frames;
    }
  }

  lemma FrameGoesOn<R>(cfg: Config<R>, s: State<R>, r: Reply, n: nat, o: Outcome)
    requires Good(cfg, s) && Fits(s, r) && !Step(Resumable, cfg, s, r).0.client.fault
    requires var (t, st) := Step(Resumable, cfg, s, r);
             |s.frames| < n <= |t.frames| && !(st.Return? && st.done)
    ensures !EndedBy(cfg, Step(Resumable, cfg, s, r).0.frames[..n], Return(o, true))
  {
    StepEndsFrame(cfg, s, r);
    var t := Step(Resumable, cfg, s, r).0;
    assert t.frames[..n] == t.frames;
  }

  lemma AtMostOneFrame<R>(cfg: Config<R>, s: State<R>, r: Reply)
    requires Good(cfg, s) && Fits(s, r)
    ensures |Step(Resumable, cfg, s, r).0.frames| <= |s.frames| + 1
  {
  }

  /** Among the frames that one call delivers, only the last of a call that is done ends it. */
  lemma {:induction false} OtherFramesGoOn<R>(cfg: Config<R>, s: State<R>, rs: seq<Reply>, outcome: Outcome, done: bool,
                                              n: nat, o: Outcome)
    requires Good(cfg, s) && IsCall(Resumable, cfg, s, rs, outcome, done) && Possible(Resumable, cfg, s, rs)
    requires !Run(Resumable, cfg, s, rs).client.fault
    requires |s.frames| < n <= |Run(Resumable, cfg, s, rs).frames| - if done then 1 else 0
    ensures !EndedBy(cfg, Run(Resumable, cfg, s, rs).frames[..n], Return(o, true))
    decreases |rs|
  {
    var s' := Step(Resumable, cfg, s, rs[0]).0;
    var t := Run(Resumable, cfg, s, rs);
    assert t == Run(Resumable, cfg, s', rs[1..]) && !s'.client.fault;
    if |rs| == 1 {
      assert t == s';
      AtMostOneFrame(cfg, s, rs[0]);
      FrameGoesOn(cfg, s, rs[0], n, o);
    } else if n > |s'.frames| {
      StepKeepsGood(cfg, s, rs[0]);
      OtherFramesGoOn(cfg, s', rs[1..], outcome, done, n, o);
    } else {
      FramesGrow(Resumable, cfg, s', rs[1..]);
      assert t.frames[..n] == s'.frames[..n];
      FrameGoesOn(cfg, s, rs[0], n, o);
    }
  }

  lemma DoneCallEndsAt<R>(cfg: Config<R>, frames: seq<seq<byte>>, k: nat, last: Outcome, n: nat,
                          rs: seq<Reply>, outcome: Outcome)
    requires EndsAt(cfg, frames, k, last) && n <= k + 1
    requires IsCall(Resumable, cfg, Start<R>(), rs, outcome, true) && Possible(Resumable, cfg, Start<R>(), rs)
    requires At(cfg, frames, n, Run(Resumable, cfg, Start<R>(), rs))
    ensures n == k + 1 && outcome == last
  {
    StartIsGood(cfg);
    assert EndedBy(cfg, frames[..n], Return(outcome, true)) by {
      DoneCallEndsFrame(cfg, Start<R>(), rs, outcome);
    }
  }

  lemma CallStopsAt<R>(cfg: Config<R>, frames: seq<seq<byte>>, k: nat, last: Outcome, n: nat,
                       rs: seq<Reply>, outcome: Outcome, done: bool)
    requires EndsAt(cfg, frames, k, last)
    requires IsCall(Resumable, cfg, Start<R>(), rs, outcome, done) && Possible(Resumable, cfg, Start<R>(), rs)
    requires At(cfg, frames, n, Run(Resumable, cfg, Start<R>(), rs))
    ensures n <= if done then k + 1 else k
  {
    if n > (if done then k + 1 else k) {
      StartIsGood(cfg);
      var t := Run(Resumable, cfg, Start<R>(), rs);
      assert !t.client.fault;
      assert t.frames[..k + 1] == frames[..k + 1];
      OtherFramesGoOn(cfg, Start<R>(), rs, outcome, done, k + 1, last);
    }
  }

  /** A call that has read the first frames of such a stream: it is done exactly when frame k has been
      read, with that frame's outcome, and it reads no frame behind it. */
  ghost predicate CallAt<R>(cfg: Config<R>, frames: seq<seq<byte>>, k: nat, last: Outcome,
                            t: State<R>, outcome: Outcome, done: bool)
    requires AllWellFormed(frames)
  {
    && At(cfg, frames, |t.frames|, t)
    && if done then |t.frames| == k + 1 && outcome == last else |t.frames| <= k
  }

  /** One call of the resumable reader, however short its reads, on so much of such a stream as has arrived. */
  lemma CallOnStream<R>(cfg: Config<R>, frames: seq<seq<byte>>, k: nat, last: Outcome,
                        rs: seq<Reply>, outcome: Outcome, done: bool)
    requires EndsAt(cfg, frames, k, last) && Consumed(rs) <= Encode(frames)
    requires IsCall(Resumable, cfg, Start<R>(), rs, outcome, done) && Possible(Resumable, cfg, Start<R>(), rs)
    ensures CallAt(cfg, frames, k, last, Run(Resumable, cfg, Start<R>(), rs), outcome, done)
  {
    var n := RunOnStream(cfg, frames, rs);
    CallStopsAt(cfg, frames, k, last, n, rs, outcome, done);
    if done {
      DoneCallEndsAt(cfg, frames, k, last, n, rs, outcome);
    }
  }

  lemma CallAsWrittenIsResumable<R>(cfg: Config<R>, rs: seq<Reply>, outcome: Outcome, done: bool)
    requires IsCall(AsWritten, cfg, Start<R>(), rs, outcome, done) && Possible(AsWritten, cfg, Start<R>(), rs)
    requires !BodyFails(cfg, Start<R>(), rs)
    ensures Possible(Resumable, cfg, Start<R>(), rs) && IsCall(Resumable, cfg, Start<R>(), rs, outcome, done)
    ensures Run(Resumable, cfg, Start<R>(), rs) == Run(AsWritten, cfg, Start<R>(), rs)
  {
    CallIsCleanUnlessBodyFails(cfg, Start<R>(), rs, outcome, done);
    CleanRunFromStart(cfg, rs);
    StartIsGood(cfg);
    CleanCallsAgree(cfg, Start<R>(), rs, outcome, done);
  }

  /** One call of the code as written does the same, however short its reads, if no read of a body fails. */
  lemma CallAsWrittenOnStream<R>(cfg: Config<R>, frames: seq<seq<byte>>, k: nat, last: Outcome,
                                 rs: seq<Reply>, outcome: Outcome, done: bool)
    requires EndsAt(cfg, frames, k, last) && Consumed(rs) <= Encode(frames)
    requires IsCall(AsWritten, cfg, Start<R>(), rs, outcome, done) && Possible(AsWritten, cfg, Start<R>(), rs)
    requires !BodyFails(cfg, Start<R>(), rs)
    ensures CallAt(cfg, frames, k, last, Run(AsWritten, cfg, Start<R>(), rs), outcome, done)
  {
    CallAsWrittenIsResumable(cfg, rs, outcome, done);
    CallOnStream(cfg, frames, k, last, rs, outcome, done);
  }

  /** Enough has arrived for frame k to be whole. */
  predicate Reaches(frames: seq<seq<byte>>, k: nat, input: seq<byte>)
    requires AllWellFormed(frames)
  {
    k < |frames| && Encode(frames[..k + 1]) <= input
  }

  lemma ReachedFramesAreParsed(frames: seq<seq<byte>>, k: nat, input: seq<byte>)
    requires AllWellFormed(frames) && Reaches(frames, k, input)
    ensures |Parse(input).frames| > k
  {
    var head := Encode(frames[..k + 1]);
    assert input == head + input[|head|..];
    EncodeThenParse(frames[..k + 1], input[|head|..]);
  }

  lemma DeliveredFramesAreReached<R>(cfg: Config<R>, frames: seq<seq<byte>>, rs: seq<Reply>, input: seq<byte>, n: nat)
    requires AllWellFormed(frames) && Possible(Resumable, cfg, Start<R>(), rs) && Consumed(rs) <= input
    requires At(cfg, frames, n, Run(Resumable, cfg, Start<R>(), rs)) && n > 0
    requires !Run(Resumable, cfg, Start<R>(), rs).client.fault
    ensures Reaches(frames, n - 1, input)
  {
    StartIsGood(cfg);
    RunConserves(cfg, Start<R>(), rs);
    assert [] + Consumed(rs) == Consumed(rs);
    assert Encode(frames[..n]) <= Consumed(rs);
  }

  /** Under a callback that hands out all it has, the call is done exactly when frame k has arrived. */
  lemma FullCallOnStream<R(!new)>(cfg: Config<R>, frames: seq<seq<byte>>, k: nat, last: Outcome, input: seq<byte>)
    requires ClosesOnError(cfg) && EndsAt(cfg, frames, k, last) && input <= Encode(frames)
    ensures var one := FullCall(Resumable, cfg, Start<R>(), input);
            && CallAt(cfg, frames, k, last, one.state, one.outcome, one.done)
            && (one.done <==> Reaches(frames, k, input))
            && (!one.done ==> one.outcome == Ok)
  {
    var one := FullCall(Resumable, cfg, Start<R>(), input);
    var rs := FullCallIsRun(Resumable, cfg, Start<R>(), input);
    assert Consumed(rs) <= input;
    CallOnStream(cfg, frames, k, last, rs, one.outcome, one.done);
    if one.done {
      DeliveredFramesAreReached(cfg, frames, rs, input, k + 1);
    } else {
      UnfinishedCallIsOk(Resumable, cfg, Start<R>(), input);
      NoLostWakeup(Resumable, cfg, Start<R>(), input);
      assert Consumed(rs) == input;
      RunIsDenoted(cfg, rs);
      if Reaches(frames, k, input) {
        ReachedFramesAreParsed(frames, k, input);
      }
    }
  }

  /** The event loop is where one synchronous call on the bytes that have arrived would be, and has called
      back what that one hands out; it stays open exactly until frame k has arrived; and the client is that
      of the frames read. */
  ghost predicate LoopAt<R>(v: Variant, cfg: Config<R>, frames: seq<seq<byte>>, k: nat, es: seq<Event>)
    requires AllWellFormed(frames)
  {
    var l := RunEvents(v, cfg, NewLoop<R>(), es);
    && l.state == FullCall(v, cfg, Start<R>(), Arrived(es)).state && AgreesWithSync(v, cfg, es)
    && At(cfg, frames, |l.state.frames|, l.state)
    && (if l.open then |l.state.frames| <= k else |l.state.frames| == k + 1)
    && (l.open <==> !Reaches(frames, k, Arrived(es)))
  }

  /** The whole path, for any such stream, over every pattern of arrivals: after a readable event the
      adapter over the resumable reader is where it should be; and so is the adapter over the code as
      written when no event splits a length field. */
  lemma StreamThroughTheEventLoop<R(!new)>(cfg: Config<R>, frames: seq<seq<byte>>, k: nat, last: Outcome, es: seq<Event>)
    requires ClosesOnError(cfg) && EndsAt(cfg, frames, k, last)
    requires es != [] && es[|es| - 1] == Readable && Arrived(es) <= Encode(frames)
    ensures LoopAt(Resumable, cfg, frames, k, es)
    ensures CleanEvents(cfg, es) ==> LoopAt(AsWritten, cfg, frames, k, es)
  {
    AsyncAgreesWithSync(cfg, es);
    SyncAndAsyncAgree(cfg, es);
    FullCallOnStream(cfg, frames, k, last, Arrived(es));
    if CleanEvents(cfg, es) {
      CleanLoopsAgree(cfg, es);
      FullCallsAgree(cfg, Start<R>(), Arrived(es));
    }
  }

  // ----- Streams that break off -----

  /** Frames that all ask for more, followed by one that is refused. */
  ghost predicate BreaksOff<R>(cfg: Config<R>, frames: seq<seq<byte>>, bad: seq<byte>) {
    && WellFormed(bad) && (exists o :: EndsAt(cfg, frames, |frames|, o))
    && Refused(cfg, HandleAll(cfg, frames), bad)
  }

  lemma BrokenStreamEndsAt<R>(cfg: Config<R>, frames: seq<seq<byte>>, bad: seq<byte>)
    requires BreaksOff(cfg, frames, bad)
    ensures EndsAt(cfg, frames + [bad], |frames|, ReadError)
    ensures HandleAll(cfg, frames + [bad]) == HandleAll(cfg, frames)
  {
    var all := frames + [bad];
    assert all[..|frames|] == frames && all[..|all|] == all;
    forall n | 0 <= n <= |all| ensures !HandleAll(cfg, all[..n]).fault {
      assert n <= |frames| ==> all[..n] == frames[..n];
      assert frames[..|frames|] == frames;
    }
    forall n | 1 <= n <= |all| && n <= |frames| + 1
      ensures EndedBy(cfg, all[..n], if n == |frames| + 1 then Return(ReadError, true) else Again)
    {
      assert n <= |frames| ==> all[..n] == frames[..n];
    }
  }

  /** One call of the code as written on such a stream, however short its reads, if no read of a body fails:
      it is done exactly when it has read the bad frame, and then it is an error; the response is that of
      the frames before, and nothing has been called that they had not called. */
  lemma BrokenCall<R>(cfg: Config<R>, frames: seq<seq<byte>>, bad: seq<byte>, rs: seq<Reply>, outcome: Outcome, done: bool)
    requires BreaksOff(cfg, frames, bad) && AllWellFormed(frames + [bad]) && Consumed(rs) <= Encode(frames + [bad])
    requires IsCall(AsWritten, cfg, Start<R>(), rs, outcome, done) && Possible(AsWritten, cfg, Start<R>(), rs)
    requires !BodyFails(cfg, Start<R>(), rs)
    ensures var t := Run(AsWritten, cfg, Start<R>(), rs);
            if done then outcome == ReadError && t.frames == frames + [bad] && t.client == HandleAll(cfg, frames)
            else t.frames <= frames && t.client == HandleAll(cfg, t.frames)
  {
    var all := frames + [bad];
    BrokenStreamEndsAt(cfg, frames, bad);
    CallAsWrittenOnStream(cfg, all, |frames|, ReadError, rs, outcome, done);
    var n := |Run(AsWritten, cfg, Start<R>(), rs).frames|;
    assert n <= |frames| ==> all[..n] == frames[..n];
    assert all[..|all|] == all;
  }

  // ----- List keys, called -----

  lemma ListStreamEndsAt(cfg: Config<ListResponse>, unpack: seq<byte> -> Option<ListMsg>,
                         frames: seq<seq<byte>>, ms: seq<ListMsg>, k: nat)
    requires ListsKeys(cfg, unpack) && Carry(unpack, frames, ms)
    requires forall i :: 0 <= i < |ms| ==> (ms[i].IsLast() <==> i == k)
    ensures EndsAt(cfg, frames, k, Ok)
  {
    forall n | 0 <= n <= |frames| ensures !HandleAll(cfg, frames[..n]).fault {
      ListsAccumulate(cfg, unpack, frames[..n], ms[..n]);
    }
    forall n | 1 <= n <= |frames| && n <= k + 1
      ensures EndedBy(cfg, frames[..n], if n == k + 1 then Return(Ok, true) else Again)
    {
      assert frames[..n][..n - 1] == frames[..n - 1];
      var d := cfg.decoder.value(HandleAll(cfg, frames[..n - 1]).response, frames[n - 1]);
      assert d.status == Decoded && d.done == ms[n - 1].IsLast();
    }
  }

  /** The client after messages none of which is marked as the last. */
  function Listing(ms: seq<ListMsg>): Client<ListResponse> {
    Client(if ms == [] then None else Some(AllListed(ms)), [], [], false)
  }

  lemma ListBreaksOff(cfg: Config<ListResponse>, unpack: seq<byte> -> Option<ListMsg>, frames: seq<seq<byte>>,
                      ms: seq<ListMsg>, bad: seq<byte>)
    requires ListsKeys(cfg, unpack) && Carry(unpack, frames, ms) && (forall i :: 0 <= i < |ms| ==> !ms[i].IsLast())
    requires Unreadable(unpack, bad)
    ensures BreaksOff(cfg, frames, bad) && HandleAll(cfg, frames) == Listing(ms)
  {
    assert forall i :: 0 <= i < |ms| ==> (ms[i].IsLast() <==> i == |ms|);
    ListStreamEndsAt(cfg, unpack, frames, ms, |ms|);
    ListClientAfter(cfg, unpack, frames, ms, |ms|);
    UnreadableListFrameIsRefused(cfg, unpack, HandleAll(cfg, frames), bad);
  }

  /** A list-keys stream that breaks off: an error with the keys of the messages before, and no callback. */
  lemma BrokenListCall(cfg: Config<ListResponse>, unpack: seq<byte> -> Option<ListMsg>, frames: seq<seq<byte>>,
                       ms: seq<ListMsg>, bad: seq<byte>, rs: seq<Reply>, outcome: Outcome)
    requires ListsKeys(cfg, unpack) && Carry(unpack, frames, ms) && (forall i :: 0 <= i < |ms| ==> !ms[i].IsLast())
    requires Unreadable(unpack, bad) && Consumed(rs) <= Encode(frames + [bad])
    requires IsCall(AsWritten, cfg, Start(), rs, outcome, true) && Possible(AsWritten, cfg, Start(), rs)
    requires !BodyFails(cfg, Start(), rs)
    ensures outcome == ReadError && Run(AsWritten, cfg, Start(), rs).client == Listing(ms)
  {
    ListBreaksOff(cfg, unpack, frames, ms, bad);
    BrokenCall(cfg, frames, bad, rs, outcome, true);
  }

  /** A call that has read the first messages of a stream of which only the k-th is marked as the last. */
  predicate ListCallAt(cb: bool, frames: seq<seq<byte>>, ms: seq<ListMsg>, k: nat,
                       t: State<ListResponse>, outcome: Outcome, done: bool)
  {
    && KeysListed(cb, frames, ms, k, t)
    && if done then |t.frames| == k + 1 && outcome == Ok else |t.frames| <= k
  }

  /** One call of the code as written, with callbacks or, as in riak_listkeys, without, however short its
      reads, if no read of a body fails: it is done exactly when message k has been read; the response holds
      the keys of all messages read, in order, whether the call is done or not. */
  lemma ListCall(cfg: Config<ListResponse>, unpack: seq<byte> -> Option<ListMsg>, frames: seq<seq<byte>>,
                 ms: seq<ListMsg>, k: nat, rs: seq<Reply>, outcome: Outcome, done: bool)
    requires ListsKeys(cfg, unpack) && Carry(unpack, frames, ms)
    requires forall i :: 0 <= i < |ms| ==> (ms[i].IsLast() <==> i == k)
    requires IsCall(AsWritten, cfg, Start(), rs, outcome, done) && Possible(AsWritten, cfg, Start(), rs)
    requires !BodyFails(cfg, Start(), rs) && Consumed(rs) <= Encode(frames)
    ensures ListCallAt(cfg.responseCb, frames, ms, k, Run(AsWritten, cfg, Start(), rs), outcome, done)
  {
    ListStreamEndsAt(cfg, unpack, frames, ms, k);
    CallAsWrittenOnStream(cfg, frames, k, Ok, rs, outcome, done);
    var t := Run(AsWritten, cfg, Start(), rs);
    KeysListedAt(cfg, unpack, frames, ms, k, |t.frames|, t);
  }

  /** Under a callback that hands out all it has no condition is needed, and the call is done exactly when
      message k has arrived. It returns OK in any case. */
  lemma ListCallDoneExactlyAtLast(cfg: Config<ListResponse>, unpack: seq<byte> -> Option<ListMsg>,
                                  frames: seq<seq<byte>>, ms: seq<ListMsg>, k: nat, input: seq<byte>)
    requires ListsKeys(cfg, unpack) && Carry(unpack, frames, ms)
    requires forall i :: 0 <= i < |ms| ==> (ms[i].IsLast() <==> i == k)
    requires input <= Encode(frames)
    ensures var one := FullCall(AsWritten, cfg, Start<ListResponse>(), input);
            && ListCallAt(cfg.responseCb, frames, ms, k, one.state, one.outcome, one.done)
            && (one.done <==> Reaches(frames, k, input)) && one.outcome == Ok
  {
    assert ClosesOnError(cfg);
    ListStreamEndsAt(cfg, unpack, frames, ms, k);
    FullCallOnStream(cfg, frames, k, Ok, input);
    FullCallsAgree(cfg, Start<ListResponse>(), input);
    var t := FullCall(Resumable, cfg, Start<ListResponse>(), input).state;
    KeysListedAt(cfg, unpack, frames, ms, k, |t.frames|, t);
  }

  /** List keys through the adapter, over every pattern of arrivals: it stays open exactly until message
      k has arrived, and has called back once by then and not before, with all keys in order; over
      the code as written, as long as no event splits a length field. */
  lemma ListKeysThroughTheEventLoop(cfg: Config<ListResponse>, unpack: seq<byte> -> Option<ListMsg>,
                                    frames: seq<seq<byte>>, ms: seq<ListMsg>, k: nat, es: seq<Event>)
    requires ListsKeys(cfg, unpack) && Carry(unpack, frames, ms)
    requires forall i :: 0 <= i < |ms| ==> (ms[i].IsLast() <==> i == k)
    requires es != [] && es[|es| - 1] == Readable && Arrived(es) <= Encode(frames)
    ensures LoopAt(Resumable, cfg, frames, k, es)
    ensures KeysListed(cfg.responseCb, frames, ms, k, RunEvents(Resumable, cfg, NewLoop<ListResponse>(), es).state)
    ensures CleanEvents(cfg, es) ==>
              && LoopAt(AsWritten, cfg, frames, k, es)
              && KeysListed(cfg.responseCb, frames, ms, k, RunEvents(AsWritten, cfg, NewLoop<ListResponse>(), es).state)
  {
    assert ClosesOnError(cfg);
    ListStreamEndsAt(cfg, unpack, frames, ms, k);
    StreamThroughTheEventLoop(cfg, frames, k, Ok, es);
    var t := RunEvents(Resumable, cfg, NewLoop<ListResponse>(), es).state;
    KeysListedAt(cfg, unpack, frames, ms, k, |t.frames|, t);
    if CleanEvents(cfg, es) {
      var t' := RunEvents(AsWritten, cfg, NewLoop<ListResponse>(), es).state;
      KeysListedAt(cfg, unpack, frames, ms, k, |t'.frames|, t');
    }
  }

  // ----- Map/reduce, called -----

  lemma MapRedStreamEndsAt(cfg: Config<MapRedResponse>, unpack: seq<byte> -> Option<MapRedMsg>,
                           frames: seq<seq<byte>>, ms: seq<MapRedMsg>, k: nat)
    requires MapsAndReduces(cfg, unpack) && Carry(unpack, frames, ms)
    requires forall i :: 0 <= i < |ms| ==> (ms[i].IsLast() <==> i == k)
    ensures EndsAt(cfg, frames, k, Ok)
  {
    forall n | 0 <= n <= |frames| ensures !HandleAll(cfg, frames[..n]).fault {
      MapRedKeepsHistory(cfg, unpack, frames[..n], ms[..n], k);
    }
    forall n | 1 <= n <= |frames| && n <= k + 1
      ensures EndedBy(cfg, frames[..n], if n == k + 1 then Return(Ok, true) else Again)
    {
      assert frames[..n][..n - 1] == frames[..n - 1];
      var d := cfg.decoder.value(HandleAll(cfg, frames[..n - 1]).response, frames[n - 1]);
      assert d.status == Decoded && d.done == ms[n - 1].IsLast();
    }
  }

  lemma MapRedClientAt(cfg: Config<MapRedResponse>, unpack: seq<byte> -> Option<MapRedMsg>,
                       frames: seq<seq<byte>>, ms: seq<MapRedMsg>, k: nat, t: State<MapRedResponse>)
    requires MapsAndReduces(cfg, unpack) && Carry(unpack, frames, ms)
    requires forall i :: 0 <= i < |ms| ==> (ms[i].IsLast() <==> i == k)
    requires At(cfg, frames, |t.frames|, t)
    ensures t.client == MapRedClient(cfg.responseCb, ms[..|t.frames|], k)
  {
    MapRedKeepsHistory(cfg, unpack, frames[..|t.frames|], ms[..|t.frames|], k);
  }

  /** A map/reduce stream that breaks off: an error with the history of the messages before, no user-level
      messages, and no callback. */
  lemma BrokenMapRedCall(cfg: Config<MapRedResponse>, unpack: seq<byte> -> Option<MapRedMsg>, frames: seq<seq<byte>>,
                         ms: seq<MapRedMsg>, bad: seq<byte>, rs: seq<Reply>, outcome: Outcome)
    requires MapsAndReduces(cfg, unpack) && Carry(unpack, frames, ms) && (forall i :: 0 <= i < |ms| ==> !ms[i].IsLast())
    requires Unreadable(unpack, bad) && Consumed(rs) <= Encode(frames + [bad])
    requires IsCall(AsWritten, cfg, Start(), rs, outcome, true) && Possible(AsWritten, cfg, Start(), rs)
    requires !BodyFails(cfg, Start(), rs)
    ensures outcome == ReadError
    ensures Run(AsWritten, cfg, Start(), rs).client ==
              Client(if ms == [] then None else Some(MapRedResponse([], ms)), [], [], false)
  {
    MapRedStreamEndsAt(cfg, unpack, frames, ms, |ms|);
    MapRedKeepsHistory(cfg, unpack, frames, ms, |ms|);
    UnreadableMapRedFrameIsRefused(cfg, unpack, HandleAll(cfg, frames), bad);
    BrokenCall(cfg, frames, bad, rs, outcome, true);
  }

  predicate MapRedCallAt(cb: bool, frames: seq<seq<byte>>, ms: seq<MapRedMsg>, k: nat,
                         t: State<MapRedResponse>, outcome: Outcome, done: bool)
  {
    && t.frames <= frames && |frames| == |ms|
    && t.client == MapRedClient(cb, ms[..|t.frames|], k)
    && if done then |t.frames| == k + 1 && outcome == Ok else |t.frames| <= k
  }

  /** One call of the code as written, as in riak_mapreduce, likewise. */
  lemma MapRedCall(cfg: Config<MapRedResponse>, unpack: seq<byte> -> Option<MapRedMsg>, frames: seq<seq<byte>>,
                   ms: seq<MapRedMsg>, k: nat, rs: seq<Reply>, outcome: Outcome, done: bool)
    requires MapsAndReduces(cfg, unpack) && Carry(unpack, frames, ms)
    requires forall i :: 0 <= i < |ms| ==> (ms[i].IsLast() <==> i == k)
    requires IsCall(AsWritten, cfg, Start(), rs, outcome, done) && Possible(AsWritten, cfg, Start(), rs)
    requires !BodyFails(cfg, Start(), rs) && Consumed(rs) <= Encode(frames)
    ensures MapRedCallAt(cfg.responseCb, frames, ms, k, Run(AsWritten, cfg, Start(), rs), outcome, done)
  {
    MapRedStreamEndsAt(cfg, unpack, frames, ms, k);
    CallAsWrittenOnStream(cfg, frames, k, Ok, rs, outcome, done);
    MapRedClientAt(cfg, unpack, frames, ms, k, Run(AsWritten, cfg, Start(), rs));
  }

  lemma MapRedHandsOut(frames: seq<seq<byte>>, ms: seq<MapRedMsg>, k: nat, t: State<MapRedResponse>,
                       outcome: Outcome, done: bool)
    requires MapRedCallAt(false, frames, ms, k, t, outcome, done)
    ensures var n := |t.frames|;
            t.client.response == if n == 0 then None else Some(MapRedResponse(if done then ms[..n] else [], ms[..n]))
  {
    var n := |t.frames|;
    assert n == k + 1 ==> ms[..n][..k + 1] == ms[..n];
  }

  lemma MapRedCallDoneExactlyAtLast(cfg: Config<MapRedResponse>, unpack: seq<byte> -> Option<MapRedMsg>,
                                    frames: seq<seq<byte>>, ms: seq<MapRedMsg>, k: nat, input: seq<byte>)
    requires MapsAndReduces(cfg, unpack) && Carry(unpack, frames, ms)
    requires forall i :: 0 <= i < |ms| ==> (ms[i].IsLast() <==> i == k)
    requires input <= Encode(frames)
    ensures var one := FullCall(AsWritten, cfg, Start<MapRedResponse>(), input);
            && MapRedCallAt(cfg.responseCb, frames, ms, k, one.state, one.outcome, one.done)
            && (one.done <==> Reaches(frames, k, input)) && one.outcome == Ok
  {
    assert ClosesOnError(cfg);
    MapRedStreamEndsAt(cfg, unpack, frames, ms, k);
    FullCallOnStream(cfg, frames, k, Ok, input);
    FullCallsAgree(cfg, Start<MapRedResponse>(), input);
    MapRedClientAt(cfg, unpack, frames, ms, k, FullCall(Resumable, cfg, Start<MapRedResponse>(), input).state);
  }

  /** Map/reduce through the adapter, like list keys. */
  lemma MapRedThroughTheEventLoop(cfg: Config<MapRedResponse>, unpack: seq<byte> -> Option<MapRedMsg>,
                                  frames: seq<seq<byte>>, ms: seq<MapRedMsg>, k: nat, es: seq<Event>)
    requires MapsAndReduces(cfg, unpack) && Carry(unpack, frames, ms)
    requires forall i :: 0 <= i < |ms| ==> (ms[i].IsLast() <==> i == k)
    requires es != [] && es[|es| - 1] == Readable && Arrived(es) <= Encode(frames)
    ensures LoopAt(Resumable, cfg, frames, k, es)
    ensures var t := RunEvents(Resumable, cfg, NewLoop<MapRedResponse>(), es).state;
            t.client == MapRedClient(cfg.responseCb, ms[..|t.frames|], k)
    ensures CleanEvents(cfg, es) ==>
              && LoopAt(AsWritten, cfg, frames, k, es)
              && var t := RunEvents(AsWritten, cfg, NewLoop<MapRedResponse>(), es).state;
              t.client == MapRedClient(cfg.responseCb, ms[..|t.frames|], k)
  {
    assert ClosesOnError(cfg);
    MapRedStreamEndsAt(cfg, unpack, frames, ms, k);
    StreamThroughTheEventLoop(cfg, frames, k, Ok, es);
    MapRedClientAt(cfg, unpack, frames, ms, k, RunEvents(Resumable, cfg, NewLoop<MapRedResponse>(), es).state);
    if CleanEvents(cfg, es) {
      MapRedClientAt(cfg, unpack, frames, ms, k, RunEvents(AsWritten, cfg, NewLoop<MapRedResponse>(), es).state);
    }
  }

  // ----- Secondary indexes, called -----

  lemma IndexGoesOn(cfg: Config<IndexResponse>, copies: nat -> bool, unpack: seq<byte> -> Option<IndexMsg>,
                    frames: seq<seq<byte>>, ms: seq<IndexMsg>)
    requires QueriesIndex(cfg, copies, unpack) && Carry(unpack, frames, ms) && ms != []
    requires !ms[|ms| - 1].IsLast()
    ensures EndedBy(cfg, frames, Again)
  {
    var last := |frames| - 1;
    var d := cfg.decoder.value(HandleAll(cfg, frames[..last]).response, frames[last]);
    assert d.status == Decoded && !d.done;
  }

  lemma IndexStreamEndsAt(cfg: Config<IndexResponse>, copies: nat -> bool, unpack: seq<byte> -> Option<IndexMsg>,
                          frames: seq<seq<byte>>, ms: seq<IndexMsg>)
    requires QueriesIndex(cfg, copies, unpack) && Carry(unpack, frames, ms) && ms != [] && !Crashing(ms)
    requires forall i :: 0 <= i < |ms| ==> (ms[i].IsLast() <==> i == |ms| - 1)
    ensures EndsAt(cfg, frames, |ms| - 1, IndexOutcome(ms))
  {
    assert frames[..|frames|] == frames;
    forall n | 0 <= n <= |frames| ensures !HandleAll(cfg, frames[..n]).fault {
      if n < |frames| {
        IndexStores(cfg, copies, unpack, frames[..n], ms[..n]);
      } else {
        IndexAnsweredExactlyWhen(cfg, copies, unpack, frames, ms);
      }
    }
    forall n | 1 <= n <= |frames|
      ensures EndedBy(cfg, frames[..n], if n == |ms| then Return(IndexOutcome(ms), true) else Again)
    {
      if n < |ms| {
        IndexGoesOn(cfg, copies, unpack, frames[..n], ms[..n]);
      } else {
        IndexAnsweredExactlyWhen(cfg, copies, unpack, frames, ms);
      }
    }
  }

  lemma UnfinishedIndexStreamGoesOn(cfg: Config<IndexResponse>, copies: nat -> bool, unpack: seq<byte> -> Option<IndexMsg>,
                                    frames: seq<seq<byte>>, ms: seq<IndexMsg>)
    requires QueriesIndex(cfg, copies, unpack) && Carry(unpack, frames, ms)
    requires forall i :: 0 <= i < |ms| ==> !ms[i].IsLast()
    ensures EndsAt(cfg, frames, |frames|, Ok)
  {
    forall n | 0 <= n <= |frames| ensures !HandleAll(cfg, frames[..n]).fault {
      IndexStores(cfg, copies, unpack, frames[..n], ms[..n]);
    }
    forall n | 1 <= n <= |frames| ensures EndedBy(cfg, frames[..n], Again) {
      IndexGoesOn(cfg, copies, unpack, frames[..n], ms[..n]);
    }
  }

  /** A 2i stream that breaks off: an error with the stored messages, no keys, and no callback. */
  lemma BrokenIndexCall(cfg: Config<IndexResponse>, copies: nat -> bool, unpack: seq<byte> -> Option<IndexMsg>,
                        frames: seq<seq<byte>>, ms: seq<IndexMsg>, bad: seq<byte>, rs: seq<Reply>, outcome: Outcome)
    requires QueriesIndex(cfg, copies, unpack) && Carry(unpack, frames, ms)
    requires forall i :: 0 <= i < |ms| ==> !ms[i].IsLast()
    requires Unreadable(unpack, bad) && Consumed(rs) <= Encode(frames + [bad])
    requires IsCall(AsWritten, cfg, Start(), rs, outcome, true) && Possible(AsWritten, cfg, Start(), rs)
    requires !BodyFails(cfg, Start(), rs)
    ensures outcome == ReadError && Run(AsWritten, cfg, Start(), rs).client == StoredClient(ms)
  {
    UnfinishedIndexStreamGoesOn(cfg, copies, unpack, frames, ms);
    IndexStores(cfg, copies, unpack, frames, ms);
    UnreadableIndexFrameIsRefused(cfg, copies, unpack, HandleAll(cfg, frames), bad);
    BrokenCall(cfg, frames, bad, rs, outcome, true);
  }

  /** A call that has read so much of a 2i stream, of which `whole` says whether it is all. */
  predicate IndexCallAt(cb: bool, frames: seq<seq<byte>>, ms: seq<IndexMsg>, whole: bool,
                        t: State<IndexResponse>, outcome: Outcome, done: bool)
    requires ms != [] && |frames| == |ms|
  {
    && IndexReported(cb, frames, ms, whole, t)
    && (done <==> whole) && (done ==> outcome == IndexOutcome(ms))
  }

  lemma EarlyIndexFrameGoesOn(cfg: Config<IndexResponse>, copies: nat -> bool, unpack: seq<byte> -> Option<IndexMsg>,
                              frames: seq<seq<byte>>, ms: seq<IndexMsg>, n: nat, outcome: Outcome)
    requires QueriesIndex(cfg, copies, unpack) && Carry(unpack, frames, ms) && n < |ms|
    requires forall i :: 0 <= i < |ms| ==> (ms[i].IsLast() <==> i == |ms| - 1)
    ensures !EndedBy(cfg, frames[..n], Return(outcome, true))
  {
    if n > 0 {
      IndexGoesOn(cfg, copies, unpack, frames[..n], ms[..n]);
    }
  }

  lemma CrashingIndexCall(cfg: Config<IndexResponse>, copies: nat -> bool, unpack: seq<byte> -> Option<IndexMsg>,
                          frames: seq<seq<byte>>, ms: seq<IndexMsg>, rs: seq<Reply>, outcome: Outcome, done: bool)
    requires QueriesIndex(cfg, copies, unpack) && Carry(unpack, frames, ms) && ms != [] && Crashing(ms)
    requires forall i :: 0 <= i < |ms| ==> (ms[i].IsLast() <==> i == |ms| - 1)
    requires IsCall(Resumable, cfg, Start(), rs, outcome, done) && Possible(Resumable, cfg, Start(), rs)
    requires IndexReported(cfg.responseCb, frames, ms, Consumed(rs) == Encode(frames), Run(Resumable, cfg, Start(), rs))
    ensures (done <==> Consumed(rs) == Encode(frames)) && (done ==> outcome == Fault)
  {
    var t := Run(Resumable, cfg, Start(), rs);
    assert Reports(cfg, NewClient(), t.client, Return(outcome, done)) by {
      CallReports(Resumable, cfg, Start(), rs, outcome, done);
    }
    if Consumed(rs) != Encode(frames) && done {
      assert t.frames == frames[..|t.frames|];
      EarlyIndexFrameGoesOn(cfg, copies, unpack, frames, ms, |t.frames|, outcome);
      StartIsGood(cfg);
      DoneCallEndsFrame(cfg, Start(), rs, outcome);
    }
  }

  /** One call of the resumable reader, however short its reads, on so much of any 2i stream as has
      arrived: it is done exactly when it has read all of it, and then its messages decide. */
  lemma IndexCall(cfg: Config<IndexResponse>, copies: nat -> bool, unpack: seq<byte> -> Option<IndexMsg>,
                  frames: seq<seq<byte>>, ms: seq<IndexMsg>, rs: seq<Reply>, outcome: Outcome, done: bool)
    requires QueriesIndex(cfg, copies, unpack) && Carry(unpack, frames, ms) && ms != []
    requires forall i :: 0 <= i < |ms| ==> (ms[i].IsLast() <==> i == |ms| - 1)
    requires IsCall(Resumable, cfg, Start(), rs, outcome, done) && Possible(Resumable, cfg, Start(), rs)
    requires Consumed(rs) <= Encode(frames)
    ensures IndexCallAt(cfg.responseCb, frames, ms, Consumed(rs) == Encode(frames),
                        Run(Resumable, cfg, Start(), rs), outcome, done)
  {
    IndexEndToEnd(cfg, copies, unpack, frames, ms, rs);
    if Crashing(ms) {
      CrashingIndexCall(cfg, copies, unpack, frames, ms, rs, outcome, done);
    } else {
      IndexStreamEndsAt(cfg, copies, unpack, frames, ms);
      CallOnStream(cfg, frames, |ms| - 1, IndexOutcome(ms), rs, outcome, done);
    }
  }

  /** The same of one call of the code as written, as in riak_2i, if no read of a body fails. */
  lemma IndexCallAsWritten(cfg: Config<IndexResponse>, copies: nat -> bool, unpack: seq<byte> -> Option<IndexMsg>,
                           frames: seq<seq<byte>>, ms: seq<IndexMsg>, rs: seq<Reply>, outcome: Outcome, done: bool)
    requires QueriesIndex(cfg, copies, unpack) && Carry(unpack, frames, ms) && ms != []
    requires forall i :: 0 <= i < |ms| ==> (ms[i].IsLast() <==> i == |ms| - 1)
    requires IsCall(AsWritten, cfg, Start(), rs, outcome, done) && Possible(AsWritten, cfg, Start(), rs)
    requires !BodyFails(cfg, Start(), rs) && Consumed(rs) <= Encode(frames)
    ensures IndexCallAt(cfg.responseCb, frames, ms, Consumed(rs) == Encode(frames),
                        Run(AsWritten, cfg, Start(), rs), outcome, done)
  {
    CallAsWrittenIsResumable(cfg, rs, outcome, done);
    IndexCall(cfg, copies, unpack, frames, ms, rs, outcome, done);
  }

  /** The event loop over a 2i stream: it is open exactly until all of the stream has arrived, and agrees
      with a synchronous call; nothing has been called until then, and then the messages decide. */
  ghost predicate IndexLoopAt(v: Variant, cfg: Config<IndexResponse>, frames: seq<seq<byte>>, ms: seq<IndexMsg>,
                              es: seq<Event>)
    requires ms != [] && |frames| == |ms| && AllWellFormed(frames)
  {
    var l := RunEvents(v, cfg, NewLoop<IndexResponse>(), es);
    && AgreesWithSync(v, cfg, es)
    && (l.open <==> Arrived(es) != Encode(frames))
    && IndexReported(cfg.responseCb, frames, ms, !l.open, l.state)
  }

  lemma FullIndexCall(cfg: Config<IndexResponse>, copies: nat -> bool, unpack: seq<byte> -> Option<IndexMsg>,
                      frames: seq<seq<byte>>, ms: seq<IndexMsg>, input: seq<byte>)
    requires QueriesIndex(cfg, copies, unpack) && Carry(unpack, frames, ms) && ms != []
    requires forall i :: 0 <= i < |ms| ==> (ms[i].IsLast() <==> i == |ms| - 1)
    requires input <= Encode(frames)
    ensures var one := FullCall(Resumable, cfg, Start(), input);
            IndexCallAt(cfg.responseCb, frames, ms, input == Encode(frames), one.state, one.outcome, one.done)
  {
    assert ClosesOnError(cfg);
    var one := FullCall(Resumable, cfg, Start(), input);
    var rs := FullCallIsRun(Resumable, cfg, Start(), input);
    IndexCall(cfg, copies, unpack, frames, ms, rs, one.outcome, one.done);
    if !one.done {
      UnfinishedCallIsOk(Resumable, cfg, Start(), input);
      NoLostWakeup(Resumable, cfg, Start(), input);
      assert Consumed(rs) == input;
    }
  }

  /** Secondary indexes through the adapter, for every stream, answerable or not, over every pattern of
      arrivals; over the code as written, as long as no event splits a length field. */
  lemma IndexThroughTheEventLoop(cfg: Config<IndexResponse>, copies: nat -> bool, unpack: seq<byte> -> Option<IndexMsg>,
                                 frames: seq<seq<byte>>, ms: seq<IndexMsg>, es: seq<Event>)
    requires QueriesIndex(cfg, copies, unpack) && Carry(unpack, frames, ms) && ms != []
    requires forall i :: 0 <= i < |ms| ==> (ms[i].IsLast() <==> i == |ms| - 1)
    requires es != [] && es[|es| - 1] == Readable && Arrived(es) <= Encode(frames)
    ensures IndexLoopAt(Resumable, cfg, frames, ms, es)
    ensures CleanEvents(cfg, es) ==> IndexLoopAt(AsWritten, cfg, frames, ms, es)
  {
    assert ClosesOnError(cfg);
    AsyncAgreesWithSync(cfg, es);
    SyncAndAsyncAgree(cfg, es);
    FullIndexCall(cfg, copies, unpack, frames, ms, Arrived(es));
    if CleanEvents(cfg, es) {
      CleanLoopsAgree(cfg, es);
    }
  }
}
