/** What every run of the reader keeps, and when the code as written is one of those runs. */
module ReaderProperties {
  import opened Wire
  import opened Framing
  import opened Reader

  // ----- The reader's state as a function of the bytes it has consumed -----

  /** The client after a list of frames, each dispatched in turn. */
  function HandleAll<R>(cfg: Config<R>, frames: seq<seq<byte>>): (c: Client<R>)
    requires AllWellFormed(frames)
  {
    if frames == [] then NewClient()
    else
      var last := |frames| - 1;
      Handle(cfg, HandleAll(cfg, frames[..last]), frames[last]).0
  }

  function Zeros(n: nat): (bs: seq<byte>)
    ensures |bs| == n
  {
    seq<byte>(n, i => 0)
  }

  /** The state that a byte string leads to, however it was cut into reads: its whole frames
      are delivered, and the rest is either part of a length field or a length field and part
      of a body. */
  function Denote<R>(cfg: Config<R>, bytes: seq<byte>): (s: State<R>) {
    var p := Parse(bytes);
    var c := HandleAll(cfg, p.frames);
    if |p.rest| < 4 then
      State(|p.rest|, Word(cfg.order, p.rest + Zeros(4 - |p.rest|)), [], false, p.frames, c)
    else
      var n := FromNetwork(p.rest[..4]);
      var held := p.rest[4..];
      if |held| <= n then
        State(|held|, n, Overlay(FreshBuffer(cfg, |p.frames|, n), 0, held), true, p.frames, c)
      else
        State(0, n, [], true, p.frames, c)
  }

  /** The bytes the reader holds that are not yet part of a delivered frame. */
  function Held<R>(cfg: Config<R>, s: State<R>): (bs: seq<byte>)
    requires Typed(s) && (s.complete ==> s.position <= s.msglen)
  {
    if s.complete then ToNetwork(s.msglen) + s.msgbuf[..s.position]
    else Memory(cfg.order, s.msglen)[..s.position]
  }

  /** The invariant of the resumable reader between any two reads. */
  ghost predicate Good<R>(cfg: Config<R>, s: State<R>) {
    && Typed(s) && !s.client.fault
    && AllWellFormed(s.frames)
    && s.client == HandleAll(cfg, s.frames)
    && (if s.complete then
          && s.position < s.msglen
          && s.msgbuf[s.position..] == FreshBuffer(cfg, |s.frames|, s.msglen)[s.position..]
        else
          Memory(cfg.order, s.msglen)[s.position..] == Zeros(4 - s.position))
  }

  /** Where a run stands: everything consumed is delivered or held. */
  function Accounted<R>(cfg: Config<R>, s: State<R>): (bs: seq<byte>)
    requires Typed(s) && (s.complete ==> s.position <= s.msglen) && AllWellFormed(s.frames)
  {
    Encode(s.frames) + Held(cfg, s)
  }

  lemma StartIsGood<R>(cfg: Config<R>)
    ensures Good(cfg, Start<R>()) && Accounted(cfg, Start<R>()) == []
  {
    assert ToNetwork(0) == [0, 0, 0, 0];
  }

  /** The four bytes of memory after a piece of the length field has been stored. */
  lemma HeaderBytes<R>(cfg: Config<R>, s: State<R>, data: seq<byte>)
    requires Good(cfg, s) && !s.complete && s.position + |data| <= 4
    ensures var raw, end := Overlay(Memory(cfg.order, s.msglen), s.position, data), s.position + |data|;
            && raw[..end] == Held(cfg, s) + data && raw[end..] == Zeros(4 - end)
            && Memory(cfg.order, Word(cfg.order, raw)) == raw
  {
    var mem := Memory(cfg.order, s.msglen);
    var raw, end := Overlay(mem, s.position, data), s.position + |data|;
    assert raw[..end] == mem[..s.position] + data;
    assert raw[end..] == mem[s.position..][|data|..] == Zeros(4 - end);
    WordRoundTrip(cfg.order, raw);
  }

  lemma WholeHeaderIsHeld<R>(cfg: Config<R>, s: State<R>, data: seq<byte>)
    requires Good(cfg, s) && !s.complete && s.position + |data| == 4
    ensures var raw := Overlay(Memory(cfg.order, s.msglen), s.position, data);
            ToNetwork(Ntohl(cfg.order, Word(cfg.order, raw))) == Held(cfg, s) + data
  {
    var raw := Overlay(Memory(cfg.order, s.msglen), s.position, data);
    HeaderBytes(cfg, s, data);
    assert raw[..4] == raw;
    NetworkBytesRoundTrip(raw);
  }

  lemma HeaderKeepsGood<R>(cfg: Config<R>, s: State<R>, r: Reply)
    requires Good(cfg, s) && !s.complete && Fits(s, r)
    requires !HeaderStep(Resumable, cfg, s, r).0.client.fault
    ensures Good(cfg, HeaderStep(Resumable, cfg, s, r).0) && HeaderStep(Resumable, cfg, s, r).0.frames == s.frames
    ensures Held(cfg, HeaderStep(Resumable, cfg, s, r).0) == Held(cfg, s) + DataOf(r)
  {
    if r.Bytes? && r.data != [] {
      if s.position + |r.data| == 4 {
        WholeHeaderIsHeld(cfg, s, r.data);
        var t := HeaderStep(Resumable, cfg, s, r).0;
        assert ToNetwork(t.msglen) + t.msgbuf[..0] == ToNetwork(t.msglen);
      } else {
        HeaderBytes(cfg, s, r.data);
      }
    } else {
      assert Held(cfg, s) + [] == Held(cfg, s);
    }
  }

  lemma DeliverKeepsGood<R>(cfg: Config<R>, s: State<R>, frame: seq<byte>)
    requires Good(cfg, s) && WellFormed(frame)
    requires !Deliver(cfg, s, frame).0.client.fault
    ensures Good(cfg, Deliver(cfg, s, frame).0)
    ensures Held(cfg, Deliver(cfg, s, frame).0) == []
    ensures Encode(s.frames + [frame]) == Encode(s.frames) + EncodeFrame(frame)
  {
    var all := s.frames + [frame];
    assert all[..|all| - 1] == s.frames;
    EncodeAppend(s.frames, frame);
    assert ToNetwork(0) == [0, 0, 0, 0];
  }

  lemma PartialBodyKeepsGood<R>(cfg: Config<R>, s: State<R>, data: seq<byte>)
    requires Good(cfg, s) && s.complete && s.position + |data| < s.msglen
    ensures var s' := s.(position := s.position + |data|, msgbuf := Overlay(s.msgbuf, s.position, data));
            Good(cfg, s') && Held(cfg, s') == Held(cfg, s) + data
  {
    var buf := Overlay(s.msgbuf, s.position, data);
    var end := s.position + |data|;
    var blank := FreshBuffer(cfg, |s.frames|, s.msglen);
    assert buf[..end] == s.msgbuf[..s.position] + data;
    assert buf[end..] == s.msgbuf[s.position..][|data|..];
    assert blank[end..] == blank[s.position..][|data|..];
  }

  lemma WholeBodyKeepsGood<R>(cfg: Config<R>, s: State<R>, data: seq<byte>)
    requires Good(cfg, s) && s.complete && s.position + |data| == s.msglen
    requires !Deliver(cfg, s, Overlay(s.msgbuf, s.position, data)).0.client.fault
    ensures var s' := Deliver(cfg, s, Overlay(s.msgbuf, s.position, data)).0;
            Good(cfg, s') && Accounted(cfg, s') == Accounted(cfg, s) + data
  {
    var buf := Overlay(s.msgbuf, s.position, data);
    assert buf == s.msgbuf[..s.position] + data;
    DeliverKeepsGood(cfg, s, buf);
    assert EncodeFrame(buf) == Held(cfg, s) + data;
  }

  /** In range, the 32-bit position does not wrap. */
  lemma BodyStepShape<R>(cfg: Config<R>, s: State<R>, r: Reply)
    requires Typed(s) && s.complete && s.position < s.msglen && Fits(s, r)
    ensures r.Failed? ==> BodyStep(Resumable, cfg, s, r) == (s, Return(ReadError, false))
    ensures r.Bytes? ==>
      var buf := Overlay(s.msgbuf, s.position, r.data);
      BodyStep(Resumable, cfg, s, r) ==
        if s.position + |r.data| < s.msglen
        then (s.(position := s.position + |r.data|, msgbuf := buf), Return(Ok, false))
        else Deliver(cfg, s, buf)
  {
  }

  lemma BodyKeepsGood<R>(cfg: Config<R>, s: State<R>, r: Reply)
    requires Good(cfg, s) && s.complete && Fits(s, r)
    requires !BodyStep(Resumable, cfg, s, r).0.client.fault
    ensures Good(cfg, BodyStep(Resumable, cfg, s, r).0)
    ensures Accounted(cfg, BodyStep(Resumable, cfg, s, r).0) == Accounted(cfg, s) + DataOf(r)
  {
    BodyStepShape(cfg, s, r);
    if r.Bytes? {
      if s.position + |r.data| < s.msglen {
        PartialBodyKeepsGood(cfg, s, r.data);
        assert Encode(s.frames) + (Held(cfg, s) + r.data) == Accounted(cfg, s) + r.data;
      } else {
        WholeBodyKeepsGood(cfg, s, r.data);
      }
    } else {
      assert Accounted(cfg, s) + [] == Accounted(cfg, s);
    }
  }

  /** No byte is lost, repeated or reordered by a step of the resumable reader. */
  lemma StepKeepsGood<R>(cfg: Config<R>, s: State<R>, r: Reply)
    requires Good(cfg, s) && Fits(s, r)
    requires !Step(Resumable, cfg, s, r).0.client.fault
    ensures Good(cfg, Step(Resumable, cfg, s, r).0)
    ensures Accounted(cfg, Step(Resumable, cfg, s, r).0) == Accounted(cfg, s) + DataOf(r)
  {
    if s.complete {
      BodyKeepsGood(cfg, s, r);
    } else {
      HeaderKeepsGood(cfg, s, r);
      AppendIsAssociative(Encode(s.frames), Held(cfg, s), DataOf(r));
    }
  }

  /** Conservation over every run: the bytes consumed are exactly the delivered frames,
      re-encoded, followed by the bytes held. */
  lemma {:induction false} RunConserves<R>(cfg: Config<R>, s: State<R>, rs: seq<Reply>)
    requires Good(cfg, s) && Possible(Resumable, cfg, s, rs)
    requires !Run(Resumable, cfg, s, rs).client.fault
    ensures Good(cfg, Run(Resumable, cfg, s, rs))
    ensures Accounted(cfg, Run(Resumable, cfg, s, rs)) == Accounted(cfg, s) + Consumed(rs)
    decreases |rs|
  {
    if rs == [] {
      assert Accounted(cfg, s) + [] == Accounted(cfg, s);
    } else {
      var s' := Step(Resumable, cfg, s, rs[0]).0;
      assert !s'.client.fault;
      StepKeepsGood(cfg, s, rs[0]);
      RunConserves(cfg, s', rs[1..]);
      AppendIsAssociative(Accounted(cfg, s), DataOf(rs[0]), Consumed(rs[1..]));
      var t := Run(Resumable, cfg, s', rs[1..]);
      assert Run(Resumable, cfg, s, rs) == t;
      assert Accounted(cfg, t) == Accounted(cfg, s) + (DataOf(rs[0]) + Consumed(rs[1..]));
    }
  }

  lemma MemoryRoundTrip(order: ByteOrder, word: nat)
    requires word < TWO_TO_THE_32
    ensures Word(order, Memory(order, word)) == word
  {
    NetworkRoundTrip(word);
    assert Reversed4(Reversed4(ToNetwork(word))) == ToNetwork(word);
  }

  /** What is held never contains a whole frame. */
  lemma HeldIsIncomplete<R>(cfg: Config<R>, s: State<R>)
    requires Good(cfg, s)
    ensures !StartsWithFrame(Held(cfg, s))
    ensures s.complete ==> Held(cfg, s)[..4] == ToNetwork(s.msglen) && Held(cfg, s)[4..] == s.msgbuf[..s.position]
  {
    NetworkRoundTrip(s.msglen);
  }

  lemma HeldDeterminesHeader<R>(cfg: Config<R>, s: State<R>)
    requires Good(cfg, s) && !s.complete
    ensures Word(cfg.order, Held(cfg, s) + Zeros(4 - |Held(cfg, s)|)) == s.msglen
  {
    assert Memory(cfg.order, s.msglen) == Held(cfg, s) + Zeros(4 - |Held(cfg, s)|);
    MemoryRoundTrip(cfg.order, s.msglen);
  }

  lemma HeldDeterminesBody<R>(cfg: Config<R>, s: State<R>)
    requires Good(cfg, s) && s.complete
    ensures s.msgbuf == Overlay(FreshBuffer(cfg, |s.frames|, s.msglen), 0, s.msgbuf[..s.position])
  {
    assert s.msgbuf == s.msgbuf[..s.position] + s.msgbuf[s.position..];
  }

  /** A state that satisfies the invariant is the one its bytes denote. */
  lemma GoodIsDenoted<R>(cfg: Config<R>, s: State<R>)
    requires Good(cfg, s)
    ensures Parse(Accounted(cfg, s)) == Parsed(s.frames, Held(cfg, s))
    ensures Denote(cfg, Accounted(cfg, s)) == s
  {
    assert Parse(Accounted(cfg, s)) == Parsed(s.frames, Held(cfg, s)) by {
      HeldIsIncomplete(cfg, s);
      EncodeThenParse(s.frames, Held(cfg, s));
      assert s.frames + [] == s.frames;
    }
    if s.complete {
      HeldIsIncomplete(cfg, s);
      NetworkRoundTrip(s.msglen);
      HeldDeterminesBody(cfg, s);
    } else {
      HeldDeterminesHeader(cfg, s);
    }
  }

  /** Chunking independence: after any run from a fresh operation, over any number of calls
      and any short reads, the whole state is a function of the bytes consumed. The frames
      handed to the decoder are the whole frames of those bytes. */
  lemma RunIsDenoted<R>(cfg: Config<R>, rs: seq<Reply>)
    requires Possible(Resumable, cfg, Start<R>(), rs)
    requires !Run(Resumable, cfg, Start<R>(), rs).client.fault
    ensures Run(Resumable, cfg, Start<R>(), rs) == Denote(cfg, Consumed(rs))
    ensures Run(Resumable, cfg, Start<R>(), rs).frames == Parse(Consumed(rs)).frames
    ensures Good(cfg, Run(Resumable, cfg, Start<R>(), rs))
  {
    var t := Run(Resumable, cfg, Start<R>(), rs);
    assert Good(cfg, t) && Accounted(cfg, t) == Consumed(rs) by {
      StartIsGood(cfg);
      RunConserves(cfg, Start<R>(), rs);
      assert [] + Consumed(rs) == Consumed(rs);
    }
    GoodIsDenoted(cfg, t);
  }

  /** Two runs that consumed the same bytes end in the same state. */
  lemma ChunkingIsInvisible<R>(cfg: Config<R>, rs1: seq<Reply>, rs2: seq<Reply>)
    requires Possible(Resumable, cfg, Start<R>(), rs1) && Possible(Resumable, cfg, Start<R>(), rs2)
    requires !Run(Resumable, cfg, Start<R>(), rs1).client.fault
    requires !Run(Resumable, cfg, Start<R>(), rs2).client.fault
    requires Consumed(rs1) == Consumed(rs2)
    ensures Run(Resumable, cfg, Start<R>(), rs1) == Run(Resumable, cfg, Start<R>(), rs2)
  {
    RunIsDenoted(cfg, rs1);
    RunIsDenoted(cfg, rs2);
  }

  // ----- When behaviour is defined -----

  /** A byte stream none of whose frames crashes its dispatch, and that announces no empty frame. */
  predicate Sound<R>(cfg: Config<R>, bytes: seq<byte>) {
    var p := Parse(bytes);
    && !HandleAll(cfg, p.frames).fault
    && !(|p.rest| >= 4 && FromNetwork(p.rest[..4]) == 0)
  }

  lemma EmptyFrameIsUnsound<R>(cfg: Config<R>, s: State<R>, data: seq<byte>)
    requires Good(cfg, s) && !s.complete && Fits(s, Bytes(data))
    requires HeaderStep(Resumable, cfg, s, Bytes(data)).0.client.fault
    ensures !Sound(cfg, Accounted(cfg, s) + data)
  {
    var mem := Memory(cfg.order, s.msglen);
    var raw := Overlay(mem, s.position, data);
    HostOrderIsInvisible(cfg.order, raw, 0);
    assert raw == Held(cfg, s) + data;
    assert raw[..4] == raw;
    EncodeThenParse(s.frames, raw);
    AppendIsAssociative(Encode(s.frames), Held(cfg, s), data);
    assert s.frames + [] == s.frames;
  }

  lemma CrashingFrameIsUnsound<R>(cfg: Config<R>, s: State<R>, data: seq<byte>)
    requires Good(cfg, s) && s.complete && s.position + |data| == s.msglen
    requires Deliver(cfg, s, Overlay(s.msgbuf, s.position, data)).0.client.fault
    ensures !Sound(cfg, Accounted(cfg, s) + data)
  {
    var buf := Overlay(s.msgbuf, s.position, data);
    assert buf == s.msgbuf[..s.position] + data;
    assert EncodeFrame(buf) == Held(cfg, s) + data;
    AppendIsAssociative(Encode(s.frames), Held(cfg, s), data);
    var all := s.frames + [buf];
    assert all[..|all| - 1] == s.frames;
    EncodeAppend(s.frames, buf);
    EncodeThenParse(all, []);
    assert Encode(all) + [] == Encode(all);
    assert all + [] == all;
  }

  lemma StepFaultsOnlyIfUnsound<R>(cfg: Config<R>, s: State<R>, r: Reply)
    requires Good(cfg, s) && Fits(s, r)
    requires Step(Resumable, cfg, s, r).0.client.fault
    ensures !Sound(cfg, Accounted(cfg, s) + DataOf(r))
  {
    if s.complete {
      BodyStepShape(cfg, s, r);
      CrashingFrameIsUnsound(cfg, s, r.data);
    } else {
      EmptyFrameIsUnsound(cfg, s, r.data);
    }
  }

  lemma {:induction false} RunFaultsOnlyIfUnsound<R>(cfg: Config<R>, s: State<R>, rs: seq<Reply>)
    requires Good(cfg, s) && Possible(Resumable, cfg, s, rs)
    requires Run(Resumable, cfg, s, rs).client.fault
    ensures !Sound(cfg, Accounted(cfg, s) + Consumed(rs))
    decreases |rs|
  {
    assert rs != [];
    var s' := Step(Resumable, cfg, s, rs[0]).0;
    if s'.client.fault {
      StepFaultsOnlyIfUnsound(cfg, s, rs[0]);
      assert rs[1..] == [];
      assert Consumed(rs) == DataOf(rs[0]);
    } else {
      StepKeepsGood(cfg, s, rs[0]);
      RunFaultsOnlyIfUnsound(cfg, s', rs[1..]);
      AppendIsAssociative(Accounted(cfg, s), DataOf(rs[0]), Consumed(rs[1..]));
    }
  }

  lemma GoodIsSound<R>(cfg: Config<R>, s: State<R>)
    requires Good(cfg, s)
    ensures Sound(cfg, Accounted(cfg, s))
  {
    GoodIsDenoted(cfg, s);
    if s.complete {
      HeldIsIncomplete(cfg, s);
      NetworkRoundTrip(s.msglen);
    }
  }

  /** Behaviour stays defined, whatever the chunking, exactly when the bytes consumed are sound.
      In particular no read goes outside the message buffer and the assertion on the position
      holds in every reachable state. */
  lemma RunIsDefinedExactlyWhenSound<R>(cfg: Config<R>, rs: seq<Reply>)
    requires Possible(Resumable, cfg, Start<R>(), rs)
    ensures Run(Resumable, cfg, Start<R>(), rs).client.fault <==> !Sound(cfg, Consumed(rs))
  {
    StartIsGood(cfg);
    assert [] + Consumed(rs) == Consumed(rs);
    if Run(Resumable, cfg, Start<R>(), rs).client.fault {
      RunFaultsOnlyIfUnsound(cfg, Start<R>(), rs);
    } else {
      RunConserves(cfg, Start<R>(), rs);
      GoodIsSound(cfg, Run(Resumable, cfg, Start<R>(), rs));
    }
  }

  // ----- Progress and resynchronisation -----

  lemma RestOfBodyConsumes<R>(cfg: Config<R>, s: State<R>, body: Reply)
    requires Good(cfg, s) && s.complete && Fits(s, body) && Step(Resumable, cfg, s, body).1 == Again
    ensures var t := Step(Resumable, cfg, s, body).0;
            && Good(cfg, t) && !t.complete && t.position == 0
            && |DataOf(body)| == s.msglen - s.position >= 1
  {
    BodyStepShape(cfg, s, body);
    StepKeepsGood(cfg, s, body);
  }

  /** A turn of the loop that starts at a length field and goes round again takes the rest of that
      field and a whole body, at least one byte, and comes back to a frame boundary. */
  lemma TurnConsumes<R>(cfg: Config<R>, s: State<R>, field: Reply, body: Reply)
    requires Good(cfg, s) && !s.complete && Fits(s, field) && Step(Resumable, cfg, s, field).1 == Again
    requires var s1 := Step(Resumable, cfg, s, field).0; Fits(s1, body) && Step(Resumable, cfg, s1, body).1 == Again
    ensures var s1 := Step(Resumable, cfg, s, field).0;
            var s2 := Step(Resumable, cfg, s1, body).0;
            && Good(cfg, s1) && s1.complete && s1.position == 0
            && Good(cfg, s2) && !s2.complete && s2.position == 0
            && |DataOf(field)| == 4 - s.position && |DataOf(body)| == s1.msglen >= 1
  {
    var s1 := Step(Resumable, cfg, s, field).0;
    StepKeepsGood(cfg, s, field);
    RestOfBodyConsumes(cfg, s1, body);
  }

  /** So the reads of one call, from any state between calls, are bounded by the bytes they consume:
      five bytes for two reads, but for the turns that begin and end the call. */
  lemma {:induction false} ReadsAreBounded<R>(cfg: Config<R>, s: State<R>, rs: seq<Reply>, outcome: Outcome, done: bool)
    requires Good(cfg, s) && IsCall(Resumable, cfg, s, rs, outcome, done)
    ensures 5 * |rs| <= 2 * |Consumed(rs)| + 10 + if s.complete then 3 else 2 * s.position
    decreases |rs|
  {
    if |rs| > 2 {
      var s1 := Step(Resumable, cfg, s, rs[0]).0;
      if s.complete {
        RestOfBodyConsumes(cfg, s, rs[0]);
        ReadsAreBounded(cfg, s1, rs[1..], outcome, done);
      } else {
        assert rs[1..][0] == rs[1] && rs[1..][1..] == rs[2..];
        TurnConsumes(cfg, s, rs[0], rs[1]);
        ReadsAreBounded(cfg, Step(Resumable, cfg, s1, rs[1]).0, rs[2..], outcome, done);
        assert Consumed(rs) == DataOf(rs[0]) + (DataOf(rs[1]) + Consumed(rs[2..]));
      }
    }
  }

  /** Whatever way a whole frame leaves riak_read (decoded, server error, missing decoder,
      decoder failure), the reader is at a frame boundary, and later calls cut the later
      bytes into frames as a fresh operation would. */
  lemma LaterBytesParseAfresh<R>(cfg: Config<R>, s: State<R>, frame: seq<byte>, rs: seq<Reply>)
    requires Good(cfg, s) && WellFormed(frame)
    requires var t := Deliver(cfg, s, frame).0;
             && !t.client.fault && Possible(Resumable, cfg, t, rs)
             && !Run(Resumable, cfg, t, rs).client.fault
    ensures var t := Deliver(cfg, s, frame).0;
            && Run(Resumable, cfg, t, rs).frames == s.frames + [frame] + Parse(Consumed(rs)).frames
            && Held(cfg, t) == []
  {
    var t := Deliver(cfg, s, frame).0;
    DeliverKeepsGood(cfg, s, frame);
    RunConserves(cfg, t, rs);
    GoodIsDenoted(cfg, Run(Resumable, cfg, t, rs));
    EncodeThenParse(t.frames, Consumed(rs));
    assert Encode(t.frames) + [] == Encode(t.frames);
  }

  // ----- Server errors -----

  /** The errors that a list of frames reports, one for each error frame that is dispatched. */
  function ErrorsIn<R>(cfg: Config<R>, frames: seq<seq<byte>>): seq<ErrorMessage>
    requires AllWellFormed(frames)
  {
    if frames == [] then []
    else
      var last := frames[|frames| - 1];
      var before := ErrorsIn(cfg, frames[..|frames| - 1]);
      if cfg.decoder.None? || last[0] != 0 || cfg.unpackError(last[1..]).None? then before
      else before + [cfg.unpackError(last[1..]).value]
  }

  function TwiceEach<T>(xs: seq<T>): seq<T> {
    if xs == [] then [] else TwiceEach(xs[..|xs| - 1]) + [xs[|xs| - 1], xs[|xs| - 1]]
  }

  lemma TwiceEachAppend<T>(xs: seq<T>, x: T)
    ensures TwiceEach(xs + [x]) == TwiceEach(xs) + [x, x]
  {
    assert (xs + [x])[..|xs|] == xs;
  }

  /** Dispatch, way by way: without a decoder even an error frame is not looked at; an error frame, whose
      id is 0, clears the response and goes to the error callback, if there is one, twice; any other is
      the decoder's, whose response is kept whatever it returns, and goes to the response callback, if
      there is one, when it is complete. */
  lemma DispatchByWays<R>(cfg: Config<R>, c: Client<R>, frame: seq<byte>)
    requires WellFormed(frame)
    ensures var (c', st) := Handle(cfg, c, frame);
            && (cfg.decoder.None? ==> c' == c && st == Return(ReadError, true))
            && (cfg.decoder.Some? && frame[0] == 0 && cfg.unpackError(frame[1..]).Some? ==>
                  var e := cfg.unpackError(frame[1..]).value;
                  && st == Return(ServerError, true)
                  && c'.response == None && c'.fired == c.fired && c'.fault == c.fault
                  && (cfg.errorCb ==> c'.errors == c.errors + [e, e])
                  && (!cfg.errorCb ==> c'.errors == c.errors))
            && (cfg.decoder.Some? && frame[0] == 0 && cfg.unpackError(frame[1..]).None? ==> c'.fault)
            && (cfg.decoder.Some? && frame[0] != 0 ==>
                  var d := cfg.decoder.value(c.response, frame);
                  && c'.response == d.response && c'.errors == c.errors
                  && (d.status == Crashed ==> c'.fault && st == Return(Fault, true) && c'.fired == c.fired)
                  && (d.status == Rejected ==> st == Return(ReadError, d.done) && c'.fired == c.fired && c'.fault == c.fault)
                  && (d.status == Decoded && !d.done ==> st == Again && c'.fired == c.fired && c'.fault == c.fault)
                  && (d.status == Decoded && d.done ==>
                        && st == Return(Ok, true) && c'.fault == c.fault
                        && (cfg.responseCb ==> c'.fired == c.fired + [d.response])
                        && (!cfg.responseCb ==> c'.fired == c.fired)))
  {
  }

  /** The error callback, if there is one, runs twice for every error frame, once from the error decoder
      and once from riak_read, and otherwise nothing is called; no response survives an error. */
  lemma {:induction false} ErrorsAreReportedTwice<R>(cfg: Config<R>, frames: seq<seq<byte>>)
    requires AllWellFormed(frames)
    ensures HandleAll(cfg, frames).errors == if cfg.errorCb then TwiceEach(ErrorsIn(cfg, frames)) else []
    ensures frames != [] && cfg.decoder.Some? && frames[|frames| - 1][0] == 0
            && !HandleAll(cfg, frames).fault
        ==> HandleAll(cfg, frames).response == None
    decreases |frames|
  {
    if frames != [] {
      var init, last := frames[..|frames| - 1], frames[|frames| - 1];
      ErrorsAreReportedTwice(cfg, init);
      DispatchByWays(cfg, HandleAll(cfg, init), last);
      if cfg.decoder.Some? && last[0] == 0 && cfg.unpackError(last[1..]).Some? {
        TwiceEachAppend(ErrorsIn(cfg, init), cfg.unpackError(last[1..]).value);
      }
    }
  }

  /** The responses that a list of frames completes: the decoder has succeeded and asks for no more. */
  function AnswersIn<R>(cfg: Config<R>, frames: seq<seq<byte>>): seq<Option<R>>
    requires AllWellFormed(frames)
  {
    if frames == [] then []
    else
      var last := frames[|frames| - 1];
      var before := AnswersIn(cfg, frames[..|frames| - 1]);
      if cfg.decoder.None? || last[0] == 0 then before
      else
        var d := cfg.decoder.value(HandleAll(cfg, frames[..|frames| - 1]).response, last);
        if d.status == Decoded && d.done then before + [d.response] else before
  }

  /** The response callback, if there is one, gets each completed response, and nothing else. */
  lemma {:induction false} AnswersAreReported<R>(cfg: Config<R>, frames: seq<seq<byte>>)
    requires AllWellFormed(frames)
    ensures HandleAll(cfg, frames).fired == if cfg.responseCb then AnswersIn(cfg, frames) else []
    decreases |frames|
  {
    if frames != [] {
      AnswersAreReported(cfg, frames[..|frames| - 1]);
    }
  }

  /** The calls made over any run, for each of the four settings of the callbacks: a function of the bytes
      consumed, whatever the chunking. */
  lemma CallbackLog<R>(cfg: Config<R>, rs: seq<Reply>)
    requires Possible(Resumable, cfg, Start<R>(), rs)
    requires !Run(Resumable, cfg, Start<R>(), rs).client.fault
    ensures var c, frames := Run(Resumable, cfg, Start<R>(), rs).client, Parse(Consumed(rs)).frames;
            && c.fired == (if cfg.responseCb then AnswersIn(cfg, frames) else [])
            && c.errors == (if cfg.errorCb then TwiceEach(ErrorsIn(cfg, frames)) else [])
  {
    RunIsDenoted(cfg, rs);
    AnswersAreReported(cfg, Parse(Consumed(rs)).frames);
    ErrorsAreReportedTwice(cfg, Parse(Consumed(rs)).frames);
  }

  // ----- What a call's result says -----

  /** What one read reports, by the status it ends with. */
  ghost predicate Reports<R>(cfg: Config<R>, before: Client<R>, after: Client<R>, st: Status) {
    && after.fired == (if st == Return(Ok, true) && cfg.responseCb then before.fired + [after.response] else before.fired)
    && (if cfg.errorCb && st.Return? && st.outcome == ServerError
        then exists e :: after.errors == before.errors + [e, e]
        else after.errors == before.errors)
    && (st.Return? && st.outcome == ServerError ==> st.done && after.response == None)
    && (after.fault <==> st.Return? && st.outcome == Fault)
    && (after.fault ==> st.done)
  }

  lemma HandleReports<R>(cfg: Config<R>, c: Client<R>, frame: seq<byte>)
    requires WellFormed(frame) && !c.fault
    ensures var (c', st) := Handle(cfg, c, frame); Reports(cfg, c, c', st)
  {
  }

  lemma HeaderReports<R>(v: Variant, cfg: Config<R>, s: State<R>, r: Reply)
    requires Typed(s) && !s.client.fault && !s.complete && Fits(s, r)
    ensures var (t, st) := HeaderStep(v, cfg, s, r); Reports(cfg, s.client, t.client, st)
  {
  }

  lemma StepReports<R>(v: Variant, cfg: Config<R>, s: State<R>, r: Reply)
    requires Typed(s) && !s.client.fault && Fits(s, r)
    ensures var (t, st) := Step(v, cfg, s, r); Reports(cfg, s.client, t.client, st)
  {
    if !s.complete {
      HeaderReports(v, cfg, s, r);
    } else if s.position <= s.msglen {
      HandleReports(cfg, s.client, if r.Bytes? then Overlay(s.msgbuf, s.position, r.data) else s.msgbuf);
    }
  }

  /** Both variants, every state, every call: the response callback runs exactly once, with the
      response there is then, if the call returns OK and done, and otherwise not at all; the error
      callback runs twice exactly if the call returns a server error; behaviour has become undefined
      exactly if the result says so. */
  lemma {:induction false} CallReports<R>(v: Variant, cfg: Config<R>, s: State<R>, rs: seq<Reply>, outcome: Outcome, done: bool)
    requires IsCall(v, cfg, s, rs, outcome, done) && Possible(v, cfg, s, rs)
    ensures Reports(cfg, s.client, Run(v, cfg, s, rs).client, Return(outcome, done))
    decreases |rs|
  {
    StepReports(v, cfg, s, rs[0]);
    var s' := Step(v, cfg, s, rs[0]).0;
    if |rs| == 1 {
      assert rs[1..] == [];
    } else {
      CallReports(v, cfg, s', rs[1..], outcome, done);
    }
  }

  /** The last frame delivered, dispatched to the client of the frames before it, ended with this status. */
  ghost predicate EndedBy<R>(cfg: Config<R>, frames: seq<seq<byte>>, st: Status) {
    && frames != [] && AllWellFormed(frames)
    && var last := |frames| - 1;
    Handle(cfg, HandleAll(cfg, frames[..last]), frames[last]).1 == st
  }

  lemma DoneStepEndsFrame<R>(cfg: Config<R>, s: State<R>, r: Reply)
    requires Good(cfg, s) && Fits(s, r)
    requires var (t, st) := Step(Resumable, cfg, s, r); st.Return? && st.done && !t.client.fault
    ensures var (t, st) := Step(Resumable, cfg, s, r); EndedBy(cfg, t.frames, st)
  {
    BodyStepShape(cfg, s, r);
    var t := Step(Resumable, cfg, s, r).0;
    assert t.frames[..|t.frames| - 1] == s.frames;
  }

  /** A call that returns done returns what the dispatch of the last whole frame says. */
  lemma {:induction false} DoneCallEndsFrame<R>(cfg: Config<R>, s: State<R>, rs: seq<Reply>, outcome: Outcome)
    requires Good(cfg, s) && IsCall(Resumable, cfg, s, rs, outcome, true) && Possible(Resumable, cfg, s, rs)
    requires !Run(Resumable, cfg, s, rs).client.fault
    ensures EndedBy(cfg, Run(Resumable, cfg, s, rs).frames, Return(outcome, true))
    decreases |rs|
  {
    var s' := Step(Resumable, cfg, s, rs[0]).0;
    if |rs| == 1 {
      assert rs[1..] == [];
      DoneStepEndsFrame(cfg, s, rs[0]);
    } else {
      assert !s'.client.fault;
      StepKeepsGood(cfg, s, rs[0]);
      DoneCallEndsFrame(cfg, s', rs[1..], outcome);
    }
  }
}
