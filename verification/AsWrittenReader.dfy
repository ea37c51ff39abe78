/** Exactly when the reader as written is the resumable reader, and what happens otherwise. */
module AsWrittenReader {
  import opened Wire
  import opened Framing
  import opened Reader
  import opened ReaderProperties

  /** A read the code handles as its comments say: a length field is not continued in the
      middle, and a read of a message body does not fail. */
  predicate CleanStep<R>(s: State<R>, r: Reply) {
    if s.complete then r.Bytes?
    else s.position == 0 || r.Failed? || r.data == []
  }

  predicate Clean<R>(cfg: Config<R>, s: State<R>, rs: seq<Reply>)
    requires Possible(AsWritten, cfg, s, rs)
    decreases |rs|
  {
    rs == [] || (CleanStep(s, rs[0]) && Clean(cfg, Step(AsWritten, cfg, s, rs[0]).0, rs[1..]))
  }

  /** Past the end of its buffer either variant is undefined, whatever is read. */
  predicate Overrun<R>(s: State<R>) {
    s.complete && s.position > s.msglen
  }

  /** One read, in every state: the two variants do the same exactly when the read is clean, or
      the position is already past the buffer. */
  lemma StepsAgreeExactlyWhenClean<R>(cfg: Config<R>, s: State<R>, r: Reply)
    requires Typed(s) && Fits(s, r) && !s.client.fault
    ensures Step(AsWritten, cfg, s, r) == Step(Resumable, cfg, s, r) <==> CleanStep(s, r) || Overrun(s)
    ensures !CleanStep(s, r) && !Overrun(s) ==> Step(AsWritten, cfg, s, r).0 != Step(Resumable, cfg, s, r).0
  {
  }

  /** Simulation: along a clean run the code as written goes through exactly the states of the
      resumable reader, so everything proved of the latter's runs holds of these. */
  lemma {:induction false} CleanRunsAgree<R>(cfg: Config<R>, s: State<R>, rs: seq<Reply>)
    requires Good(cfg, s) && Possible(AsWritten, cfg, s, rs) && Clean(cfg, s, rs)
    ensures Possible(Resumable, cfg, s, rs)
    ensures Run(Resumable, cfg, s, rs) == Run(AsWritten, cfg, s, rs)
    decreases |rs|
  {
    if rs != [] {
      StepsAgreeExactlyWhenClean(cfg, s, rs[0]);
      var s' := Step(AsWritten, cfg, s, rs[0]).0;
      if !s'.client.fault {
        StepKeepsGood(cfg, s, rs[0]);
        CleanRunsAgree(cfg, s', rs[1..]);
      } else {
        assert rs[1..] == [];
      }
    }
  }

  lemma {:induction false} ConsumedConcatenates(rs: seq<Reply>, later: seq<Reply>)
    ensures Consumed(rs + later) == Consumed(rs) + Consumed(later)
    decreases |rs|
  {
    if rs == [] {
      assert rs + later == later;
    } else {
      assert (rs + later)[1..] == rs[1..] + later;
      ConsumedConcatenates(rs[1..], later);
    }
  }

  /** The first read of a run, taken off that run and off a longer one: the state it leads to, and
      whether it is clean. */
  lemma FirstRead<R>(cfg: Config<R>, s: State<R>, rs: seq<Reply>, later: seq<Reply>) returns (s': State<R>, clean: bool)
    requires rs != [] && Possible(AsWritten, cfg, s, rs)
    ensures Possible(AsWritten, cfg, s', rs[1..]) && Run(AsWritten, cfg, s, rs) == Run(AsWritten, cfg, s', rs[1..])
    ensures Clean(cfg, s, rs) <==> clean && Clean(cfg, s', rs[1..])
    ensures Possible(AsWritten, cfg, s', rs[1..] + later) ==>
              && Possible(AsWritten, cfg, s, rs + later)
              && Run(AsWritten, cfg, s, rs + later) == Run(AsWritten, cfg, s', rs[1..] + later)
              && (Clean(cfg, s, rs + later) <==> clean && Clean(cfg, s', rs[1..] + later))
  {
    s', clean := Step(AsWritten, cfg, s, rs[0]).0, CleanStep(s, rs[0]);
    assert (rs + later)[0] == rs[0] && (rs + later)[1..] == rs[1..] + later;
  }

  /** Calls of riak_read follow one another: the runs of successive calls make one run, which is
      clean exactly if they are. */
  lemma {:induction false} RunsConcatenate<R>(cfg: Config<R>, s: State<R>, rs: seq<Reply>, later: seq<Reply>)
    requires Possible(AsWritten, cfg, s, rs) && Possible(AsWritten, cfg, Run(AsWritten, cfg, s, rs), later)
    ensures Possible(AsWritten, cfg, s, rs + later)
    ensures Run(AsWritten, cfg, s, rs + later) == Run(AsWritten, cfg, Run(AsWritten, cfg, s, rs), later)
    ensures Clean(cfg, s, rs + later) <==> Clean(cfg, s, rs) && Clean(cfg, Run(AsWritten, cfg, s, rs), later)
    ensures Consumed(rs + later) == Consumed(rs) + Consumed(later)
    decreases |rs|
  {
    ConsumedConcatenates(rs, later);
    if rs == [] {
      assert rs + later == later;
    } else {
      var s', clean := FirstRead(cfg, s, rs, later);
      RunsConcatenate(cfg, s', rs[1..], later);
    }
  }

  /** The first k reads are clean and lead to the same state in both variants; the next one does not. */
  ghost predicate PartAt<R>(cfg: Config<R>, s: State<R>, rs: seq<Reply>, k: nat) {
    && k < |rs| && Possible(AsWritten, cfg, s, rs[..k]) && Clean(cfg, s, rs[..k])
    && var t := Run(AsWritten, cfg, s, rs[..k]);
    && Good(cfg, t) && Fits(t, rs[k])
    && Possible(Resumable, cfg, s, rs[..k]) && t == Run(Resumable, cfg, s, rs[..k])
    && Step(AsWritten, cfg, t, rs[k]).0 != Step(Resumable, cfg, t, rs[k]).0
  }

  lemma PartLater<R>(cfg: Config<R>, s: State<R>, rs: seq<Reply>, j: nat)
    requires Good(cfg, s) && rs != [] && Fits(s, rs[0]) && CleanStep(s, rs[0])
    requires PartAt(cfg, Step(AsWritten, cfg, s, rs[0]).0, rs[1..], j)
    ensures PartAt(cfg, s, rs, j + 1)
  {
    StepsAgreeExactlyWhenClean(cfg, s, rs[0]);
    assert rs[..j + 1][0] == rs[0] && rs[..j + 1][1..] == rs[1..][..j];
  }

  /** And a run that is not clean leaves those states: some clean prefix is followed by a read
      after which the two variants, equal until then, differ. */
  lemma {:induction false} UncleanRunsDiverge<R>(cfg: Config<R>, s: State<R>, rs: seq<Reply>) returns (k: nat)
    requires Good(cfg, s) && Possible(AsWritten, cfg, s, rs) && !Clean(cfg, s, rs)
    ensures PartAt(cfg, s, rs, k)
    decreases |rs|
  {
    StepsAgreeExactlyWhenClean(cfg, s, rs[0]);
    if CleanStep(s, rs[0]) {
      assert rs[1..] != [];
      StepKeepsGood(cfg, s, rs[0]);
      var j := UncleanRunsDiverge(cfg, Step(AsWritten, cfg, s, rs[0]).0, rs[1..]);
      PartLater(cfg, s, rs, j);
      k := j + 1;
    } else {
      k := 0;
    }
  }

  /** The code as written, on clean runs from a fresh operation: its state is the one denoted
      by the bytes consumed, whatever the chunking and the split into calls. */
  lemma CleanRunIsDenoted<R>(cfg: Config<R>, rs: seq<Reply>)
    requires Possible(AsWritten, cfg, Start<R>(), rs) && Clean(cfg, Start<R>(), rs)
    requires !Run(AsWritten, cfg, Start<R>(), rs).client.fault
    ensures Run(AsWritten, cfg, Start<R>(), rs) == Denote(cfg, Consumed(rs))
    ensures Run(AsWritten, cfg, Start<R>(), rs).frames == Parse(Consumed(rs)).frames
    ensures Good(cfg, Run(AsWritten, cfg, Start<R>(), rs))
  {
    StartIsGood(cfg);
    CleanRunsAgree(cfg, Start<R>(), rs);
    RunIsDenoted(cfg, rs);
  }

  lemma SplitLengthState<R>(cfg: Config<R>, s: State<R>, head: seq<byte>, tail: seq<byte>)
    requires Good(cfg, s) && !s.complete && s.position == 0
    requires 1 <= |head| <= 3 && |head| + |tail| == 4 && FromNetwork(head + tail) >= 1
    ensures var n := FromNetwork(head + tail);
            var s1 := Step(AsWritten, cfg, s, Bytes(head)).0;
            && s1 == s.(position := |head|, msglen := s1.msglen) && Typed(s1)
            && Step(AsWritten, cfg, s1, Bytes(tail)).0
               == s.(position := |head|, msglen := n, complete := true, msgbuf := FreshBuffer(cfg, |s.frames|, n))
  {
    var mem := Memory(cfg.order, s.msglen);
    var raw1 := Overlay(mem, 0, head);
    var raw2 := Overlay(raw1, |head|, tail);
    assert raw2 == head + tail;
    WordRoundTrip(cfg.order, raw1);
    HostOrderIsInvisible(cfg.order, raw2, 0);
  }

  lemma ShiftedBody<R>(cfg: Config<R>, s2: State<R>, p: nat, body: seq<byte>)
    requires Typed(s2) && s2.complete && s2.position == p <= 3
    requires |body| == if s2.msglen >= p then s2.msglen - p else 0
    ensures var (s3, st) := BodyStep(AsWritten, cfg, s2, Bytes(body));
            if s2.msglen < p then st == Return(Fault, true)
            else s3.frames == s2.frames + [s2.msgbuf[..p] + body]
  {
    if s2.msglen >= p {
      assert Overlay(s2.msgbuf, p, body) == s2.msgbuf[..p] + body;
    }
  }

  /** What a split length field does, for every split and every message: the code keeps the
      number p of bytes in the first piece as its place in the body, so the frame it delivers
      starts with p bytes of uninitialised memory and the last p bytes of the body stay unread;
      a body shorter than p makes it overrun. */
  lemma SplitLengthShiftsTheFrame<R>(cfg: Config<R>, s: State<R>, head: seq<byte>, tail: seq<byte>, body: seq<byte>)
    requires Good(cfg, s) && !s.complete && s.position == 0
    requires 1 <= |head| <= 3 && |head| + |tail| == 4
    requires var n := FromNetwork(head + tail); 1 <= n && |body| == if n >= |head| then n - |head| else 0
    ensures var n := FromNetwork(head + tail);
            var s1 := Step(AsWritten, cfg, s, Bytes(head)).0;
            && Typed(s1) && Fits(s1, Bytes(tail))
            && var s2 := Step(AsWritten, cfg, s1, Bytes(tail)).0;
            && Typed(s2) && Fits(s2, Bytes(body))
            && var (s3, st) := Step(AsWritten, cfg, s2, Bytes(body));
            if n < |head| then st == Return(Fault, true)
            else s3.frames == s.frames + [FreshBuffer(cfg, |s.frames|, n)[..|head|] + body]
  {
    SplitLengthState(cfg, s, head, tail);
    var n := FromNetwork(head + tail);
    var s2 := s.(position := |head|, msglen := n, complete := true, msgbuf := FreshBuffer(cfg, |s.frames|, n));
    ShiftedBody(cfg, s2, |head|, body);
  }

  /** A length field that arrives in pieces, the first of them stored at `at`: the code stores each at the
      length of the one before it, empty ones apart, and takes the field for whole when a piece fills the
      four bytes from there. */
  predicate FillsField(at: nat, pieces: seq<seq<byte>>)
    decreases |pieces|
  {
    && pieces != [] && at <= 3
    && if |pieces| == 1 then at + |pieces[0]| == 4
       else at + |pieces[0]| < 4 && FillsField(if pieces[0] == [] then at else |pieces[0]|, pieces[1..])
  }

  /** Where the last piece is stored: at the length of the last but one that is not empty. */
  function LastPlace(at: nat, pieces: seq<seq<byte>>): (p: nat)
    requires FillsField(at, pieces)
    ensures p <= 3
    decreases |pieces|
  {
    if |pieces| == 1 then at else LastPlace(if pieces[0] == [] then at else |pieces[0]|, pieces[1..])
  }

  /** The four bytes that the pieces leave. */
  function Overlaid(field: seq<byte>, at: nat, pieces: seq<seq<byte>>): (r: seq<byte>)
    requires |field| == 4 && FillsField(at, pieces)
    ensures |r| == 4
    decreases |pieces|
  {
    var next := Overlay(field, at, pieces[0]);
    if |pieces| == 1 then next else Overlaid(next, if pieces[0] == [] then at else |pieces[0]|, pieces[1..])
  }

  function AsReplies(pieces: seq<seq<byte>>): (rs: seq<Reply>)
    ensures |rs| == |pieces| && forall i :: 0 <= i < |rs| ==> rs[i] == Bytes(pieces[i])
  {
    seq(|pieces|, i requires 0 <= i < |pieces| => Bytes(pieces[i]))
  }

  lemma PieceOfLength<R>(cfg: Config<R>, s: State<R>, piece: seq<byte>)
    requires Typed(s) && !s.complete && s.position + |piece| < 4
    ensures var (t, st) := Step(AsWritten, cfg, s, Bytes(piece));
            && st == Return(Ok, false) && Typed(t) && !t.complete && t.client == s.client && t.frames == s.frames
            && t.position == (if piece == [] then s.position else |piece|)
            && Memory(cfg.order, t.msglen) == Overlay(Memory(cfg.order, s.msglen), s.position, piece)
  {
    var raw := Overlay(Memory(cfg.order, s.msglen), s.position, piece);
    WordRoundTrip(cfg.order, raw);
    if piece == [] {
      assert raw == Memory(cfg.order, s.msglen);
    }
  }

  lemma LastPieceOfLength<R>(cfg: Config<R>, s: State<R>, piece: seq<byte>)
    requires Typed(s) && !s.client.fault && !s.complete && s.position + |piece| == 4
    ensures var n := FromNetwork(Overlay(Memory(cfg.order, s.msglen), s.position, piece));
            var (t, st) := Step(AsWritten, cfg, s, Bytes(piece));
            && t == s.(msglen := n, complete := true, msgbuf := FreshBuffer(cfg, |s.frames|, n),
                       client := s.client.(fault := n == 0))
            && st == if n == 0 then Return(Fault, true) else Again
  {
    HostOrderIsInvisible(cfg.order, Overlay(Memory(cfg.order, s.msglen), s.position, piece), 0);
  }

  /** Any number of pieces, for the code as written: the announced length is the network value of the
      bytes as they were laid over each other, and the body goes behind as many uninitialised bytes as
      the last piece but one was long. */
  lemma {:induction false} SplitLengthInPieces<R>(cfg: Config<R>, s: State<R>, pieces: seq<seq<byte>>)
    requires Typed(s) && !s.client.fault && !s.complete && FillsField(s.position, pieces)
    ensures Possible(AsWritten, cfg, s, AsReplies(pieces))
    ensures var n := FromNetwork(Overlaid(Memory(cfg.order, s.msglen), s.position, pieces));
            Run(AsWritten, cfg, s, AsReplies(pieces)) ==
              State(LastPlace(s.position, pieces), n, FreshBuffer(cfg, |s.frames|, n), true, s.frames,
                    s.client.(fault := n == 0))
    decreases |pieces|
  {
    var rs := AsReplies(pieces);
    if |pieces| == 1 {
      LastPieceOfLength(cfg, s, pieces[0]);
      assert rs[1..] == [];
    } else {
      PieceOfLength(cfg, s, pieces[0]);
      assert rs[1..] == AsReplies(pieces[1..]);
      SplitLengthInPieces(cfg, Step(AsWritten, cfg, s, rs[0]).0, pieces[1..]);
    }
  }

  /** So from a frame boundary: the frame delivered next. */
  lemma FrameAfterPieces<R>(cfg: Config<R>, s: State<R>, pieces: seq<seq<byte>>, body: seq<byte>)
    requires Typed(s) && !s.client.fault && !s.complete && FillsField(s.position, pieces)
    requires var n, p := FromNetwork(Overlaid(Memory(cfg.order, s.msglen), s.position, pieces)), LastPlace(s.position, pieces);
             1 <= n && |body| == if n >= p then n - p else 0
    ensures var n, p := FromNetwork(Overlaid(Memory(cfg.order, s.msglen), s.position, pieces)), LastPlace(s.position, pieces);
            && Possible(AsWritten, cfg, s, AsReplies(pieces))
            && var t := Run(AsWritten, cfg, s, AsReplies(pieces));
            && Typed(t) && Fits(t, Bytes(body))
            && var (u, st) := Step(AsWritten, cfg, t, Bytes(body));
            if n < p then st == Return(Fault, true)
            else u.frames == s.frames + [FreshBuffer(cfg, |s.frames|, n)[..p] + body]
  {
    SplitLengthInPieces(cfg, s, pieces);
    ShiftedBody(cfg, Run(AsWritten, cfg, s, AsReplies(pieces)), LastPlace(s.position, pieces), body);
  }

  /** A failed read of a length field is an error and changes nothing, in both variants; so is one of a
      body in the resumable reader. */
  lemma FailedReadChangesNothing<R>(v: Variant, cfg: Config<R>, s: State<R>)
    requires Typed(s) && (s.complete ==> v == Resumable && s.position <= s.msglen)
    ensures Step(v, cfg, s, Failed) == (s, Return(ReadError, false))
  {
  }

  lemma {:induction false} FramesGrow<R>(v: Variant, cfg: Config<R>, s: State<R>, rs: seq<Reply>)
    requires Possible(v, cfg, s, rs)
    ensures s.frames <= Run(v, cfg, s, rs).frames
    decreases |rs|
  {
    if rs != [] {
      FramesGrow(v, cfg, Step(v, cfg, s, rs[0]).0, rs[1..]);
    }
  }

  /** Part of a length field has been read, or the first byte of the body's buffer will stay as malloc left it. */
  predicate Poisoned<R>(cfg: Config<R>, s: State<R>) {
    && Typed(s) && s.position >= 1
    && (s.complete ==> s.msgbuf[0] == cfg.junk(|s.frames|, 0))
  }

  lemma PoisonStays<R>(cfg: Config<R>, s: State<R>, r: Reply)
    requires Poisoned(cfg, s) && Fits(s, r) && r.Bytes?
    ensures var t := Step(AsWritten, cfg, s, r).0;
            if t.frames == s.frames then t.client.fault || Poisoned(cfg, t)
            else |t.frames| == |s.frames| + 1 && |t.frames[|s.frames|]| >= 1
                 && t.frames[|s.frames|][0] == cfg.junk(|s.frames|, 0)
  {
  }

  /** From every state with part of a length field, over every run in which no read fails: the next
      frame the code delivers, however its bytes arrive, starts with a byte that was never received. */
  lemma {:induction false} SplitLengthPoisonsTheFrame<R>(cfg: Config<R>, s: State<R>, rs: seq<Reply>)
    requires Poisoned(cfg, s) && Possible(AsWritten, cfg, s, rs)
    requires forall i :: 0 <= i < |rs| ==> rs[i].Bytes?
    requires |Run(AsWritten, cfg, s, rs).frames| > |s.frames|
    ensures var f := Run(AsWritten, cfg, s, rs).frames[|s.frames|]; f != [] && f[0] == cfg.junk(|s.frames|, 0)
    decreases |rs|
  {
    PoisonStays(cfg, s, rs[0]);
    var s' := Step(AsWritten, cfg, s, rs[0]).0;
    if s'.frames == s.frames {
      if !s'.client.fault {
        SplitLengthPoisonsTheFrame(cfg, s', rs[1..]);
      }
    } else {
      FramesGrow(AsWritten, cfg, s', rs[1..]);
    }
  }

  /** A failed read inside a begun body steps the position back by one and passes for a short one:
      the byte received last is lost, and one byte too many is taken from what follows in its place. */
  lemma FailedBodyReadForgetsAByte<R>(cfg: Config<R>, s: State<R>, data: seq<byte>)
    requires Typed(s) && !s.client.fault && s.complete && 0 < s.position <= s.msglen
    requires |data| == s.msglen - s.position + 1
    ensures var (t, st) := Step(AsWritten, cfg, s, Failed);
            && st == Return(Ok, false) && Typed(t) && Fits(t, Bytes(data))
            && Step(AsWritten, cfg, t, Bytes(data)).0.frames == s.frames + [s.msgbuf[..s.position - 1] + data]
  {
    var t := s.(position := s.position - 1);
    assert Overlay(t.msgbuf, t.position, data) == s.msgbuf[..s.position - 1] + data;
  }

  /** Where the body has not been begun, a failed read trips the assertion on the position, except
      for the longest body: that one is delivered without a byte of it having been read. */
  lemma FailedFirstBodyRead<R>(cfg: Config<R>, s: State<R>)
    requires Typed(s) && !s.client.fault && s.complete && s.position == 0
    ensures var (t, st) := Step(AsWritten, cfg, s, Failed);
            if s.msglen == TWO_TO_THE_32 - 1 then t.frames == s.frames + [s.msgbuf]
            else t.frames == s.frames && t.client.fault && st == Return(Fault, true)
  {
  }
}
