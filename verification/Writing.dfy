/** riak_write, the frames it emits, and the two directions together. */
module Writing {
  import opened Wire
  import opened Framing
  import opened Reader
  import opened ReaderProperties
  import opened AsWrittenReader

  datatype WriteOutcome = WriteOk | WriteError

  /** The length announced for a body: id byte included, in a 32-bit field. */
  function LengthField(len: nat): (n: nat)
    requires len < TWO_TO_THE_32
    ensures n < TWO_TO_THE_32
  {
    if len + 1 == TWO_TO_THE_32 then 0 else len + 1
  }

  /** It is the sum as a 32-bit unsigned field holds it. */
  lemma LengthFieldIsUnsignedAddition(len: nat)
    requires len < TWO_TO_THE_32
    ensures LengthField(len) == (len + 1) % TWO_TO_THE_32
  {
  }

  /** What riak_write hands to the write callback, in order. */
  function Parts(reqid: byte, body: seq<byte>): (ps: seq<seq<byte>>)
    requires |body| < TWO_TO_THE_32
    ensures forall i :: 0 <= i < |ps| ==> ps[i] != []
  {
    [ToNetwork(LengthField(|body|)), [reqid]] + if body == [] then [] else [body]
  }

  /** The bytes that go out when the callback returns `ns`. */
  function Accepted(ps: seq<seq<byte>>, ns: seq<int>): (bs: seq<byte>)
    requires |ns| <= |ps| && forall i :: 0 <= i < |ns| ==> -1 <= ns[i] <= |ps[i]|
    decreases |ns|
  {
    if ns == [] then []
    else
      var last := |ns| - 1;
      Accepted(ps, ns[..last]) + ps[last][..Max(0, ns[last])]
  }

  /** The callback's results in one riak_write: it stops at the first zero and only there. */
  predicate IsWrite(ps: seq<seq<byte>>, ns: seq<int>, outcome: WriteOutcome) {
    && |ns| <= |ps|
    && (forall i :: 0 <= i < |ns| ==> -1 <= ns[i] <= |ps[i]|)
    && (forall i :: 0 <= i < |ns| - 1 ==> ns[i] != 0)
    && ns != []
    && if outcome == WriteOk then |ns| == |ps| && ns[|ns| - 1] != 0 else ns[|ns| - 1] == 0
  }

  /** Every part so far was taken, if perhaps not whole. */
  predicate InProgress(ps: seq<seq<byte>>, ns: seq<int>) {
    && |ns| <= |ps|
    && (forall i :: 0 <= i < |ns| ==> -1 <= ns[i] <= |ps[i]|)
    && (forall i :: 0 <= i < |ns| ==> ns[i] != 0)
  }

  predicate WholeOrNone(ps: seq<seq<byte>>, ns: seq<int>) {
    |ns| <= |ps| && forall i :: 0 <= i < |ns| ==> ns[i] == 0 || ns[i] == |ps[i]|
  }

  /** The sending end of a connection behind a write callback: the libevent one queues all of its
      data or none of it, while write(2) may take part of it or fail with -1. */
  class Output {
    const allOrNothing: bool
    var sent: seq<byte>

    constructor (allOrNothing: bool)
      ensures this.allOrNothing == allOrNothing && sent == []
    {
      this.allOrNothing, sent := allOrNothing, [];
    }

    method Put(data: seq<byte>) returns (n: int)
      modifies this
      ensures -1 <= n <= |data|
      ensures allOrNothing ==> n == 0 || n == |data|
      ensures sent == old(sent) + data[..Max(0, n)]
    {
      n :| -1 <= n <= |data| && (allOrNothing ==> n == 0 || n == |data|);
      sent := sent + data[..Max(0, n)];
    }
  }

  lemma AcceptedAppend(ps: seq<seq<byte>>, ns: seq<int>, n: int)
    requires |ns| < |ps| && (forall i :: 0 <= i < |ns| ==> -1 <= ns[i] <= |ps[i]|) && -1 <= n <= |ps[|ns|]|
    ensures Accepted(ps, ns + [n]) == Accepted(ps, ns) + ps[|ns|][..Max(0, n)]
  {
    assert (ns + [n])[..|ns|] == ns;
  }

  /** One call of the write callback, for the next of the parts `ps`. */
  method PutPart(out: Output, data: seq<byte>, ghost ps: seq<seq<byte>>, ghost ns0: seq<int>)
    returns (wrote: int, ghost ns: seq<int>)
    requires InProgress(ps, ns0) && |ns0| < |ps| && data == ps[|ns0|]
    requires out.allOrNothing ==> WholeOrNone(ps, ns0)
    modifies out
    ensures |ns| == |ns0| + 1 <= |ps|
    ensures if wrote == 0 then IsWrite(ps, ns, WriteError) else InProgress(ps, ns)
    ensures out.allOrNothing ==> WholeOrNone(ps, ns)
    ensures forall sent: seq<byte> ::
      old(out.sent) == sent + Accepted(ps, ns0) ==> out.sent == sent + Accepted(ps, ns)
  {
    wrote := out.Put(data);
    ns := ns0 + [wrote];
    AcceptedAppend(ps, ns0, wrote);
  }

  /** riak_write, on a host of either byte order. */
  method Write(out: Output, order: ByteOrder, reqid: byte, msgbuf: seq<byte>)
    returns (outcome: WriteOutcome, ghost ns: seq<int>)
    requires |msgbuf| < TWO_TO_THE_32
    modifies out
    ensures IsWrite(Parts(reqid, msgbuf), ns, outcome)
    ensures out.sent == old(out.sent) + Accepted(Parts(reqid, msgbuf), ns)
    ensures out.allOrNothing ==> WholeOrNone(Parts(reqid, msgbuf), ns)
  {
    ghost var ps := Parts(reqid, msgbuf);
    var msglen := Htonl(order, LengthField(|msgbuf|));
    HostOrderIsInvisible(order, [0, 0, 0, 0], LengthField(|msgbuf|));
    var wrote;
    wrote, ns := PutPart(out, Memory(order, msglen), ps, []);
    if wrote == 0 {
      return WriteError, ns;
    }
    wrote, ns := PutPart(out, [reqid], ps, ns);
    if wrote == 0 {
      return WriteError, ns;
    }
    if |msgbuf| > 0 {
      wrote, ns := PutPart(out, msgbuf, ps, ns);
      if wrote == 0 {
        return WriteError, ns;
      }
    }
    return WriteOk, ns;
  }

  /** How many bytes go out. */
  function Total(ns: seq<int>): int {
    if ns == [] then 0 else Total(ns[..|ns| - 1]) + Max(0, ns[|ns| - 1])
  }

  lemma {:induction false} AcceptedLength(ps: seq<seq<byte>>, ns: seq<int>)
    requires |ns| <= |ps| && forall i :: 0 <= i < |ns| ==> -1 <= ns[i] <= |ps[i]|
    ensures |Accepted(ps, ns)| == Total(ns)
    decreases |ns|
  {
    if ns != [] {
      AcceptedLength(ps, ns[..|ns| - 1]);
    }
  }

  lemma {:induction false} AcceptedInFull(ps: seq<seq<byte>>, ns: seq<int>)
    requires |ns| <= |ps| && (forall i :: 0 <= i < |ns| ==> -1 <= ns[i] <= |ps[i]|)
    ensures Total(ns) <= |Concat(ps[..|ns|])|
    ensures Total(ns) == |Concat(ps[..|ns|])| <==> forall i :: 0 <= i < |ns| ==> Max(0, ns[i]) == |ps[i]|
    ensures Total(ns) == |Concat(ps[..|ns|])| ==> Accepted(ps, ns) == Concat(ps[..|ns|])
    decreases |ns|
  {
    if ns != [] {
      var last := |ns| - 1;
      AcceptedInFull(ps, ns[..last]);
      assert ps[..|ns|][..last] == ps[..last];
      assert forall i :: 0 <= i < last ==> ns[..last][i] == ns[i];
      if Total(ns) == |Concat(ps[..|ns|])| {
        assert ps[last][..Max(0, ns[last])] == ps[last];
      }
    }
  }

  lemma ConcatOne<T>(chunk: seq<T>)
    ensures Concat([chunk]) == chunk
  {
    assert [chunk][..0] == [];
  }

  lemma PartsAreTheFrame(reqid: byte, body: seq<byte>)
    requires |body| + 1 < TWO_TO_THE_32
    ensures Concat(Parts(reqid, body)) == EncodeFrame([reqid] + body)
  {
    var head := ToNetwork(|body| + 1);
    assert Parts(reqid, body) == [head, [reqid]] + if body == [] then [] else [body];
    ConcatSplit([head, [reqid]], if body == [] then [] else [body]);
    ConcatSplit([head], [[reqid]]);
    assert [head, [reqid]] == [head] + [[reqid]];
    ConcatOne(head);
    ConcatOne([reqid]);
    ConcatOne(body);
  }

  /** riak_write checks only for zero: when it returns OK, the frame of the message has gone out
      exactly if its length fits the 32-bit field and the callback took each part whole. */
  lemma FrameGoesOutExactlyWhen(reqid: byte, body: seq<byte>, ns: seq<int>)
    requires |body| < TWO_TO_THE_32 && IsWrite(Parts(reqid, body), ns, WriteOk)
    ensures |body| + 1 < TWO_TO_THE_32 && Accepted(Parts(reqid, body), ns) == EncodeFrame([reqid] + body)
       <==> |body| + 1 < TWO_TO_THE_32 && forall i :: 0 <= i < |ns| ==> ns[i] == |Parts(reqid, body)[i]|
  {
    var ps := Parts(reqid, body);
    assert ps[..|ns|] == ps;
    if |body| + 1 < TWO_TO_THE_32 {
      PartsAreTheFrame(reqid, body);
      AcceptedInFull(ps, ns);
      AcceptedLength(ps, ns);
    }
  }

  /** The three parts: four bytes of length, one of id, and the body unless it is empty. */
  lemma PartsAre(reqid: byte, body: seq<byte>)
    requires |body| < TWO_TO_THE_32
    ensures var ps := Parts(reqid, body);
            && |ps| == (if body == [] then 2 else 3)
            && |ps[0]| == 4 && ps[1] == [reqid] && (body != [] ==> ps[2] == body)
            && (|body| + 1 < TWO_TO_THE_32 ==> FromNetwork(ps[0]) == |body| + 1)
  {
    NetworkRoundTrip(LengthField(|body|));
  }

  lemma {:induction false} FailingWritesSendNothing(ps: seq<seq<byte>>, n: nat)
    requires n <= |ps|
    ensures Accepted(ps, seq(n, i => -1)) == []
    decreases n
  {
    if n > 0 {
      assert seq(n, i => -1)[..n - 1] == seq(n - 1, i => -1);
      FailingWritesSendNothing(ps, n - 1);
    }
  }

  /** riak_write fails exactly if the callback returns zero, and at the first zero; a callback that fails
      with -1 every time makes it succeed with nothing sent. */
  lemma OnlyZeroFails(reqid: byte, body: seq<byte>, ns: seq<int>, outcome: WriteOutcome)
    requires |body| < TWO_TO_THE_32
    ensures IsWrite(Parts(reqid, body), ns, outcome) ==>
              && (outcome == WriteError <==> 0 in ns)
              && (outcome == WriteError ==> ns[|ns| - 1] == 0 && 0 !in ns[..|ns| - 1])
              && (outcome == WriteOk ==> |ns| == |Parts(reqid, body)|)
    ensures var all := seq(|Parts(reqid, body)|, i => -1);
            IsWrite(Parts(reqid, body), all, WriteOk) && Accepted(Parts(reqid, body), all) == []
  {
    if IsWrite(Parts(reqid, body), ns, outcome) {
      assert forall i :: 0 <= i < |ns| - 1 ==> ns[..|ns| - 1][i] == ns[i];
    }
    FailingWritesSendNothing(Parts(reqid, body), |Parts(reqid, body)|);
  }

  /** Through the libevent callback, which queues whole parts or none, OK means that the frame of any
      message that fits has gone out. */
  lemma QueuedMeansWhole(reqid: byte, body: seq<byte>, ns: seq<int>)
    requires |body| + 1 < TWO_TO_THE_32 && IsWrite(Parts(reqid, body), ns, WriteOk)
    requires WholeOrNone(Parts(reqid, body), ns)
    ensures Accepted(Parts(reqid, body), ns) == EncodeFrame([reqid] + body)
  {
    FrameGoesOutExactlyWhen(reqid, body, ns);
  }

  /** The one length that does not fit: the field says zero. */
  lemma LongestBodyIsAnnouncedAsEmpty(reqid: byte, body: seq<byte>)
    requires |body| == TWO_TO_THE_32 - 1
    ensures Parts(reqid, body)[0] == [0, 0, 0, 0]
  {
  }

  /** A request or response: its id and the rest of its frame. */
  datatype Message = Message(id: byte, body: seq<byte>)

  predicate Fitting(m: Message) {
    |m.body| + 1 < TWO_TO_THE_32
  }

  function FrameOf(m: Message): (f: seq<byte>)
    requires Fitting(m)
    ensures WellFormed(f)
  {
    [m.id] + m.body
  }

  function FramesOf(ms: seq<Message>): (fs: seq<seq<byte>>)
    requires forall i :: 0 <= i < |ms| ==> Fitting(ms[i])
    ensures |fs| == |ms| && AllWellFormed(fs)
    ensures forall i :: 0 <= i < |ms| ==> fs[i] == FrameOf(ms[i])
  {
    seq(|ms|, i requires 0 <= i < |ms| => FrameOf(ms[i]))
  }

  /** What whole writes of each message send, one after the other. */
  function Written(ms: seq<Message>): (bs: seq<byte>)
    requires forall i :: 0 <= i < |ms| ==> Fitting(ms[i])
  {
    if ms == [] then []
    else
      var last := ms[|ms| - 1];
      assert Fitting(last);
      Written(ms[..|ms| - 1]) + Concat(Parts(last.id, last.body))
  }

  lemma {:induction false} WrittenIsEncoded(ms: seq<Message>)
    requires forall i :: 0 <= i < |ms| ==> Fitting(ms[i])
    ensures Written(ms) == Encode(FramesOf(ms))
    decreases |ms|
  {
    if ms != [] {
      var init, last := ms[..|ms| - 1], ms[|ms| - 1];
      WrittenIsEncoded(init);
      PartsAreTheFrame(last.id, last.body);
      assert FramesOf(ms) == FramesOf(init) + [FrameOf(last)];
      EncodeAppend(FramesOf(init), FrameOf(last));
    }
  }

  /** The reader has handed on exactly these messages, in order, and nothing is left over. */
  predicate HasRead<R>(ms: seq<Message>, t: State<R>)
    requires forall i :: 0 <= i < |ms| ==> Fitting(ms[i])
  {
    t.frames == FramesOf(ms) && Typed(t) && !t.complete && t.position == 0
  }

  /** Framing round trip: feed what riak_write sent for any list of messages to the resumable reader,
      in any chunking and any split into calls; exactly that list is handed on. */
  lemma WhatIsWrittenIsRead<R>(cfg: Config<R>, ms: seq<Message>, rs: seq<Reply>)
    requires forall i :: 0 <= i < |ms| ==> Fitting(ms[i])
    requires Possible(Resumable, cfg, Start<R>(), rs) && Consumed(rs) == Written(ms)
    requires !Run(Resumable, cfg, Start<R>(), rs).client.fault
    ensures HasRead(ms, Run(Resumable, cfg, Start<R>(), rs))
  {
    RunIsDenoted(cfg, rs);
    WrittenIsEncoded(ms);
    EncodeThenParse(FramesOf(ms), []);
    assert Encode(FramesOf(ms)) + [] == Written(ms);
    assert FramesOf(ms) + [] == FramesOf(ms);
  }

  /** The same of the reader as written, in any chunking that does not split a length field. */
  lemma CleanWritingIsRead<R>(cfg: Config<R>, ms: seq<Message>, rs: seq<Reply>)
    requires forall i :: 0 <= i < |ms| ==> Fitting(ms[i])
    requires Possible(AsWritten, cfg, Start<R>(), rs) && Clean(cfg, Start<R>(), rs) && Consumed(rs) == Written(ms)
    requires !Run(AsWritten, cfg, Start<R>(), rs).client.fault
    ensures HasRead(ms, Run(AsWritten, cfg, Start<R>(), rs))
  {
    StartIsGood(cfg);
    CleanRunsAgree(cfg, Start<R>(), rs);
    WhatIsWrittenIsRead(cfg, ms, rs);
  }

  /** A list of messages is determined by the bytes written for it. */
  lemma WritingIsInjective(ms: seq<Message>, ms': seq<Message>)
    requires forall i :: 0 <= i < |ms| ==> Fitting(ms[i])
    requires forall i :: 0 <= i < |ms'| ==> Fitting(ms'[i])
    requires Written(ms) == Written(ms')
    ensures ms == ms'
  {
    WrittenIsEncoded(ms);
    WrittenIsEncoded(ms');
    EncodeThenParse(FramesOf(ms), []);
    EncodeThenParse(FramesOf(ms'), []);
    assert Encode(FramesOf(ms)) + [] == Encode(FramesOf(ms')) + [];
    assert FramesOf(ms) + [] == FramesOf(ms) && FramesOf(ms') + [] == FramesOf(ms');
    forall i | 0 <= i < |ms| ensures ms[i] == ms'[i] {
      assert FramesOf(ms)[i] == FramesOf(ms')[i];
      assert FrameOf(ms[i])[1..] == ms[i].body && FrameOf(ms'[i])[1..] == ms'[i].body;
      assert FrameOf(ms[i])[0] == ms[i].id && FrameOf(ms'[i])[0] == ms'[i].id;
    }
  }
}
