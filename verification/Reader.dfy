/** The state machine inside riak_read: one step for each call of the read callback.

    Two variants of the machine differ only in how they treat a length field that
    arrives in pieces and a read that fails inside a message body. `AsWritten` is what
    the code does; `Resumable` is what its comments describe. */
module Reader {
  import opened Wire
  import opened Framing

  datatype Variant = AsWritten | Resumable

  /** What one call of the read callback gives back: some bytes (perhaps none), or -1. */
  datatype Reply = Bytes(data: seq<byte>) | Failed

  /** How riak_read returns. `Fault` stands for behaviour that C leaves undefined: an access
      outside a buffer, a NULL dereference or a failed assertion. */
  datatype Outcome = Ok | ReadError | ServerError | Fault

  datatype Status = Again | Return(outcome: Outcome, done: bool)

  datatype ErrorMessage = ErrorMessage(code: nat, text: seq<byte>)

  datatype DecodeStatus = Decoded | Rejected | Crashed

  /** A decoder's effect: its error code, the response it leaves in `rop->response`, and
      the value it leaves in `*done`. */
  datatype Decoding<+R> = Decoding(status: DecodeStatus, response: Option<R>, done: bool)

  type Decoder<!R> = (Option<R>, seq<byte>) -> Decoding<R>

  /** What does not change during a run: the host, the operation's function pointers, the
      protobuf decoder of error messages, and the (arbitrary) contents of memory fresh from
      malloc: `junk(k, i)` is byte i of the buffer allocated for the k-th frame. */
  datatype Config<!R> = Config(
    order: ByteOrder,
    decoder: Option<Decoder<R>>,
    unpackError: seq<byte> -> Option<ErrorMessage>,
    responseCb: bool,
    errorCb: bool,
    junk: (nat, nat) -> byte)

  /** What the application can observe: the accumulated response, every call of the response
      callback and of the error callback, and whether behaviour became undefined. */
  datatype Client<+R> = Client(
    response: Option<R>,
    fired: seq<Option<R>>,
    errors: seq<ErrorMessage>,
    fault: bool)

  /** The operation: the four fields of the reader, the log of frames handed on, the client. */
  datatype State<+R> = State(
    position: nat,
    msglen: nat,
    msgbuf: seq<byte>,
    complete: bool,
    frames: seq<seq<byte>>,
    client: Client<R>)

  const MSG_RPBERRORRESP: byte := 0

  function NewClient<R>(): Client<R> {
    Client(None, [], [], false)
  }

  /** A fresh operation, all of whose fields are zero. */
  function Start<R>(): State<R> {
    State(0, 0, [], false, [], NewClient())
  }

  /** Fits the widths of the fields; both variants keep it. */
  predicate Typed<R>(s: State<R>) {
    && s.msglen < TWO_TO_THE_32
    && (if s.complete then 1 <= s.msglen == |s.msgbuf| && s.position < TWO_TO_THE_32
        else s.position <= 3 && s.msgbuf == [])
  }

  /** How many bytes the next call of the read callback asks for. */
  function Ask<R>(s: State<R>): nat
    requires Typed(s)
  {
    if !s.complete then 4 - s.position
    else if s.position <= s.msglen then s.msglen - s.position
    else 0
  }

  predicate Fits<R>(s: State<R>, r: Reply)
    requires Typed(s)
  {
    r.Bytes? ==> |r.data| <= Ask(s)
  }

  function FreshBuffer<R>(cfg: Config<R>, k: nat, n: nat): (buf: seq<byte>)
    ensures |buf| == n
  {
    seq<byte>(n, i requires 0 <= i < n => cfg.junk(k, i))
  }

  function Faulted<R>(s: State<R>): State<R> {
    s.(client := s.client.(fault := true))
  }

  /** Dispatch of one whole frame: missing decoder, server error, or decode. */
  function Handle<R>(cfg: Config<R>, c: Client<R>, frame: seq<byte>): (r: (Client<R>, Status))
    requires WellFormed(frame)
  {
    if cfg.decoder.None? then
      (c, Return(ReadError, true))
    else if frame[0] == MSG_RPBERRORRESP then
      match cfg.unpackError(frame[1..])
      case None => (c.(fault := true), Return(Fault, true))
      case Some(e) =>
        // the callback runs once in the error decoder and once more in riak_read
        (c.(errors := if cfg.errorCb then c.errors + [e, e] else c.errors, response := None),
         Return(ServerError, true))
    else
      var d := cfg.decoder.value(c.response, frame);
      var c' := c.(response := d.response);
      match d.status
      case Crashed => (c'.(fault := true), Return(Fault, true))
      case Rejected => (c', Return(ReadError, d.done))
      case Decoded =>
        if !d.done then (c', Again)
        else (c'.(fired := if cfg.responseCb then c.fired + [d.response] else c.fired), Return(Ok, true))
  }

  /** A whole frame is in the buffer: reset the reader's fields, then dispatch. */
  function Deliver<R>(cfg: Config<R>, s: State<R>, frame: seq<byte>): (r: (State<R>, Status))
    requires WellFormed(frame)
    ensures Typed(r.0)
  {
    var (c, st) := Handle(cfg, s.client, frame);
    (State(0, 0, [], false, s.frames + [frame], c), st)
  }

  /** A read of the length field. */
  function HeaderStep<R>(v: Variant, cfg: Config<R>, s: State<R>, r: Reply): (t: (State<R>, Status))
    requires Typed(s) && !s.complete && Fits(s, r)
    ensures !t.0.client.fault ==> Typed(t.0)
  {
    match r
    case Failed => (s, Return(ReadError, false))
    case Bytes(bs) =>
      var raw := Overlay(Memory(cfg.order, s.msglen), s.position, bs);
      var word := Word(cfg.order, raw);
      if |bs| == 0 then
        (s, Return(Ok, false))
      else if |bs| != 4 - s.position then
        var p := if v == AsWritten then |bs| else s.position + |bs|;
        (s.(position := p, msglen := word), Return(Ok, false))
      else
        var n := Ntohl(cfg.order, word);
        var p := if v == AsWritten then s.position else 0;
        var s' := s.(position := p, msglen := n, complete := true,
                     msgbuf := FreshBuffer(cfg, |s.frames|, n));
        // an empty message has no id byte to look at
        if n == 0 then (Faulted(s'), Return(Fault, true)) else (s', Again)
  }

  /** `rop->position += buflen`: the position is a 32-bit field and a failed read's -1 is a size_t. */
  function Advance(position: nat, buflen: int): (p: nat)
    requires -1 <= buflen && position + buflen < TWO_TO_THE_32
  {
    if buflen >= 0 then position + buflen
    else if position == 0 then TWO_TO_THE_32 - 1
    else position - 1
  }

  lemma AdvanceIsUnsignedAddition(position: nat, buflen: int)
    requires -1 <= buflen && position + buflen < TWO_TO_THE_32 && position < TWO_TO_THE_32
    ensures Advance(position, buflen)
         == (position + if buflen >= 0 then buflen else TWO_TO_THE_64 - 1) % TWO_TO_THE_32
  {
  }

  /** A read into the message buffer. */
  function BodyStep<R>(v: Variant, cfg: Config<R>, s: State<R>, r: Reply): (t: (State<R>, Status))
    requires Typed(s) && s.complete && Fits(s, r)
    ensures !t.0.client.fault ==> Typed(t.0)
  {
    if s.position > s.msglen then
      (Faulted(s), Return(Fault, true))
    else if r.Failed? && v == Resumable then
      (s, Return(ReadError, false))
    else
      var buf := if r.Bytes? then Overlay(s.msgbuf, s.position, r.data) else s.msgbuf;
      var p := Advance(s.position, if r.Bytes? then |r.data| else -1);
      if p < s.msglen then
        (s.(position := p, msgbuf := buf), Return(Ok, false))
      else if p != s.msglen then
        (Faulted(s.(position := p, msgbuf := buf)), Return(Fault, true))
      else
        Deliver(cfg, s, buf)
  }

  function Step<R>(v: Variant, cfg: Config<R>, s: State<R>, r: Reply): (t: (State<R>, Status))
    requires Typed(s) && Fits(s, r)
    ensures !t.0.client.fault ==> Typed(t.0)
  {
    if s.complete then BodyStep(v, cfg, s, r) else HeaderStep(v, cfg, s, r)
  }

  /** A run that is possible: every reply fits what was asked for, and nothing is read
      once behaviour is undefined. It may span any number of calls of riak_read: a step
      that returns is followed by the first step of the next call. */
  predicate Possible<R>(v: Variant, cfg: Config<R>, s: State<R>, rs: seq<Reply>)
    decreases |rs|
  {
    rs == [] ||
    (Typed(s) && !s.client.fault && Fits(s, rs[0]) && Possible(v, cfg, Step(v, cfg, s, rs[0]).0, rs[1..]))
  }

  function Run<R>(v: Variant, cfg: Config<R>, s: State<R>, rs: seq<Reply>): (t: State<R>)
    requires Possible(v, cfg, s, rs)
    decreases |rs|
  {
    if rs == [] then s else Run(v, cfg, Step(v, cfg, s, rs[0]).0, rs[1..])
  }

  function DataOf(r: Reply): seq<byte> {
    if r.Bytes? then r.data else []
  }

  /** All the bytes that the read callback handed out during a run. */
  function Consumed(rs: seq<Reply>): seq<byte> {
    if rs == [] then [] else DataOf(rs[0]) + Consumed(rs[1..])
  }

  /** One call of riak_read: every step but the last goes round the loop again, and the last
      returns `outcome` with `*done_streaming == done`. */
  predicate IsCall<R>(v: Variant, cfg: Config<R>, s: State<R>, rs: seq<Reply>, outcome: Outcome, done: bool)
    decreases |rs|
  {
    && rs != [] && Typed(s) && !s.client.fault && Fits(s, rs[0])
    && var (s', st) := Step(v, cfg, s, rs[0]);
    if |rs| == 1 then st == Return(outcome, done)
    else st == Again && IsCall(v, cfg, s', rs[1..], outcome, done)
  }
}
