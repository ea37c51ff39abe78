/** The wire format: every message is four length bytes followed by that many bytes,
    the first of which is the message id. */
module Framing {
  import opened Wire

  /** A message the format can carry: at least its id byte, and a length below 2^32. */
  predicate WellFormed(frame: seq<byte>) {
    1 <= |frame| < TWO_TO_THE_32
  }

  predicate AllWellFormed(frames: seq<seq<byte>>) {
    forall i :: 0 <= i < |frames| ==> WellFormed(frames[i])
  }

  function EncodeFrame(frame: seq<byte>): (bs: seq<byte>)
    requires WellFormed(frame)
    ensures |bs| == 4 + |frame|
  {
    ToNetwork(|frame|) + frame
  }

  function Encode(frames: seq<seq<byte>>): (bs: seq<byte>)
    requires AllWellFormed(frames)
  {
    if frames == [] then []
    else Encode(frames[..|frames| - 1]) + EncodeFrame(frames[|frames| - 1])
  }

  /** Bytes that begin with a whole frame. */
  predicate StartsWithFrame(bs: seq<byte>) {
    && |bs| >= 4
    && 1 <= FromNetwork(bs[..4]) <= |bs| - 4
  }

  datatype Parsed = Parsed(frames: seq<seq<byte>>, rest: seq<byte>)

  /** Cut whole frames off the front of a byte string for as long as there is one. */
  function Parse(bs: seq<byte>): (p: Parsed)
    ensures AllWellFormed(p.frames) && !StartsWithFrame(p.rest)
    decreases |bs|
  {
    if StartsWithFrame(bs) then
      var n := FromNetwork(bs[..4]);
      var p := Parse(bs[4 + n..]);
      Parsed([bs[4..4 + n]] + p.frames, p.rest)
    else
      Parsed([], bs)
  }

  lemma AppendIsAssociative<T>(a: seq<T>, b: seq<T>, c: seq<T>)
    ensures (a + b) + c == a + (b + c)
  {
  }

  lemma EncodeAppend(frames: seq<seq<byte>>, frame: seq<byte>)
    requires AllWellFormed(frames) && WellFormed(frame)
    ensures Encode(frames + [frame]) == Encode(frames) + EncodeFrame(frame)
  {
    var all := frames + [frame];
    assert all[..|all| - 1] == frames;
  }

  lemma {:induction false} EncodeFirst(frame: seq<byte>, frames: seq<seq<byte>>)
    requires WellFormed(frame) && AllWellFormed(frames)
    ensures AllWellFormed([frame] + frames)
    ensures Encode([frame] + frames) == EncodeFrame(frame) + Encode(frames)
    decreases |frames|
  {
    if frames == [] {
      EncodeAppend([], frame);
      assert [frame] + frames == [] + [frame];
    } else {
      var last := |frames| - 1;
      var init := frames[..last];
      EncodeFirst(frame, init);
      assert [frame] + frames == ([frame] + init) + [frames[last]];
      EncodeAppend([frame] + init, frames[last]);
      AppendIsAssociative(EncodeFrame(frame), Encode(init), EncodeFrame(frames[last]));
    }
  }

  /** Parsing loses nothing: the frames it found, re-encoded, and the rest are the input. */
  lemma {:induction false} ParseThenEncode(bs: seq<byte>)
    ensures Encode(Parse(bs).frames) + Parse(bs).rest == bs
    decreases |bs|
  {
    if StartsWithFrame(bs) {
      var n := FromNetwork(bs[..4]);
      var tail := bs[4 + n..];
      var frame := bs[4..4 + n];
      var p := Parse(tail);
      assert EncodeFrame(frame) + tail == bs by {
        NetworkBytesRoundTrip(bs[..4]);
      }
      calc {
        Encode(Parse(bs).frames) + Parse(bs).rest;
        Encode([frame] + p.frames) + p.rest;
        { EncodeFirst(frame, p.frames); }
        (EncodeFrame(frame) + Encode(p.frames)) + p.rest;
        { AppendIsAssociative(EncodeFrame(frame), Encode(p.frames), p.rest); }
        EncodeFrame(frame) + (Encode(p.frames) + p.rest);
        { ParseThenEncode(tail); }
        EncodeFrame(frame) + tail;
      }
    }
  }

  lemma ParseFrame(frame: seq<byte>, rest: seq<byte>)
    requires WellFormed(frame)
    ensures Parse(EncodeFrame(frame) + rest) == Parsed([frame] + Parse(rest).frames, Parse(rest).rest)
  {
    var bs := EncodeFrame(frame) + rest;
    NetworkRoundTrip(|frame|);
    assert bs[..4] == ToNetwork(|frame|);
    assert bs[4..4 + |frame|] == frame;
    assert bs[4 + |frame|..] == rest;
  }

  lemma FirstAndOthers<T>(a: seq<T>, b: seq<T>)
    requires a != []
    ensures [a[0]] + (a[1..] + b) == a + b
  {
  }

  lemma EncodeBeforeRest(frames: seq<seq<byte>>, rest: seq<byte>)
    requires AllWellFormed(frames) && frames != []
    ensures Encode(frames) + rest == EncodeFrame(frames[0]) + (Encode(frames[1..]) + rest)
  {
    assert frames == [frames[0]] + frames[1..];
    EncodeFirst(frames[0], frames[1..]);
    AppendIsAssociative(EncodeFrame(frames[0]), Encode(frames[1..]), rest);
  }

  /** Frames are uniquely decodable, whatever follows them: parsing gives back exactly the
      frames that were encoded and then goes on with the rest as if it stood alone. */
  lemma {:induction false} EncodeThenParse(frames: seq<seq<byte>>, rest: seq<byte>)
    requires AllWellFormed(frames)
    ensures Parse(Encode(frames) + rest) == Parsed(frames + Parse(rest).frames, Parse(rest).rest)
    decreases |frames|
  {
    if frames == [] {
      assert Encode(frames) + rest == rest;
      assert frames + Parse(rest).frames == Parse(rest).frames;
    } else {
      var found := Parse(rest).frames;
      assert Parse(Encode(frames) + rest) == Parse(EncodeFrame(frames[0]) + (Encode(frames[1..]) + rest)) by {
        EncodeBeforeRest(frames, rest);
      }
      ParseFrame(frames[0], Encode(frames[1..]) + rest);
      EncodeThenParse(frames[1..], rest);
      FirstAndOthers(frames, found);
    }
  }
}
