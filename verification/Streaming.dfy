/** The decoders of streamed responses: eager accumulation (list keys, list buckets), storing
    until done (map/reduce), and storing then flattening (secondary indexes). */
module Streaming {
  import opened Wire
  import opened Reader
  import opened Growth

  /** What follows the id byte. */
  function Tail(frame: seq<byte>): seq<byte> {
    if frame == [] then [] else frame[1..]
  }

  // ----- List keys and list buckets -----

  /** One unpacked message: some of the keys (or buckets), and the optional end mark. */
  datatype ListMsg = ListMsg(items: seq<Binary>, hasDone: bool, done: bool) {
    predicate IsLast() {
      hasDone && done
    }
  }

  const CLEARED_LIST_MSG := ListMsg([], false, false)

  datatype ListResponse = ListResponse(items: seq<Binary>, done: bool, history: seq<ListMsg>)

  function ListStep(r: Option<ListResponse>, m: ListMsg): ListResponse {
    var prior := if r.Some? then r.value else ListResponse([], false, []);
    ListResponse(prior.items + m.items, m.IsLast(), prior.history + [m])
  }

  function ListDecode(unpack: seq<byte> -> Option<ListMsg>, r: Option<ListResponse>, frame: seq<byte>): Decoding<ListResponse> {
    match unpack(Tail(frame))
    case None => Decoding(Rejected, r, true)
    case Some(m) => Decoding(Decoded, Some(ListStep(r, m)), m.IsLast())
  }

  /** The response structure of list keys; that of list buckets has the same shape. */
  class ListAccumulator {
    var items: array?<Binary>
    var nItems: nat
    var done: bool
    var internal: array?<ListMsg>
    var nResponses: nat

    ghost predicate Valid()
      reads this
    {
      && (if items == null then nItems == 0 else items.Length == nItems)
      && (nResponses > 0 ==> internal != null && internal.Length == nResponses)
    }

    ghost function Value(): ListResponse
      requires Valid()
      reads this, items, internal
    {
      ListResponse(if items == null then [] else items[..], done, if nResponses > 0 then internal[..] else [])
    }

    /** A cleared structure, as allocated for the first message. */
    constructor ()
      ensures Valid() && Value() == ListResponse([], false, [])
    {
      items, nItems, done, internal, nResponses := null, 0, false, null, 0;
    }

    /** The body of riak_listkeys_response_decode once the message is unpacked. */
    method Accumulate(m: ListMsg) returns (last: bool)
      requires Valid()
      modifies this
      ensures Valid()
      ensures Value() == ListStep(Some(old(Value())), m)
      ensures last == (m.hasDone && m.done)
    {
      items := AppendAll(items, nItems, m.items, []);
      nItems := nItems + |m.items|;
      done := false;
      if m.hasDone {
        done := m.done;
      }
      last := done;
      internal := AppendMessage(internal, nResponses, m, CLEARED_LIST_MSG);
      nResponses := nResponses + 1;
    }
  }

  // ----- Map/reduce -----

  datatype MapRedMsg = MapRedMsg(hasPhase: bool, phase: nat, hasResponse: bool, response: Binary, hasDone: bool, done: bool) {
    predicate IsLast() {
      hasDone && done
    }
  }

  const CLEARED_MAPRED_MSG := MapRedMsg(false, 0, false, [], false, false)

  datatype MapRedResponse = MapRedResponse(messages: seq<MapRedMsg>, history: seq<MapRedMsg>)

  function MapRedStep(streaming: bool, r: Option<MapRedResponse>, m: MapRedMsg): MapRedResponse {
    var prior := if r.Some? then r.value else MapRedResponse([], []);
    var history := prior.history + [m];
    MapRedResponse(if streaming || m.IsLast() then history else prior.messages, history)
  }

  function MapRedDecode(streaming: bool, unpack: seq<byte> -> Option<MapRedMsg>,
                        r: Option<MapRedResponse>, frame: seq<byte>): Decoding<MapRedResponse> {
    match unpack(Tail(frame))
    case None => Decoding(Rejected, r, true)
    case Some(m) => Decoding(Decoded, Some(MapRedStep(streaming, r, m)), m.IsLast())
  }

  /** The loop that makes user-level messages of the stored ones. */
  method Project(stored: array<MapRedMsg>) returns (messages: seq<MapRedMsg>)
    ensures messages == stored[..]
  {
    var msg := new MapRedMsg[stored.Length](i => CLEARED_MAPRED_MSG);
    for i := 0 to stored.Length
      invariant msg[..i] == stored[..i]
    {
      var rpb := stored[i];
      msg[i] := MapRedMsg(rpb.hasPhase, rpb.phase, rpb.hasResponse, rpb.response, rpb.hasDone, rpb.done);
    }
    messages := msg[..];
  }

  class MapRedAccumulator {
    var messages: seq<MapRedMsg>
    var internal: array?<MapRedMsg>
    var nResponses: nat

    ghost predicate Valid()
      reads this
    {
      nResponses > 0 ==> internal != null && internal.Length == nResponses
    }

    ghost function Value(): MapRedResponse
      requires Valid()
      reads this, internal
    {
      MapRedResponse(messages, if nResponses > 0 then internal[..] else [])
    }

    constructor ()
      ensures Valid() && Value() == MapRedResponse([], [])
    {
      messages, internal, nResponses := [], null, 0;
    }

    /** The body of riak_mapreduce_response_decode once the message is unpacked. */
    method Accumulate(streaming: bool, m: MapRedMsg) returns (last: bool)
      requires Valid()
      modifies this
      ensures Valid()
      ensures Value() == MapRedStep(streaming, Some(old(Value())), m)
      ensures last == (m.hasDone && m.done)
    {
      last := m.hasDone && m.done;
      var stored := AppendMessage(internal, nResponses, m, CLEARED_MAPRED_MSG);
      if streaming || last {
        messages := Project(stored);
      }
      internal, nResponses := stored, nResponses + 1;
    }
  }

  // ----- Secondary indexes -----

  /** A term and, if there is one, the key it leads to. */
  type Result = (Binary, Option<Binary>)

  datatype IndexMsg = IndexMsg(keys: seq<Binary>, results: seq<Result>,
                               hasContinuation: bool, continuation: Binary, hasDone: bool, done: bool) {
    predicate IsLast() {
      hasDone && done
    }
  }

  /** No empty chunk precedes a non-empty one. */
  predicate NoGap<T>(chunks: seq<seq<T>>) {
    forall a, b :: 0 <= a < b < |chunks| && |chunks[a]| == 0 ==> |chunks[b]| == 0
  }

  lemma {:induction false} EmptyChunksAddNothing<T>(chunks: seq<seq<T>>)
    ensures Concat(chunks) == [] <==> forall i :: 0 <= i < |chunks| ==> |chunks[i]| == 0
    decreases |chunks|
  {
    if chunks != [] {
      var last := |chunks| - 1;
      EmptyChunksAddNothing(chunks[..last]);
      assert forall i :: 0 <= i < last ==> chunks[..last][i] == chunks[i];
    }
  }

  lemma ConcatNext<T>(chunks: seq<seq<T>>, c: nat)
    requires c < |chunks|
    ensures Concat(chunks[..c + 1]) == Concat(chunks[..c]) + chunks[c]
  {
    assert chunks[..c + 1][..c] == chunks[..c];
  }

  lemma ConcatAt<T>(chunks: seq<seq<T>>, c: nat)
    requires c <= |chunks|
    ensures Concat(chunks) == Concat(chunks[..c]) + Concat(chunks[c..])
  {
    assert chunks == chunks[..c] + chunks[c..];
    ConcatSplit(chunks[..c], chunks[c..]);
  }

  lemma RestIsEmpty<T>(chunks: seq<seq<T>>, c: nat)
    requires c <= |chunks|
    ensures |Concat(chunks)| == |Concat(chunks[..c])| <==> forall b :: c <= b < |chunks| ==> |chunks[b]| == 0
  {
    ConcatAt(chunks, c);
    EmptyChunksAddNothing(chunks[c..]);
    assert forall b :: c <= b < |chunks| ==> chunks[b] == chunks[c..][b - c];
  }

  /** The cursor's place after i keys: chunk and offset in it. */
  predicate CursorAt<T>(chunks: seq<seq<T>>, i: nat, chunk: nat, j: nat) {
    && chunk <= |chunks|
    && (j == 0 || (chunk < |chunks| && j < |chunks[chunk]|))
    && (forall a :: 0 <= a < chunk ==> |chunks[a]| > 0)
    && i == |Concat(chunks[..chunk])| + j
  }

  function Copied<T>(chunks: seq<seq<T>>, chunk: nat, j: nat): seq<T>
    requires chunk <= |chunks| && (j == 0 || (chunk < |chunks| && j <= |chunks[chunk]|))
  {
    Concat(chunks[..chunk]) + if j == 0 then [] else chunks[chunk][..j]
  }

  lemma CursorInside<T>(chunks: seq<seq<T>>, i: nat, chunk: nat, j: nat)
    requires CursorAt(chunks, i, chunk, j) && i < |Concat(chunks)|
    ensures chunk < |chunks|
    ensures |chunks[chunk]| == 0 ==> !NoGap(chunks)
    ensures j < |chunks[chunk]| ==> Copied(chunks, chunk, j + 1) == Copied(chunks, chunk, j) + [chunks[chunk][j]]
    ensures j + 1 == |chunks[chunk]| ==> Concat(chunks[..chunk + 1]) == Copied(chunks, chunk, j + 1)
  {
    assert chunks[..|chunks|] == chunks;
    ConcatNext(chunks, chunk);
    if |chunks[chunk]| == 0 {
      RestIsEmpty(chunks, chunk);
    }
    if j < |chunks[chunk]| {
      assert chunks[chunk][..j + 1] == chunks[chunk][..j] + [chunks[chunk][j]];
    }
  }

  lemma CursorAtEnd<T>(chunks: seq<seq<T>>, chunk: nat, j: nat)
    requires CursorAt(chunks, |Concat(chunks)|, chunk, j)
    ensures NoGap(chunks) && Copied(chunks, chunk, j) == Concat(chunks)
  {
    if j > 0 {
      ConcatNext(chunks, chunk);
      ConcatAt(chunks, chunk + 1);
      assert false;
    }
    RestIsEmpty(chunks, chunk);
    ConcatAt(chunks, chunk);
  }

  /** The flattening loop of riak_2i_response_decode: the cursor (chunk, j) moves on by at most
      one chunk per key. It reads outside a chunk exactly when an empty chunk precedes a
      non-empty one; otherwise it copies all keys in order. */
  method Flatten<T(0)>(chunks: seq<seq<T>>) returns (inBounds: bool, keys: seq<T>)
    ensures inBounds <==> NoGap(chunks)
    ensures inBounds ==> keys == Concat(chunks)
  {
    var total := 0;
    for i := 0 to |chunks|
      invariant total == |Concat(chunks[..i])|
    {
      ConcatNext(chunks, i);
      total := total + |chunks[i]|;
    }
    assert chunks[..|chunks|] == chunks;
    var filled := new T[total];
    var j, chunk := 0, 0;
    for i := 0 to total
      invariant CursorAt(chunks, i, chunk, j)
      invariant filled[..i] == Copied(chunks, chunk, j)
    {
      CursorInside(chunks, i, chunk, j);
      if j >= |chunks[chunk]| {
        // the source reads a key of an empty chunk here
        return false, [];
      }
      filled[i] := chunks[chunk][j];
      j := j + 1;
      if j >= |chunks[chunk]| {
        chunk, j := chunk + 1, 0;
      }
    }
    CursorAtEnd(chunks, chunk, j);
    return true, filled[..];
  }

  /** The same loop with the cursor moved past empty chunks flattens every list of chunks. */
  method FlattenSkipping<T(0)>(chunks: seq<seq<T>>) returns (keys: seq<T>)
    ensures keys == Concat(chunks)
  {
    keys := [];
    var j, chunk := 0, 0;
    while true
      invariant chunk <= |chunks| && (j == 0 || (chunk < |chunks| && j <= |chunks[chunk]|))
      invariant keys == Copied(chunks, chunk, j)
      decreases |chunks| - chunk, if chunk < |chunks| then |chunks[chunk]| - j else 0
    {
      while chunk < |chunks| && j >= |chunks[chunk]|
        invariant chunk <= |chunks| && (j == 0 || (chunk < |chunks| && j <= |chunks[chunk]|))
        invariant keys == Copied(chunks, chunk, j)
        decreases |chunks| - chunk
      {
        ConcatNext(chunks, chunk);
        assert chunks[chunk][..j] == chunks[chunk];
        chunk, j := chunk + 1, 0;
      }
      if chunk == |chunks| {
        assert chunks[..chunk] == chunks;
        return;
      }
      assert chunks[chunk][..j + 1] == chunks[chunk][..j] + [chunks[chunk][j]];
      keys, j := keys + [chunks[chunk][j]], j + 1;
    }
  }

  /** The end mark of a message counts only if it is there. */
  lemma EndMarkMustBePresent(l: ListMsg, m: MapRedMsg, i: IndexMsg)
    ensures l.IsLast() <==> l.hasDone && l.done
    ensures m.IsLast() <==> m.hasDone && m.done
    ensures i.IsLast() <==> i.hasDone && i.done
  {
  }

  const CLEARED_INDEX_MSG := IndexMsg([], [], false, [], false, false)

  /** The results are a vector of pointers, each perhaps NULL; None is a NULL vector. */
  datatype IndexResponse = IndexResponse(keys: seq<Binary>, nResults: nat, results: Option<seq<Option<Result>>>,
                                         hasContinuation: bool, continuation: Binary,
                                         hasDone: bool, done: bool, history: seq<IndexMsg>)

  const CLEARED_INDEX_RESPONSE := IndexResponse([], 0, None, false, [], false, false, [])

  function KeyChunks(ms: seq<IndexMsg>): (cs: seq<seq<Binary>>)
    ensures |cs| == |ms| && forall i :: 0 <= i < |ms| ==> cs[i] == ms[i].keys
  {
    seq(|ms|, i requires 0 <= i < |ms| => ms[i].keys)
  }

  function ResultChunks(ms: seq<IndexMsg>): (cs: seq<seq<Result>>)
    ensures |cs| == |ms| && forall i :: 0 <= i < |ms| ==> cs[i] == ms[i].results
  {
    seq(|ms|, i requires 0 <= i < |ms| => ms[i].results)
  }

  /** The results loop from its i-th turn on, with the cursor (chunk, j). `copies` says which copies
      succeed: the test is inverted, so one that does is taken for a failure, while one for which
      memory is short is passed over. The cursor moves on by the number of keys. */
  function ResultsFrom(ms: seq<IndexMsg>, copies: nat -> bool, total: nat, i: nat, chunk: nat, j: nat): DecodeStatus
    requires i <= total
    decreases total - i
  {
    if i == total then Decoded
    else if chunk >= |ms| || j >= |ms[chunk].results| then Crashed
    else if copies(i) then Rejected
    else if j + 1 >= |ms[chunk].keys| then ResultsFrom(ms, copies, total, i + 1, chunk + 1, 0)
    else ResultsFrom(ms, copies, total, i + 1, chunk, j + 1)
  }

  /** No result is ever handed out: assembling succeeds only if not one of them could be copied. */
  lemma {:induction false} NoResultIsHandedOut(ms: seq<IndexMsg>, copies: nat -> bool, total: nat, i: nat, chunk: nat, j: nat)
    requires i <= total && ResultsFrom(ms, copies, total, i, chunk, j) == Decoded
    ensures forall k :: i <= k < total ==> !copies(k)
    decreases total - i
  {
    if i < total {
      if j + 1 >= |ms[chunk].keys| {
        NoResultIsHandedOut(ms, copies, total, i + 1, chunk + 1, 0);
      } else {
        NoResultIsHandedOut(ms, copies, total, i + 1, chunk, j + 1);
      }
    }
  }

  function Cleared(n: nat): (slots: seq<Option<Result>>)
    ensures |slots| == n && forall i :: 0 <= i < n ==> slots[i] == None
  {
    seq<Option<Result>>(n, i => None)
  }

  /** Making the user-level keys and results of all stored messages. */
  function Assembled(copies: nat -> bool, r: IndexResponse): (DecodeStatus, IndexResponse)
    requires r.history != []
  {
    if !NoGap(KeyChunks(r.history)) then (Crashed, r)
    else
      var total := |Concat(ResultChunks(r.history))|;
      var status := ResultsFrom(r.history, copies, total, 0, 0, 0);
      (status, r.(keys := Concat(KeyChunks(r.history)), nResults := total,
                  results := if status == Rejected then None else Some(Cleared(total))))
  }

  /** The message that has been taken for the one in place i by a cursor that gives each message as many
      places as it has keys, and at least one; and the place within it. */
  function PlaceOf(ms: seq<IndexMsg>, i: nat): (p: (nat, nat))
    ensures p.0 <= |ms|
    decreases |ms|
  {
    if ms == [] then (0, i)
    else
      var width := if |ms[0].keys| == 0 then 1 else |ms[0].keys|;
      if i < width then (0, i)
      else
        var (chunk, j) := PlaceOf(ms[1..], i - width);
        (chunk + 1, j)
  }

  predicate HasPlace(ms: seq<IndexMsg>, i: nat) {
    var (chunk, j) := PlaceOf(ms, i);
    chunk < |ms| && j < |ms[chunk].results|
  }

  /** How the results loop ends: at the first turn whose place is not there, or whose copy succeeds. */
  predicate ResultsEnd(ms: seq<IndexMsg>, copies: nat -> bool, total: nat, i: nat, status: DecodeStatus) {
    match status
    case Decoded => forall k :: i <= k < total ==> HasPlace(ms, k) && !copies(k)
    case Crashed => exists k :: i <= k < total && !HasPlace(ms, k)
                                && forall h :: i <= h < k ==> HasPlace(ms, h) && !copies(h)
    case Rejected => exists k :: i <= k < total && HasPlace(ms, k) && copies(k)
                                 && forall h :: i <= h < k ==> HasPlace(ms, h) && !copies(h)
  }

  lemma {:induction false} NextPlace(ms: seq<IndexMsg>, i: nat)
    ensures var (chunk, j) := PlaceOf(ms, i);
            chunk < |ms| ==>
              PlaceOf(ms, i + 1) == if j + 1 >= |ms[chunk].keys| then (chunk + 1, 0) else (chunk, j + 1)
    decreases |ms|
  {
    if ms != [] {
      var width := if |ms[0].keys| == 0 then 1 else |ms[0].keys|;
      if i >= width {
        NextPlace(ms[1..], i - width);
      } else if i + 1 >= width && |ms| > 1 {
        assert ms[1..] != [];
      }
    }
  }

  lemma EndsLater(ms: seq<IndexMsg>, copies: nat -> bool, total: nat, i: nat, status: DecodeStatus)
    requires i < total && HasPlace(ms, i) && !copies(i) && ResultsEnd(ms, copies, total, i + 1, status)
    ensures ResultsEnd(ms, copies, total, i, status)
  {
    match status
    case Decoded =>
    case Crashed =>
      var k :| i + 1 <= k < total && !HasPlace(ms, k) && forall h :: i + 1 <= h < k ==> HasPlace(ms, h) && !copies(h);
      assert forall h :: i <= h < k ==> HasPlace(ms, h) && !copies(h);
    case Rejected =>
      var k :| i + 1 <= k < total && HasPlace(ms, k) && copies(k)
               && forall h :: i + 1 <= h < k ==> HasPlace(ms, h) && !copies(h);
      assert forall h :: i <= h < k ==> HasPlace(ms, h) && !copies(h);
  }

  lemma {:induction false} ResultsFromEnds(ms: seq<IndexMsg>, copies: nat -> bool, total: nat, i: nat)
    requires i <= total
    ensures ResultsEnd(ms, copies, total, i, ResultsFrom(ms, copies, total, i, PlaceOf(ms, i).0, PlaceOf(ms, i).1))
    decreases total - i
  {
    var (chunk, j) := PlaceOf(ms, i);
    if i < total && HasPlace(ms, i) && !copies(i) {
      NextPlace(ms, i);
      ResultsFromEnds(ms, copies, total, i + 1);
      EndsLater(ms, copies, total, i, ResultsFrom(ms, copies, total, i, chunk, j));
    }
  }

  /** The results loop, for any pattern of memory shortage: it walks the results by the number of keys,
      and what it does is decided by the first turn whose place is not there or whose copy succeeds. */
  lemma ResultsLoopExactlyWhen(ms: seq<IndexMsg>, copies: nat -> bool, total: nat)
    ensures ResultsEnd(ms, copies, total, 0, ResultsFrom(ms, copies, total, 0, 0, 0))
  {
    assert PlaceOf(ms, 0) == (0, 0);
    ResultsFromEnds(ms, copies, total, 0);
  }

  /** The fields taken from the latest message alone. */
  function Marked(r: IndexResponse, last: IndexMsg): IndexResponse {
    r.(hasContinuation := last.hasContinuation, continuation := last.continuation,
       hasDone := last.hasDone, done := last.done)
  }

  /** One message added to a response structure: the decoder's status and the structure after it. */
  function IndexStep(streaming: bool, copies: nat -> bool, prior: IndexResponse, m: IndexMsg): (DecodeStatus, IndexResponse) {
    var grown := prior.(history := prior.history + [m]);
    var (status, r) := if streaming || m.IsLast() then Assembled(copies, grown) else (Decoded, grown);
    (status, if status == Decoded then Marked(r, m) else r)
  }

  function IndexDecode(streaming: bool, copies: nat -> bool, unpack: seq<byte> -> Option<IndexMsg>,
                       r: Option<IndexResponse>, frame: seq<byte>): Decoding<IndexResponse> {
    match unpack(Tail(frame))
    case None => Decoding(Rejected, r, true)
    case Some(m) =>
      var (status, response) := IndexStep(streaming, copies, if r.Some? then r.value else CLEARED_INDEX_RESPONSE, m);
      // a structure allocated for the first message is handed out only on success
      Decoding(status, if status == Decoded || r.Some? then Some(response) else None, m.IsLast())
  }

  /** The results loop, with its inverted test. */
  method CopyResults(ms: seq<IndexMsg>, copies: nat -> bool) returns (status: DecodeStatus, slots: array<Option<Result>>)
    ensures fresh(slots) && slots.Length == |Concat(ResultChunks(ms))|
    ensures status == ResultsFrom(ms, copies, slots.Length, 0, 0, 0)
    ensures status != Rejected ==> slots[..] == Cleared(slots.Length)
  {
    var total := 0;
    for i := 0 to |ms|
      invariant total == |Concat(ResultChunks(ms)[..i])|
    {
      ConcatNext(ResultChunks(ms), i);
      total := total + |ms[i].results|;
    }
    assert ResultChunks(ms)[..|ms|] == ResultChunks(ms);
    slots := new Option<Result>[total](i => None);
    var j, chunk := 0, 0;
    for i := 0 to total
      invariant ResultsFrom(ms, copies, total, 0, 0, 0) == ResultsFrom(ms, copies, total, i, chunk, j)
      invariant forall k :: 0 <= k < total ==> slots[k] == None
    {
      if chunk >= |ms| || j >= |ms[chunk].results| {
        // the source reads behind the results of a message, or behind the messages
        return Crashed, slots;
      }
      if copies(i) {
        slots[i] := Some(ms[chunk].results[j]);
        return Rejected, slots;
      }
      j := j + 1;
      if j >= |ms[chunk].keys| {
        chunk, j := chunk + 1, 0;
      }
    }
    return Decoded, slots;
  }

  class IndexAccumulator {
    var keys: seq<Binary>
    var nResults: nat
    var results: array?<Option<Result>>
    var hasContinuation: bool
    var continuation: Binary
    var hasDone: bool
    var done: bool
    var internal: array?<IndexMsg>
    var nResponses: nat

    ghost predicate Valid()
      reads this
    {
      nResponses > 0 ==> internal != null && internal.Length == nResponses
    }

    ghost function Value(): IndexResponse
      requires Valid()
      reads this, internal, results
    {
      IndexResponse(keys, nResults, if results == null then None else Some(results[..]),
                    hasContinuation, continuation, hasDone, done,
                    if nResponses > 0 then internal[..] else [])
    }

    constructor ()
      ensures Valid() && Value() == CLEARED_INDEX_RESPONSE
    {
      keys, nResults, results := [], 0, null;
      hasContinuation, continuation, hasDone, done := false, [], false, false;
      internal, nResponses := null, 0;
    }

    /** The body of riak_2i_response_decode once the message is unpacked. */
    method Accumulate(streaming: bool, copies: nat -> bool, m: IndexMsg) returns (status: DecodeStatus)
      requires Valid()
      modifies this
      ensures Valid()
      ensures (status, Value()) == IndexStep(streaming, copies, old(Value()), m)
    {
      KeepMessage(m);
      status := Decoded;
      if streaming || (m.hasDone && m.done) {
        status := Assemble(copies);
        if status != Decoded {
          return;
        }
      }
      CopyMarks(internal[nResponses - 1]);
    }

    /** Expand the vector of stored messages by one. */
    method KeepMessage(m: IndexMsg)
      requires Valid()
      modifies this
      ensures Valid() && nResponses > 0 && internal[nResponses - 1] == m
      ensures Value() == old(Value()).(history := old(Value()).history + [m])
    {
      var stored := AppendMessage(internal, nResponses, m, CLEARED_INDEX_MSG);
      internal, nResponses := stored, nResponses + 1;
    }

    method CopyMarks(last: IndexMsg)
      requires Valid()
      modifies this`hasContinuation, this`continuation, this`hasDone, this`done
      ensures Valid()
      ensures Value() == Marked(old(Value()), last)
    {
      hasContinuation, continuation := last.hasContinuation, last.continuation;
      hasDone, done := last.hasDone, last.done;
    }

    /** Make the user-level keys and results of all stored messages. */
    method Assemble(copies: nat -> bool) returns (status: DecodeStatus)
      requires Valid() && nResponses > 0
      modifies this
      ensures internal == old(internal) && nResponses == old(nResponses) && Valid()
      ensures (status, Value()) == Assembled(copies, old(Value()))
    {
      var stored := internal[..];
      var inBounds, flat := Flatten(KeyChunks(stored));
      if !inBounds {
        return Crashed;
      }
      var slots;
      status, slots := CopyResults(stored, copies);
      keys, nResults, results := flat, slots.Length, slots;
      if status == Rejected {
        results := null;
      }
    }
  }
}
