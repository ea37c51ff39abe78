/** Riak objects: conversion to and from their protobuf records. */
module Objects {
  import opened Wire

  // ----- Data -----

  /** A riak_pair; None is a NULL pointer. */
  datatype Pair = Pair(key: Option<Binary>, hasValue: bool, value: Option<Binary>)

  datatype Link = Link(hasBucket: bool, bucket: Option<Binary>, hasKey: bool, key: Option<Binary>,
                       hasTag: bool, tag: Option<Binary>)

  /** The protobuf counterparts, whose absent fields are empty. */
  datatype PbPair = PbPair(key: Binary, hasValue: bool, value: Binary)

  datatype PbLink = PbLink(hasBucket: bool, bucket: Binary, hasKey: bool, key: Binary, hasTag: bool, tag: Binary)

  /** The values of a riak_object's fields. */
  datatype Object = Object(
    bucket: Option<Binary>,
    hasBucketType: bool, bucketType: Option<Binary>,
    hasKey: bool, key: Option<Binary>,
    value: Option<Binary>,
    hasCharset: bool, charset: Option<Binary>,
    hasEncoding: bool, encoding: Option<Binary>,
    hasContentType: bool, contentType: Option<Binary>,
    hasDeleted: bool, deleted: bool,
    hasLastMod: bool, lastMod: nat,
    hasLastModUsecs: bool, lastModUsecs: nat,
    hasVtag: bool, vtag: Option<Binary>,
    indexes: seq<Pair>, usermeta: seq<Pair>, links: seq<Link>)

  /** The values of an RpbContent's fields. */
  datatype Content = Content(
    value: Binary,
    hasCharset: bool, charset: Binary,
    hasEncoding: bool, encoding: Binary,
    hasContentType: bool, contentType: Binary,
    hasDeleted: bool, deleted: bool,
    hasLastMod: bool, lastMod: nat,
    hasLastModUsecs: bool, lastModUsecs: nat,
    hasVtag: bool, vtag: Binary,
    indexes: seq<PbPair>, usermeta: seq<PbPair>, links: seq<PbLink>)

  /** A cleared structure and an initialised record. */
  const CLEARED: Object := Object(None, false, None, false, None, None, false, None, false, None, false, None,
                                  false, false, false, 0, false, 0, false, None, [], [], [])
  const INITIALISED: Content := Content([], false, [], false, [], false, [], false, false, false, 0, false, 0,
                                        false, [], [], [], [])

  // ----- What the copy functions dereference -----

  predicate PairCopyable(p: Pair) {
    p.key.Some? && (p.hasValue ==> p.value.Some?)
  }

  predicate LinkCopyable(l: Link) {
    && (l.hasBucket ==> l.bucket.Some?)
    && (l.hasKey ==> l.key.Some?)
    && (l.hasTag ==> l.tag.Some?)
  }

  predicate Copyable(o: Object) {
    && o.value.Some?
    && (o.hasCharset ==> o.charset.Some?)
    && (o.hasEncoding ==> o.encoding.Some?)
    && (o.hasContentType ==> o.contentType.Some?)
    && (o.hasVtag ==> o.vtag.Some?)
    && (forall i :: 0 <= i < |o.indexes| ==> PairCopyable(o.indexes[i]))
    && (forall i :: 0 <= i < |o.usermeta| ==> PairCopyable(o.usermeta[i]))
    && (forall i :: 0 <= i < |o.links| ==> LinkCopyable(o.links[i]))
  }

  // ----- Specification of the copies -----

  /** Each optional field is copied if its flag is set, with the flag. */
  function PairToPb(p: Pair): PbPair
    requires PairCopyable(p)
  {
    PbPair(p.key.value, p.hasValue, if p.hasValue then p.value.value else [])
  }

  function PairFromPb(q: PbPair): Pair {
    Pair(Some(q.key), q.hasValue, if q.hasValue then Some(q.value) else None)
  }

  function LinkToPb(l: Link): PbLink
    requires LinkCopyable(l)
  {
    PbLink(l.hasBucket, if l.hasBucket then l.bucket.value else [],
           l.hasKey, if l.hasKey then l.key.value else [],
           l.hasTag, if l.hasTag then l.tag.value else [])
  }

  function LinkFromPb(q: PbLink): Link {
    Link(q.hasBucket, if q.hasBucket then Some(q.bucket) else None,
         q.hasKey, if q.hasKey then Some(q.key) else None,
         q.hasTag, if q.hasTag then Some(q.tag) else None)
  }

  function PairsToPb(ps: seq<Pair>): (qs: seq<PbPair>)
    requires forall i :: 0 <= i < |ps| ==> PairCopyable(ps[i])
  {
    seq(|ps|, i requires 0 <= i < |ps| => PairToPb(ps[i]))
  }

  function PairsFromPb(qs: seq<PbPair>): (ps: seq<Pair>) {
    seq(|qs|, i requires 0 <= i < |qs| => PairFromPb(qs[i]))
  }

  function LinksToPb(ls: seq<Link>): (qs: seq<PbLink>)
    requires forall i :: 0 <= i < |ls| ==> LinkCopyable(ls[i])
  {
    seq(|ls|, i requires 0 <= i < |ls| => LinkToPb(ls[i]))
  }

  function LinksFromPb(qs: seq<PbLink>): (ls: seq<Link>) {
    seq(|qs|, i requires 0 <= i < |qs| => LinkFromPb(qs[i]))
  }

  function BinariesToPb(to: Content, from: Object): Content
    requires Copyable(from)
  {
    to.(value := from.value.value,
        hasCharset := to.hasCharset || from.hasCharset,
        charset := if from.hasCharset then from.charset.value else to.charset,
        hasEncoding := to.hasEncoding || from.hasEncoding,
        encoding := if from.hasEncoding then from.encoding.value else to.encoding,
        hasContentType := to.hasContentType || from.hasContentType,
        contentType := if from.hasContentType then from.contentType.value else to.contentType,
        hasVtag := to.hasVtag || from.hasVtag,
        vtag := if from.hasVtag then from.vtag.value else to.vtag)
  }

  function NumbersToPb(to: Content, from: Object): Content {
    to.(hasDeleted := to.hasDeleted || from.hasDeleted,
        deleted := if from.hasDeleted then from.deleted else to.deleted,
        hasLastMod := to.hasLastMod || from.hasLastMod,
        lastMod := if from.hasLastMod then from.lastMod else to.lastMod,
        hasLastModUsecs := to.hasLastModUsecs || from.hasLastModUsecs,
        lastModUsecs := if from.hasLastModUsecs then from.lastModUsecs else to.lastModUsecs)
  }

  function ArraysToPb(to: Content, from: Object): Content
    requires Copyable(from)
  {
    to.(indexes := if from.indexes != [] then PairsToPb(from.indexes) else to.indexes,
        usermeta := if from.usermeta != [] then PairsToPb(from.usermeta) else to.usermeta,
        links := if from.links != [] then LinksToPb(from.links) else to.links)
  }

  /** riak_object_to_pb_copy onto a record that may already hold something: flags are only set,
      never cleared, and empty arrays are not copied. */
  function ToPb(to: Content, from: Object): Content
    requires Copyable(from)
  {
    ArraysToPb(NumbersToPb(BinariesToPb(to, from), from), from)
  }

  function BinariesFromPb(from: Content): Object {
    CLEARED.(value := Some(from.value),
             hasCharset := from.hasCharset, charset := if from.hasCharset then Some(from.charset) else None,
             hasEncoding := from.hasEncoding, encoding := if from.hasEncoding then Some(from.encoding) else None,
             hasContentType := from.hasContentType,
             contentType := if from.hasContentType then Some(from.contentType) else None,
             hasVtag := from.hasVtag, vtag := if from.hasVtag then Some(from.vtag) else None)
  }

  function NumbersFromPb(to: Object, from: Content): Object {
    to.(hasDeleted := to.hasDeleted || from.hasDeleted,
        deleted := if from.hasDeleted then from.deleted else to.deleted,
        hasLastMod := to.hasLastMod || from.hasLastMod,
        lastMod := if from.hasLastMod then from.lastMod else to.lastMod,
        hasLastModUsecs := to.hasLastModUsecs || from.hasLastModUsecs,
        lastModUsecs := if from.hasLastModUsecs then from.lastModUsecs else to.lastModUsecs)
  }

  function ArraysFromPb(to: Object, from: Content): Object {
    to.(indexes := if from.indexes != [] then PairsFromPb(from.indexes) else to.indexes,
        usermeta := if from.usermeta != [] then PairsFromPb(from.usermeta) else to.usermeta,
        links := if from.links != [] then LinksFromPb(from.links) else to.links)
  }

  /** riak_object_new_from_pb. */
  function FromPb(from: Content): Object {
    ArraysFromPb(NumbersFromPb(BinariesFromPb(from), from), from)
  }

  // ----- The copies as code -----

  /** riak_pairs_copy_to_pb. */
  method PairsCopyToPb(pair: seq<Pair>) returns (pbpair: seq<PbPair>)
    requires forall i :: 0 <= i < |pair| ==> PairCopyable(pair[i])
    ensures pbpair == PairsToPb(pair)
  {
    var target := new PbPair[|pair|](i => PbPair([], false, []));
    for i := 0 to |pair|
      invariant target[..i] == PairsToPb(pair)[..i]
    {
      var q := PbPair(pair[i].key.value, false, []);
      if pair[i].hasValue {
        q := q.(hasValue := true);
        q := q.(value := pair[i].value.value);
      }
      target[i] := q;
    }
    pbpair := target[..];
  }

  /** riak_pairs_copy_array_from_pb. */
  method PairsCopyFromPb(pbpair: seq<PbPair>) returns (pair: seq<Pair>)
    ensures pair == PairsFromPb(pbpair)
  {
    var target := new Pair[|pbpair|](i => Pair(None, false, None));
    for i := 0 to |pbpair|
      invariant target[..i] == PairsFromPb(pbpair)[..i]
    {
      var p := Pair(Some(pbpair[i].key), false, None);
      if pbpair[i].hasValue {
        p := p.(hasValue := true);
        p := p.(value := Some(pbpair[i].value));
      }
      target[i] := p;
    }
    pair := target[..];
  }

  /** riak_links_copy_to_pb. */
  method LinksCopyToPb(link: seq<Link>) returns (pblink: seq<PbLink>)
    requires forall i :: 0 <= i < |link| ==> LinkCopyable(link[i])
    ensures pblink == LinksToPb(link)
  {
    var target := new PbLink[|link|](i => PbLink(false, [], false, [], false, []));
    for i := 0 to |link|
      invariant target[..i] == LinksToPb(link)[..i]
    {
      var q := PbLink(false, [], false, [], false, []);
      if link[i].hasBucket {
        q := q.(hasBucket := true, bucket := link[i].bucket.value);
      }
      if link[i].hasKey {
        q := q.(hasKey := true, key := link[i].key.value);
      }
      if link[i].hasTag {
        q := q.(hasTag := true, tag := link[i].tag.value);
      }
      target[i] := q;
    }
    pblink := target[..];
  }

  /** riak_links_copy_from_pb. */
  method LinksCopyFromPb(pblink: seq<PbLink>) returns (link: seq<Link>)
    ensures link == LinksFromPb(pblink)
  {
    var target := new Link[|pblink|](i => Link(false, None, false, None, false, None));
    for i := 0 to |pblink|
      invariant target[..i] == LinksFromPb(pblink)[..i]
    {
      var l := Link(false, None, false, None, false, None);
      if pblink[i].hasBucket {
        l := l.(hasBucket := true, bucket := Some(pblink[i].bucket));
      }
      if pblink[i].hasKey {
        l := l.(hasKey := true, key := Some(pblink[i].key));
      }
      if pblink[i].hasTag {
        l := l.(hasTag := true, tag := Some(pblink[i].tag));
      }
      target[i] := l;
    }
    link := target[..];
  }

  /** The record being filled. */
  class RpbContent {
    var fields: Content

    constructor ()
      ensures fields == INITIALISED
    {
      fields := INITIALISED;
    }

    /** riak_object_to_pb_copy. */
    method CopyFrom(from: Object)
      requires Copyable(from)
      modifies this
      ensures fields == ToPb(old(fields), from)
    {
      CopyBinaries(from);
      CopyNumbers(from);
      CopyArrays(from);
    }

    method CopyBinaries(from: Object)
      requires Copyable(from)
      modifies this
      ensures fields == BinariesToPb(old(fields), from)
    {
      fields := fields.(value := from.value.value);
      if from.hasCharset {
        fields := fields.(hasCharset := true, charset := from.charset.value);
      }
      if from.hasEncoding {
        fields := fields.(hasEncoding := true, encoding := from.encoding.value);
      }
      if from.hasContentType {
        fields := fields.(hasContentType := true, contentType := from.contentType.value);
      }
      if from.hasVtag {
        fields := fields.(hasVtag := true, vtag := from.vtag.value);
      }
    }

    method CopyNumbers(from: Object)
      modifies this
      ensures fields == NumbersToPb(old(fields), from)
    {
      if from.hasDeleted {
        fields := fields.(hasDeleted := true, deleted := from.deleted);
      }
      if from.hasLastMod {
        fields := fields.(hasLastMod := true, lastMod := from.lastMod);
      }
      if from.hasLastModUsecs {
        fields := fields.(hasLastModUsecs := true, lastModUsecs := from.lastModUsecs);
      }
    }

    method CopyArrays(from: Object)
      requires Copyable(from)
      modifies this
      ensures fields == ArraysToPb(old(fields), from)
    {
      if |from.indexes| > 0 {
        var indexes := PairsCopyToPb(from.indexes);
        fields := fields.(indexes := indexes);
      }
      if |from.usermeta| > 0 {
        var usermeta := PairsCopyToPb(from.usermeta);
        fields := fields.(usermeta := usermeta);
      }
      if |from.links| > 0 {
        var links := LinksCopyToPb(from.links);
        fields := fields.(links := links);
      }
    }
  }

  class RiakObject {
    var fields: Object

    constructor ()
      ensures fields == CLEARED
    {
      fields := CLEARED;
    }

    method FillBinaries(from: Content)
      requires fields == CLEARED
      modifies this
      ensures fields == BinariesFromPb(from)
    {
      fields := fields.(value := Some(from.value));
      if from.hasCharset {
        fields := fields.(hasCharset := true, charset := Some(from.charset));
      }
      if from.hasEncoding {
        fields := fields.(hasEncoding := true, encoding := Some(from.encoding));
      }
      if from.hasContentType {
        fields := fields.(hasContentType := true, contentType := Some(from.contentType));
      }
      if from.hasVtag {
        fields := fields.(hasVtag := true, vtag := Some(from.vtag));
      }
    }

    method FillNumbers(from: Content)
      modifies this
      ensures fields == NumbersFromPb(old(fields), from)
    {
      if from.hasDeleted {
        fields := fields.(hasDeleted := true, deleted := from.deleted);
      }
      if from.hasLastMod {
        fields := fields.(hasLastMod := true, lastMod := from.lastMod);
      }
      if from.hasLastModUsecs {
        fields := fields.(hasLastModUsecs := true, lastModUsecs := from.lastModUsecs);
      }
    }

    method FillArrays(from: Content)
      modifies this
      ensures fields == ArraysFromPb(old(fields), from)
    {
      if |from.indexes| > 0 {
        var indexes := PairsCopyFromPb(from.indexes);
        fields := fields.(indexes := indexes);
      }
      if |from.usermeta| > 0 {
        var usermeta := PairsCopyFromPb(from.usermeta);
        fields := fields.(usermeta := usermeta);
      }
      if |from.links| > 0 {
        var links := LinksCopyFromPb(from.links);
        fields := fields.(links := links);
      }
    }
  }

  /** riak_object_new_from_pb. */
  method NewFromPb(from: RpbContent) returns (to: RiakObject)
    ensures fresh(to) && to.fields == FromPb(from.fields)
  {
    var source := from.fields;
    to := new RiakObject();
    to.FillBinaries(source);
    to.FillNumbers(source);
    to.FillArrays(source);
  }

  // ----- Every field lands in its place -----

  /** An optional binary copied onto a field that may already hold something. */
  predicate BinaryLands(has: bool, x: Option<Binary>, had: bool, was: Binary, has': bool, now: Binary) {
    has' == (had || has) && if has then x == Some(now) else now == was
  }

  predicate NumberLands(has: bool, x: nat, had: bool, was: nat, has': bool, now: nat) {
    has' == (had || has) && now == if has then x else was
  }

  predicate PairLands(p: Pair, q: PbPair) {
    p.key == Some(q.key) && BinaryLands(p.hasValue, p.value, false, [], q.hasValue, q.value)
  }

  predicate LinkLands(l: Link, m: PbLink) {
    && BinaryLands(l.hasBucket, l.bucket, false, [], m.hasBucket, m.bucket)
    && BinaryLands(l.hasKey, l.key, false, [], m.hasKey, m.key)
    && BinaryLands(l.hasTag, l.tag, false, [], m.hasTag, m.tag)
  }

  predicate PairsLand(ps: seq<Pair>, was: seq<PbPair>, now: seq<PbPair>) {
    if ps == [] then now == was else |now| == |ps| && forall i :: 0 <= i < |ps| ==> PairLands(ps[i], now[i])
  }

  /** Copying an object onto any record: each field of the record is that of the object where the object
      has it, and is left alone where it has not. */
  lemma EveryFieldLands(to: Content, from: Object)
    requires Copyable(from)
    ensures var r := ToPb(to, from);
            && from.value == Some(r.value)
            && BinaryLands(from.hasCharset, from.charset, to.hasCharset, to.charset, r.hasCharset, r.charset)
            && BinaryLands(from.hasEncoding, from.encoding, to.hasEncoding, to.encoding, r.hasEncoding, r.encoding)
            && BinaryLands(from.hasContentType, from.contentType, to.hasContentType, to.contentType, r.hasContentType, r.contentType)
            && BinaryLands(from.hasVtag, from.vtag, to.hasVtag, to.vtag, r.hasVtag, r.vtag)
            && r.hasDeleted == (to.hasDeleted || from.hasDeleted)
            && r.deleted == (if from.hasDeleted then from.deleted else to.deleted)
            && NumberLands(from.hasLastMod, from.lastMod, to.hasLastMod, to.lastMod, r.hasLastMod, r.lastMod)
            && NumberLands(from.hasLastModUsecs, from.lastModUsecs, to.hasLastModUsecs, to.lastModUsecs,
                           r.hasLastModUsecs, r.lastModUsecs)
    ensures var r := ToPb(to, from);
            && PairsLand(from.indexes, to.indexes, r.indexes) && PairsLand(from.usermeta, to.usermeta, r.usermeta)
            && if from.links == [] then r.links == to.links
               else |r.links| == |from.links| && forall i :: 0 <= i < |from.links| ==> LinkLands(from.links[i], r.links[i])
  {
  }

  /** A field of a record read into a cleared object. */
  predicate BinaryArrives(has: bool, x: Binary, has': bool, now: Option<Binary>) {
    has' == has && now == if has then Some(x) else None
  }

  predicate PairArrives(q: PbPair, p: Pair) {
    p.key == Some(q.key) && BinaryArrives(q.hasValue, q.value, p.hasValue, p.value)
  }

  predicate LinkArrives(m: PbLink, l: Link) {
    && BinaryArrives(m.hasBucket, m.bucket, l.hasBucket, l.bucket)
    && BinaryArrives(m.hasKey, m.key, l.hasKey, l.key)
    && BinaryArrives(m.hasTag, m.tag, l.hasTag, l.tag)
  }

  predicate PairsArrive(qs: seq<PbPair>, ps: seq<Pair>) {
    |ps| == |qs| && forall i :: 0 <= i < |qs| ==> PairArrives(qs[i], ps[i])
  }

  /** A new object made of any record has each field that the record has, in its place, and no other. */
  lemma EveryFieldArrives(from: Content)
    ensures var o := FromPb(from);
            && o.value == Some(from.value)
            && BinaryArrives(from.hasCharset, from.charset, o.hasCharset, o.charset)
            && BinaryArrives(from.hasEncoding, from.encoding, o.hasEncoding, o.encoding)
            && BinaryArrives(from.hasContentType, from.contentType, o.hasContentType, o.contentType)
            && BinaryArrives(from.hasVtag, from.vtag, o.hasVtag, o.vtag)
            && o.hasDeleted == from.hasDeleted && o.deleted == (from.hasDeleted && from.deleted)
            && o.hasLastMod == from.hasLastMod && o.lastMod == (if from.hasLastMod then from.lastMod else 0)
            && o.hasLastModUsecs == from.hasLastModUsecs
            && o.lastModUsecs == (if from.hasLastModUsecs then from.lastModUsecs else 0)
    ensures var o := FromPb(from);
            && PairsArrive(from.indexes, o.indexes) && PairsArrive(from.usermeta, o.usermeta)
            && |o.links| == |from.links| && (forall i :: 0 <= i < |from.links| ==> LinkArrives(from.links[i], o.links[i]))
            && o.bucket == None && o.key == None && o.bucketType == None && !o.hasKey && !o.hasBucketType
  {
  }

  // ----- The round trip -----

  /** A field comes back: the same flag, the same value if present, and nothing if absent. */
  predicate Returned(has: bool, x: Option<Binary>, has': bool, x': Option<Binary>) {
    has' == has && x' == if has then x else None
  }

  predicate PairReturned(p: Pair, p': Pair) {
    p'.key == p.key && Returned(p.hasValue, p.value, p'.hasValue, p'.value)
  }

  predicate LinkReturned(l: Link, l': Link) {
    && Returned(l.hasBucket, l.bucket, l'.hasBucket, l'.bucket)
    && Returned(l.hasKey, l.key, l'.hasKey, l'.key)
    && Returned(l.hasTag, l.tag, l'.hasTag, l'.tag)
  }

  predicate PairsReturned(ps: seq<Pair>, ps': seq<Pair>) {
    |ps'| == |ps| && forall i :: 0 <= i < |ps| ==> PairReturned(ps[i], ps'[i])
  }

  lemma PairsReturn(ps: seq<Pair>)
    requires forall i :: 0 <= i < |ps| ==> PairCopyable(ps[i])
    ensures PairsReturned(ps, PairsFromPb(PairsToPb(ps)))
  {
  }

  /** Converting an object to a fresh record and back preserves every presence flag, every present
      field, and all indexes, user metadata and links in order. Bucket, bucket type and key are not
      part of the record. */
  lemma ObjectRoundTrip(o: Object)
    requires Copyable(o)
    ensures var o' := FromPb(ToPb(INITIALISED, o));
            && o'.value == o.value
            && Returned(o.hasCharset, o.charset, o'.hasCharset, o'.charset)
            && Returned(o.hasEncoding, o.encoding, o'.hasEncoding, o'.encoding)
            && Returned(o.hasContentType, o.contentType, o'.hasContentType, o'.contentType)
            && Returned(o.hasVtag, o.vtag, o'.hasVtag, o'.vtag)
            && o'.hasDeleted == o.hasDeleted && (o.hasDeleted ==> o'.deleted == o.deleted)
            && o'.hasLastMod == o.hasLastMod && (o.hasLastMod ==> o'.lastMod == o.lastMod)
            && o'.hasLastModUsecs == o.hasLastModUsecs && (o.hasLastModUsecs ==> o'.lastModUsecs == o.lastModUsecs)
            && PairsReturned(o.indexes, o'.indexes) && PairsReturned(o.usermeta, o'.usermeta)
            && |o'.links| == |o.links| && (forall i :: 0 <= i < |o.links| ==> LinkReturned(o.links[i], o'.links[i]))
            && o'.bucket == None && o'.bucketType == None && o'.key == None && !o'.hasKey && !o'.hasBucketType
  {
    PairsReturn(o.indexes);
    PairsReturn(o.usermeta);
  }

  predicate NormalFields(c: Content) {
    && (!c.hasCharset ==> c.charset == [])
    && (!c.hasEncoding ==> c.encoding == [])
    && (!c.hasContentType ==> c.contentType == [])
    && (!c.hasVtag ==> c.vtag == [])
    && (!c.hasDeleted ==> !c.deleted)
    && (!c.hasLastMod ==> c.lastMod == 0)
    && (!c.hasLastModUsecs ==> c.lastModUsecs == 0)
  }

  predicate PairsNormal(qs: seq<PbPair>) {
    forall i :: 0 <= i < |qs| ==> !qs[i].hasValue ==> qs[i].value == []
  }

  predicate LinkNormal(l: PbLink) {
    && (!l.hasBucket ==> l.bucket == [])
    && (!l.hasKey ==> l.key == [])
    && (!l.hasTag ==> l.tag == [])
  }

  /** A record as the server packs it: fields whose flag is clear have their initial values. */
  predicate Normal(c: Content) {
    && NormalFields(c)
    && PairsNormal(c.indexes) && PairsNormal(c.usermeta)
    && (forall i :: 0 <= i < |c.links| ==> LinkNormal(c.links[i]))
  }

  lemma PbPairsReturn(qs: seq<PbPair>)
    ensures var ps := PairsFromPb(qs);
            && (forall i :: 0 <= i < |ps| ==> PairCopyable(ps[i]))
            && (PairsToPb(ps) == qs <==> PairsNormal(qs))
  {
    var ps := PairsFromPb(qs);
    forall i | 0 <= i < |qs|
      ensures PairCopyable(ps[i]) && (PairsToPb(ps)[i] == qs[i] <==> !qs[i].hasValue ==> qs[i].value == []) {
    }
  }

  lemma PbLinksReturn(qs: seq<PbLink>)
    ensures var ls := LinksFromPb(qs);
            && (forall i :: 0 <= i < |ls| ==> LinkCopyable(ls[i]))
            && (LinksToPb(ls) == qs <==> forall i :: 0 <= i < |qs| ==> LinkNormal(qs[i]))
  {
    var ls := LinksFromPb(qs);
    forall i | 0 <= i < |qs|
      ensures LinkCopyable(ls[i]) && (LinksToPb(ls)[i] == qs[i] <==> LinkNormal(qs[i])) {
    }
  }

  lemma FromPbIsCopyable(c: Content)
    ensures Copyable(FromPb(c))
    ensures FromPb(c).indexes == PairsFromPb(c.indexes) && FromPb(c).usermeta == PairsFromPb(c.usermeta)
    ensures FromPb(c).links == LinksFromPb(c.links)
  {
    PbPairsReturn(c.indexes);
    PbPairsReturn(c.usermeta);
    PbLinksReturn(c.links);
  }

  function WithoutArrays(c: Content): Content {
    c.(indexes := [], usermeta := [], links := [])
  }

  lemma FieldsReturn(c: Content)
    requires Copyable(FromPb(c))
    ensures var r := NumbersToPb(BinariesToPb(INITIALISED, FromPb(c)), FromPb(c));
            r == WithoutArrays(r) && (r == WithoutArrays(c) <==> NormalFields(c))
  {
  }

  lemma ArraysReturn(r: Content, o: Object, c: Content)
    requires Copyable(o) && r == WithoutArrays(r)
    requires o.indexes == PairsFromPb(c.indexes) && o.usermeta == PairsFromPb(c.usermeta) && o.links == LinksFromPb(c.links)
    ensures ArraysToPb(r, o) == c <==>
              r == WithoutArrays(c) && PairsNormal(c.indexes) && PairsNormal(c.usermeta)
              && forall i :: 0 <= i < |c.links| ==> LinkNormal(c.links[i])
  {
    PbPairsReturn(c.indexes);
    PbPairsReturn(c.usermeta);
    PbLinksReturn(c.links);
    assert ArraysToPb(r, o) ==
      r.(indexes := PairsToPb(o.indexes), usermeta := PairsToPb(o.usermeta), links := LinksToPb(o.links));
  }

  /** The other way round nothing at all is lost, exactly from records in that form. */
  lemma RecordRoundTrip(c: Content)
    ensures Copyable(FromPb(c))
    ensures ToPb(INITIALISED, FromPb(c)) == c <==> Normal(c)
  {
    var o := FromPb(c);
    FromPbIsCopyable(c);
    FieldsReturn(c);
    ArraysReturn(NumbersToPb(BinariesToPb(INITIALISED, o), o), o, c);
  }
}
