/** riak_object_compare: a sequence of checks that skips fields only one side has. */
module Comparison {
  import opened Wire
  import opened Binaries
  import opened Objects

  /** What the comparison may dereference: bucket, key, value, charset, content type and encoding,
      whether their flags are set or not; the tag of an object that has one; keys of pairs; and what
      the flags of pairs and links promise. */
  predicate Comparable(o: Object) {
    && o.bucket.Some? && o.key.Some? && o.value.Some?
    && o.charset.Some? && o.contentType.Some? && o.encoding.Some?
    && (o.hasVtag ==> o.vtag.Some?)
    && (forall i :: 0 <= i < |o.indexes| ==> PairCopyable(o.indexes[i]))
    && (forall i :: 0 <= i < |o.usermeta| ==> PairCopyable(o.usermeta[i]))
    && (forall i :: 0 <= i < |o.links| ==> LinkCopyable(o.links[i]))
  }

  // ----- The result, as a function -----

  /** The result of a check; None stands for the dereference of a NULL pointer. */
  type Check = Option<int>

  const EQUAL: Check := Some(0)

  function CompareBinary(a: Option<Binary>, b: Option<Binary>): Check {
    if a.Some? && b.Some? then Some(Compare(a.value, b.value)) else None
  }

  /** riak_object_compare_int. */
  function CompareInt(a: int, b: int): Check {
    Some(if a != b then 1 else 0)
  }

  function CompareFlag(a: bool, b: bool): Check {
    Some(if a != b then 1 else 0)
  }

  /** The first check that fails decides. */
  function Then(first: Check, rest: Check): Check {
    if first == EQUAL then rest else first
  }

  function CompareHead(a: Object, b: Object): Check {
    Then(CompareBinary(a.bucket, b.bucket),
    Then(CompareBinary(a.key, b.key),
    Then(CompareBinary(a.value, b.value),
    Then(CompareFlag(a.hasCharset, b.hasCharset),
    Then(CompareBinary(a.charset, b.charset),
    Then(CompareFlag(a.hasContentType, b.hasContentType),
    Then(CompareBinary(a.contentType, b.contentType),
    Then(CompareFlag(a.hasEncoding, b.hasEncoding),
    CompareBinary(a.encoding, b.encoding)))))))))
  }

  function CompareMiddle(a: Object, b: Object): Check {
    Then(if a.hasVtag && b.hasVtag then CompareBinary(a.vtag, b.vtag) else EQUAL,
    Then(if a.hasLastMod && b.hasLastMod then CompareInt(a.lastMod, b.lastMod) else EQUAL,
    Then(if a.hasLastModUsecs && b.hasLastModUsecs then CompareInt(a.lastModUsecs, b.lastModUsecs) else EQUAL,
    Then(CompareFlag(a.deleted, b.deleted),
    Then(CompareInt(|a.indexes|, |b.indexes|),
    Then(CompareInt(|a.links|, |b.links|),
    CompareInt(|a.usermeta|, |b.usermeta|)))))))
  }

  function ComparePair(p: Pair, q: Pair): Check {
    Then(CompareFlag(p.hasValue, q.hasValue),
    Then(CompareBinary(p.key, q.key),
    if p.hasValue then CompareBinary(p.value, q.value) else EQUAL))
  }

  function CompareLink(l: Link, m: Link): Check {
    Then(CompareFlag(l.hasBucket, m.hasBucket),
    Then(CompareFlag(l.hasKey, m.hasKey),
    Then(CompareFlag(l.hasTag, m.hasTag),
    Then(if l.hasBucket then CompareBinary(l.bucket, m.bucket) else EQUAL,
    Then(if l.hasKey then CompareBinary(l.key, m.key) else EQUAL,
    if l.hasTag then CompareBinary(l.tag, m.tag) else EQUAL)))))
  }

  /** The arrays are compared once their lengths are known to be equal. */
  function ComparePairs(ps: seq<Pair>, qs: seq<Pair>): Check {
    if ps == [] || qs == [] then EQUAL else Then(ComparePair(ps[0], qs[0]), ComparePairs(ps[1..], qs[1..]))
  }

  function CompareLinks(ls: seq<Link>, ms: seq<Link>): Check {
    if ls == [] || ms == [] then EQUAL else Then(CompareLink(ls[0], ms[0]), CompareLinks(ls[1..], ms[1..]))
  }

  function CompareObjects(a: Object, b: Object): Check {
    Then(Then(CompareHead(a, b), CompareMiddle(a, b)),
    Then(ComparePairs(a.indexes, b.indexes),
    Then(CompareLinks(a.links, b.links),
    ComparePairs(a.usermeta, b.usermeta))))
  }

  // ----- What zero means -----

  /** Both are there, with the same bytes. */
  predicate Equal(a: Option<Binary>, b: Option<Binary>) {
    a.Some? && a == b
  }

  predicate SamePair(p: Pair, q: Pair) {
    Equal(p.key, q.key) && p.hasValue == q.hasValue && (p.hasValue ==> Equal(p.value, q.value))
  }

  predicate SameLink(l: Link, m: Link) {
    && l.hasBucket == m.hasBucket && (l.hasBucket ==> Equal(l.bucket, m.bucket))
    && l.hasKey == m.hasKey && (l.hasKey ==> Equal(l.key, m.key))
    && l.hasTag == m.hasTag && (l.hasTag ==> Equal(l.tag, m.tag))
  }

  predicate SamePairs(ps: seq<Pair>, qs: seq<Pair>) {
    |ps| == |qs| && forall i :: 0 <= i < |ps| ==> SamePair(ps[i], qs[i])
  }

  predicate SameLinks(ls: seq<Link>, ms: seq<Link>) {
    |ls| == |ms| && forall i :: 0 <= i < |ls| ==> SameLink(ls[i], ms[i])
  }

  predicate SameHead(a: Object, b: Object) {
    && Equal(a.bucket, b.bucket) && Equal(a.key, b.key) && Equal(a.value, b.value)
    && a.hasCharset == b.hasCharset && Equal(a.charset, b.charset)
    && a.hasContentType == b.hasContentType && Equal(a.contentType, b.contentType)
    && a.hasEncoding == b.hasEncoding && Equal(a.encoding, b.encoding)
  }

  /** These three are compared only where both objects have them. */
  predicate SameOptional(a: Object, b: Object) {
    && (a.hasVtag && b.hasVtag ==> Equal(a.vtag, b.vtag))
    && (a.hasLastMod && b.hasLastMod ==> a.lastMod == b.lastMod)
    && (a.hasLastModUsecs && b.hasLastModUsecs ==> a.lastModUsecs == b.lastModUsecs)
  }

  /** Same contents, as far as the comparison looks. */
  predicate Same(a: Object, b: Object) {
    && SameHead(a, b) && SameOptional(a, b) && a.deleted == b.deleted
    && SamePairs(a.indexes, b.indexes) && SameLinks(a.links, b.links) && SamePairs(a.usermeta, b.usermeta)
  }

  lemma BinaryIsEqual(a: Option<Binary>, b: Option<Binary>)
    ensures CompareBinary(a, b) == EQUAL <==> Equal(a, b)
  {
    if a.Some? && b.Some? {
      CompareIsAnOrder(a.value, b.value, a.value);
    }
  }

  lemma HeadIsEqual(a: Object, b: Object)
    ensures CompareHead(a, b) == EQUAL <==> SameHead(a, b)
  {
    BinaryIsEqual(a.bucket, b.bucket);
    BinaryIsEqual(a.key, b.key);
    BinaryIsEqual(a.value, b.value);
    BinaryIsEqual(a.charset, b.charset);
    BinaryIsEqual(a.contentType, b.contentType);
    BinaryIsEqual(a.encoding, b.encoding);
  }

  lemma MiddleIsEqual(a: Object, b: Object)
    ensures CompareMiddle(a, b) == EQUAL <==>
              SameOptional(a, b) && a.deleted == b.deleted
              && |a.indexes| == |b.indexes| && |a.links| == |b.links| && |a.usermeta| == |b.usermeta|
  {
    BinaryIsEqual(a.vtag, b.vtag);
  }

  lemma PairIsEqual(p: Pair, q: Pair)
    ensures ComparePair(p, q) == EQUAL <==> SamePair(p, q)
  {
    BinaryIsEqual(p.key, q.key);
    BinaryIsEqual(p.value, q.value);
  }

  lemma LinkIsEqual(l: Link, m: Link)
    ensures CompareLink(l, m) == EQUAL <==> SameLink(l, m)
  {
    BinaryIsEqual(l.bucket, m.bucket);
    BinaryIsEqual(l.key, m.key);
    BinaryIsEqual(l.tag, m.tag);
  }

  lemma {:induction false} PairsAreEqual(ps: seq<Pair>, qs: seq<Pair>)
    requires |ps| == |qs|
    ensures ComparePairs(ps, qs) == EQUAL <==> SamePairs(ps, qs)
    decreases |ps|
  {
    if ps != [] {
      PairsAreEqual(ps[1..], qs[1..]);
      PairIsEqual(ps[0], qs[0]);
      assert forall i :: 0 < i < |ps| ==> ps[i] == ps[1..][i - 1] && qs[i] == qs[1..][i - 1];
    }
  }

  lemma {:induction false} LinksAreEqual(ls: seq<Link>, ms: seq<Link>)
    requires |ls| == |ms|
    ensures CompareLinks(ls, ms) == EQUAL <==> SameLinks(ls, ms)
    decreases |ls|
  {
    if ls != [] {
      LinksAreEqual(ls[1..], ms[1..]);
      LinkIsEqual(ls[0], ms[0]);
      assert forall i :: 0 < i < |ls| ==> ls[i] == ls[1..][i - 1] && ms[i] == ms[1..][i - 1];
    }
  }

  /** For any two objects, the comparison returns zero exactly when their contents are the same, as far
      as it looks, and what it looks at is there. */
  lemma ZeroExactlyWhenSame(a: Object, b: Object)
    ensures CompareObjects(a, b) == EQUAL <==> Same(a, b)
  {
    HeadIsEqual(a, b);
    MiddleIsEqual(a, b);
    if CompareMiddle(a, b) == EQUAL {
      PairsAreEqual(a.indexes, b.indexes);
      LinksAreEqual(a.links, b.links);
      PairsAreEqual(a.usermeta, b.usermeta);
    }
  }

  lemma {:induction false} PairsDoNotCrash(ps: seq<Pair>, qs: seq<Pair>)
    requires forall i :: 0 <= i < |ps| ==> PairCopyable(ps[i])
    requires forall i :: 0 <= i < |qs| ==> PairCopyable(qs[i])
    ensures ComparePairs(ps, qs).Some?
    decreases |ps|
  {
    if ps != [] && qs != [] {
      PairsDoNotCrash(ps[1..], qs[1..]);
    }
  }

  lemma {:induction false} LinksDoNotCrash(ls: seq<Link>, ms: seq<Link>)
    requires forall i :: 0 <= i < |ls| ==> LinkCopyable(ls[i])
    requires forall i :: 0 <= i < |ms| ==> LinkCopyable(ms[i])
    ensures CompareLinks(ls, ms).Some?
    decreases |ls|
  {
    if ls != [] && ms != [] {
      LinksDoNotCrash(ls[1..], ms[1..]);
    }
  }

  lemma ScalarsDoNotCrash(a: Object, b: Object)
    requires Comparable(a) && Comparable(b)
    ensures CompareHead(a, b).Some? && CompareMiddle(a, b).Some?
  {
  }

  /** Comparable objects are compared without touching a NULL pointer; comparing an object with itself
      goes well exactly if it is comparable. */
  lemma ComparableObjectsDoNotCrash(a: Object, b: Object)
    ensures Comparable(a) && Comparable(b) ==> CompareObjects(a, b).Some?
    ensures CompareObjects(a, a) == EQUAL <==> Comparable(a)
  {
    if Comparable(a) && Comparable(b) {
      PairsDoNotCrash(a.indexes, b.indexes);
      LinksDoNotCrash(a.links, b.links);
      PairsDoNotCrash(a.usermeta, b.usermeta);
      ScalarsDoNotCrash(a, b);
    }
    ZeroExactlyWhenSame(a, a);
  }

  // ----- The comparison as code -----

  method CompareScalars(obj1: Object, obj2: Object) returns (result: Check)
    ensures result == Then(CompareHead(obj1, obj2), CompareMiddle(obj1, obj2))
  {
    result := CompareBinary(obj1.bucket, obj2.bucket);
    if result != EQUAL { return; }
    result := CompareBinary(obj1.key, obj2.key);
    if result != EQUAL { return; }
    result := CompareBinary(obj1.value, obj2.value);
    if result != EQUAL { return; }
    result := CompareFlag(obj1.hasCharset, obj2.hasCharset);
    if result != EQUAL { return; }
    result := CompareBinary(obj1.charset, obj2.charset);
    if result != EQUAL { return; }
    result := CompareFlag(obj1.hasContentType, obj2.hasContentType);
    if result != EQUAL { return; }
    result := CompareBinary(obj1.contentType, obj2.contentType);
    if result != EQUAL { return; }
    result := CompareFlag(obj1.hasEncoding, obj2.hasEncoding);
    if result != EQUAL { return; }
    result := CompareBinary(obj1.encoding, obj2.encoding);
    if result != EQUAL { return; }
    // these only where both sides have them
    if obj1.hasVtag && obj2.hasVtag {
      result := CompareBinary(obj1.vtag, obj2.vtag);
      if result != EQUAL { return; }
    }
    if obj1.hasLastMod && obj2.hasLastMod {
      result := CompareInt(obj1.lastMod, obj2.lastMod);
      if result != EQUAL { return; }
    }
    if obj1.hasLastModUsecs && obj2.hasLastModUsecs {
      result := CompareInt(obj1.lastModUsecs, obj2.lastModUsecs);
      if result != EQUAL { return; }
    }
    result := CompareFlag(obj1.deleted, obj2.deleted);
    if result != EQUAL { return; }
    result := CompareInt(|obj1.indexes|, |obj2.indexes|);
    if result != EQUAL { return; }
    result := CompareInt(|obj1.links|, |obj2.links|);
    if result != EQUAL { return; }
    result := CompareInt(|obj1.usermeta|, |obj2.usermeta|);
  }

  /** The loop over indexes, and over user metadata. */
  method ComparePairArrays(ps: seq<Pair>, qs: seq<Pair>) returns (result: Check)
    requires |ps| == |qs|
    ensures result == ComparePairs(ps, qs)
  {
    result := EQUAL;
    for i := 0 to |ps|
      invariant result == EQUAL
      invariant ComparePairs(ps, qs) == ComparePairs(ps[i..], qs[i..])
    {
      assert ps[i..][1..] == ps[i + 1..] && qs[i..][1..] == qs[i + 1..];
      result := CompareFlag(ps[i].hasValue, qs[i].hasValue);
      if result != EQUAL { return; }
      result := CompareBinary(ps[i].key, qs[i].key);
      if result != EQUAL { return; }
      if ps[i].hasValue {
        result := CompareBinary(ps[i].value, qs[i].value);
        if result != EQUAL { return; }
      }
    }
  }

  /** One turn of the loop over links. */
  method CompareLinkAt(l: Link, m: Link) returns (result: Check)
    ensures result == CompareLink(l, m)
  {
    result := CompareFlag(l.hasBucket, m.hasBucket);
    if result != EQUAL { return; }
    result := CompareFlag(l.hasKey, m.hasKey);
    if result != EQUAL { return; }
    result := CompareFlag(l.hasTag, m.hasTag);
    if result != EQUAL { return; }
    if l.hasBucket {
      result := CompareBinary(l.bucket, m.bucket);
      if result != EQUAL { return; }
    }
    if l.hasKey {
      result := CompareBinary(l.key, m.key);
      if result != EQUAL { return; }
    }
    if l.hasTag {
      result := CompareBinary(l.tag, m.tag);
    }
  }

  /** The loop over links. */
  method CompareLinkArrays(ls: seq<Link>, ms: seq<Link>) returns (result: Check)
    requires |ls| == |ms|
    ensures result == CompareLinks(ls, ms)
  {
    result := EQUAL;
    for i := 0 to |ls|
      invariant result == EQUAL
      invariant CompareLinks(ls, ms) == CompareLinks(ls[i..], ms[i..])
    {
      assert ls[i..][1..] == ls[i + 1..] && ms[i..][1..] == ms[i + 1..];
      result := CompareLinkAt(ls[i], ms[i]);
      if result != EQUAL { return; }
    }
  }

  /** riak_object_compare_internal, without its debugging output. */
  method CompareInternal(obj1: Object, obj2: Object) returns (result: Check)
    ensures result == CompareObjects(obj1, obj2)
    ensures result == EQUAL <==> Same(obj1, obj2)
  {
    ZeroExactlyWhenSame(obj1, obj2);
    result := CompareScalars(obj1, obj2);
    if result != EQUAL { return; }
    MiddleIsEqual(obj1, obj2);
    result := ComparePairArrays(obj1.indexes, obj2.indexes);
    if result != EQUAL { return; }
    result := CompareLinkArrays(obj1.links, obj2.links);
    if result != EQUAL { return; }
    result := ComparePairArrays(obj1.usermeta, obj2.usermeta);
  }

  // ----- Which check decides -----

  /** What one check of the comparison looks at. */
  datatype Looked =
    | Binaries(x: Option<Binary>, y: Option<Binary>)
    | Flags(p: bool, q: bool)
    | Numbers(m: int, n: int)
    | PairArrays(ps: seq<Pair>, qs: seq<Pair>)
    | LinkArrays(ls: seq<Link>, ms: seq<Link>)
    | Nothing
  {
    predicate Agrees() {
      match this
      case Binaries(x, y) => Equal(x, y)
      case Flags(p, q) => p == q
      case Numbers(m, n) => m == n
      case PairArrays(ps, qs) => SamePairs(ps, qs)
      case LinkArrays(ls, ms) => SameLinks(ls, ms)
      case Nothing => true
    }
  }

  const CHECKS: nat := 19

  /** The checks in the order of the code. */
  function LooksAt(a: Object, b: Object, k: nat): Looked {
    match k
    case 0 => Binaries(a.bucket, b.bucket)
    case 1 => Binaries(a.key, b.key)
    case 2 => Binaries(a.value, b.value)
    case 3 => Flags(a.hasCharset, b.hasCharset)
    case 4 => Binaries(a.charset, b.charset)
    case 5 => Flags(a.hasContentType, b.hasContentType)
    case 6 => Binaries(a.contentType, b.contentType)
    case 7 => Flags(a.hasEncoding, b.hasEncoding)
    case 8 => Binaries(a.encoding, b.encoding)
    case 9 => if a.hasVtag && b.hasVtag then Binaries(a.vtag, b.vtag) else Nothing
    case 10 => if a.hasLastMod && b.hasLastMod then Numbers(a.lastMod, b.lastMod) else Nothing
    case 11 => if a.hasLastModUsecs && b.hasLastModUsecs then Numbers(a.lastModUsecs, b.lastModUsecs) else Nothing
    case 12 => Flags(a.deleted, b.deleted)
    case 13 => Numbers(|a.indexes|, |b.indexes|)
    case 14 => Numbers(|a.links|, |b.links|)
    case 15 => Numbers(|a.usermeta|, |b.usermeta|)
    case 16 => PairArrays(a.indexes, b.indexes)
    case 17 => LinkArrays(a.links, b.links)
    case 18 => PairArrays(a.usermeta, b.usermeta)
    case _ => Nothing
  }

  predicate AgreeBefore(a: Object, b: Object, k: nat) {
    forall h :: 0 <= h < k ==> LooksAt(a, b, h).Agrees()
  }

  /** The result of a check that does not agree, for two binaries, flags or numbers; for arrays, that of
      the first elements that do not agree. */
  predicate Decides(l: Looked, result: Check) {
    match l
    case Binaries(x, y) => result == if x.Some? && y.Some? then Some(Compare(x.value, y.value)) else None
    case Flags(_, _) => result == Some(1)
    case Numbers(_, _) => result == Some(1)
    case PairArrays(ps, qs) => result == ComparePairs(ps, qs)
    case LinkArrays(ls, ms) => result == CompareLinks(ls, ms)
    case Nothing => false
  }

  lemma HeadDecides(a: Object, b: Object, k: nat)
    requires k <= 8 && AgreeBefore(a, b, k) && !LooksAt(a, b, k).Agrees()
    ensures CompareHead(a, b) != EQUAL && Decides(LooksAt(a, b, k), CompareHead(a, b))
  {
    assert forall h :: 0 <= h < k ==> LooksAt(a, b, h).Agrees();
    assert k > 0 ==> LooksAt(a, b, 0).Agrees();
    assert k > 1 ==> LooksAt(a, b, 1).Agrees();
    assert k > 2 ==> LooksAt(a, b, 2).Agrees();
    assert k > 3 ==> LooksAt(a, b, 3).Agrees();
    assert k > 4 ==> LooksAt(a, b, 4).Agrees();
    assert k > 5 ==> LooksAt(a, b, 5).Agrees();
    assert k > 6 ==> LooksAt(a, b, 6).Agrees();
    assert k > 7 ==> LooksAt(a, b, 7).Agrees();
    HeadIsEqual(a, b);
    BinaryIsEqual(a.bucket, b.bucket);
    BinaryIsEqual(a.key, b.key);
    BinaryIsEqual(a.value, b.value);
    BinaryIsEqual(a.charset, b.charset);
    BinaryIsEqual(a.contentType, b.contentType);
    BinaryIsEqual(a.encoding, b.encoding);
  }

  lemma HeadAgrees(a: Object, b: Object, k: nat)
    requires k >= 9 && AgreeBefore(a, b, k)
    ensures CompareHead(a, b) == EQUAL
  {
    assert LooksAt(a, b, 0).Agrees() && LooksAt(a, b, 1).Agrees() && LooksAt(a, b, 2).Agrees();
    assert LooksAt(a, b, 3).Agrees() && LooksAt(a, b, 4).Agrees() && LooksAt(a, b, 5).Agrees();
    assert LooksAt(a, b, 6).Agrees() && LooksAt(a, b, 7).Agrees() && LooksAt(a, b, 8).Agrees();
    HeadIsEqual(a, b);
  }

  lemma MiddleDecides(a: Object, b: Object, k: nat)
    requires 9 <= k <= 15 && AgreeBefore(a, b, k) && !LooksAt(a, b, k).Agrees()
    ensures CompareMiddle(a, b) != EQUAL && Decides(LooksAt(a, b, k), CompareMiddle(a, b))
  {
    assert k > 9 ==> LooksAt(a, b, 9).Agrees();
    assert k > 10 ==> LooksAt(a, b, 10).Agrees();
    assert k > 11 ==> LooksAt(a, b, 11).Agrees();
    assert k > 12 ==> LooksAt(a, b, 12).Agrees();
    assert k > 13 ==> LooksAt(a, b, 13).Agrees();
    assert k > 14 ==> LooksAt(a, b, 14).Agrees();
    BinaryIsEqual(a.vtag, b.vtag);
  }

  lemma MiddleAgrees(a: Object, b: Object, k: nat)
    requires k >= 16 && AgreeBefore(a, b, k)
    ensures CompareMiddle(a, b) == EQUAL
    ensures |a.indexes| == |b.indexes| && |a.links| == |b.links| && |a.usermeta| == |b.usermeta|
  {
    assert LooksAt(a, b, 9).Agrees() && LooksAt(a, b, 10).Agrees() && LooksAt(a, b, 11).Agrees();
    assert LooksAt(a, b, 12).Agrees() && LooksAt(a, b, 13).Agrees();
    assert LooksAt(a, b, 14).Agrees() && LooksAt(a, b, 15).Agrees();
    MiddleIsEqual(a, b);
  }

  lemma ArraysDecide(a: Object, b: Object, k: nat)
    requires 16 <= k < CHECKS && AgreeBefore(a, b, k) && !LooksAt(a, b, k).Agrees()
    ensures CompareObjects(a, b) != EQUAL && Decides(LooksAt(a, b, k), CompareObjects(a, b))
  {
    HeadAgrees(a, b, k);
    MiddleAgrees(a, b, k);
    PairsAreEqual(a.indexes, b.indexes);
    LinksAreEqual(a.links, b.links);
    PairsAreEqual(a.usermeta, b.usermeta);
    assert k > 16 ==> LooksAt(a, b, 16).Agrees();
    assert k > 17 ==> LooksAt(a, b, 17).Agrees();
  }

  /** For any two objects the first check, in the order of the code, that does not agree decides the
      result, whatever all later fields are: two binaries by their order, or by a NULL dereference if
      one of them is absent; flags, numbers and lengths by 1. */
  lemma FirstDifferenceDecides(a: Object, b: Object, k: nat)
    requires k < CHECKS && AgreeBefore(a, b, k) && !LooksAt(a, b, k).Agrees()
    ensures CompareObjects(a, b) != EQUAL && Decides(LooksAt(a, b, k), CompareObjects(a, b))
  {
    if k <= 8 {
      HeadDecides(a, b, k);
    } else if k <= 15 {
      HeadAgrees(a, b, k);
      MiddleDecides(a, b, k);
    } else {
      ArraysDecide(a, b, k);
    }
  }

  /** The check touches a NULL pointer. */
  predicate TouchesNull(l: Looked) {
    match l
    case Binaries(x, y) => x.None? || y.None?
    case PairArrays(ps, qs) => ComparePairs(ps, qs) == None
    case LinkArrays(ls, ms) => CompareLinks(ls, ms) == None
    case _ => false
  }

  lemma FirstDifference(a: Object, b: Object, n: nat) returns (k: nat)
    requires !AgreeBefore(a, b, n)
    ensures k < n && AgreeBefore(a, b, k) && !LooksAt(a, b, k).Agrees()
    decreases n
  {
    if AgreeBefore(a, b, n - 1) {
      k := n - 1;
    } else {
      k := FirstDifference(a, b, n - 1);
    }
  }

  lemma AgreeingAllThrough(a: Object, b: Object)
    requires AgreeBefore(a, b, CHECKS)
    ensures CompareObjects(a, b) == EQUAL
  {
    HeadAgrees(a, b, CHECKS);
    MiddleAgrees(a, b, CHECKS);
    assert LooksAt(a, b, 16).Agrees() && LooksAt(a, b, 17).Agrees() && LooksAt(a, b, 18).Agrees();
    PairsAreEqual(a.indexes, b.indexes);
    LinksAreEqual(a.links, b.links);
    PairsAreEqual(a.usermeta, b.usermeta);
  }

  lemma AgreementTouchesNoNull(l: Looked)
    requires l.Agrees()
    ensures !TouchesNull(l)
  {
    match l
    case PairArrays(ps, qs) => PairsAreEqual(ps, qs);
    case LinkArrays(ls, ms) => LinksAreEqual(ls, ms);
    case _ =>
  }

  /** A NULL pointer is dereferenced exactly if some check looks at one and all before it agree. */
  lemma CrashesExactlyWhen(a: Object, b: Object)
    ensures CompareObjects(a, b) == None <==>
              exists k :: 0 <= k < CHECKS && AgreeBefore(a, b, k) && TouchesNull(LooksAt(a, b, k))
  {
    if AgreeBefore(a, b, CHECKS) {
      AgreeingAllThrough(a, b);
      forall k | 0 <= k < CHECKS ensures !TouchesNull(LooksAt(a, b, k)) {
        AgreementTouchesNoNull(LooksAt(a, b, k));
      }
    } else {
      var d := FirstDifference(a, b, CHECKS);
      FirstDifferenceDecides(a, b, d);
      forall k | 0 <= k < CHECKS && AgreeBefore(a, b, k) && k != d ensures !TouchesNull(LooksAt(a, b, k)) {
        AgreementTouchesNoNull(LooksAt(a, b, k));
      }
    }
  }

  /** Two pairs of an array: the value flags, then the keys, then the values if there are any. */
  lemma PairDecides(p: Pair, q: Pair)
    ensures var r := ComparePair(p, q);
            && (p.hasValue != q.hasValue ==> r == Some(1))
            && (p.hasValue == q.hasValue && (p.key.None? || q.key.None?) ==> r == None)
            && (p.hasValue == q.hasValue && p.key.Some? && q.key.Some? && p.key != q.key ==>
                  r == Some(Compare(p.key.value, q.key.value)))
            && (p.hasValue && q.hasValue && Equal(p.key, q.key) ==>
                  r == if p.value.Some? && q.value.Some? then Some(Compare(p.value.value, q.value.value)) else None)
            && (!p.hasValue && !q.hasValue && Equal(p.key, q.key) ==> r == EQUAL)
  {
    BinaryIsEqual(p.key, q.key);
  }

  /** Two links: the three flags, then bucket, key and tag where there are any. */
  lemma LinkDecides(l: Link, m: Link)
    ensures var r := CompareLink(l, m);
            && (l.hasBucket != m.hasBucket || l.hasKey != m.hasKey || l.hasTag != m.hasTag ==> r == Some(1))
            && (l.hasBucket == m.hasBucket && l.hasKey == m.hasKey && l.hasTag == m.hasTag ==>
                  if l.hasBucket && !Equal(l.bucket, m.bucket) then Decides(Binaries(l.bucket, m.bucket), r)
                  else if l.hasKey && !Equal(l.key, m.key) then Decides(Binaries(l.key, m.key), r)
                  else if l.hasTag then Decides(Binaries(l.tag, m.tag), r)
                  else r == EQUAL)
  {
    BinaryIsEqual(l.bucket, m.bucket);
    BinaryIsEqual(l.key, m.key);
  }

  /** In arrays of the same length the first elements that do not agree decide. */
  lemma {:induction false} FirstPairDecides(ps: seq<Pair>, qs: seq<Pair>, i: nat)
    requires |ps| == |qs| && i < |ps| && !SamePair(ps[i], qs[i])
    requires forall h :: 0 <= h < i ==> SamePair(ps[h], qs[h])
    ensures ComparePairs(ps, qs) == ComparePair(ps[i], qs[i]) != EQUAL
    decreases |ps|
  {
    PairIsEqual(ps[0], qs[0]);
    if i > 0 {
      FirstPairDecides(ps[1..], qs[1..], i - 1);
    }
  }

  lemma {:induction false} FirstLinkDecides(ls: seq<Link>, ms: seq<Link>, i: nat)
    requires |ls| == |ms| && i < |ls| && !SameLink(ls[i], ms[i])
    requires forall h :: 0 <= h < i ==> SameLink(ls[h], ms[h])
    ensures CompareLinks(ls, ms) == CompareLink(ls[i], ms[i]) != EQUAL
    decreases |ls|
  {
    LinkIsEqual(ls[0], ms[0]);
    if i > 0 {
      FirstLinkDecides(ls[1..], ms[1..], i - 1);
    }
  }

  // ----- What kind of relation it is -----

  lemma SameIsReflexiveAndSymmetric(a: Object, b: Object)
    ensures Same(a, a) <==> Comparable(a)
    ensures Same(a, b) <==> Same(b, a)
  {
  }

  /** Comparing equal is reflexive on comparable objects, and on no others, and symmetric on all. */
  lemma ZeroIsReflexiveAndSymmetric(a: Object, b: Object)
    ensures CompareObjects(a, a) == EQUAL <==> Comparable(a)
    ensures CompareObjects(a, b) == EQUAL <==> CompareObjects(b, a) == EQUAL
  {
    ZeroExactlyWhenSame(a, a);
    ZeroExactlyWhenSame(a, b);
    ZeroExactlyWhenSame(b, a);
    SameIsReflexiveAndSymmetric(a, b);
  }

  /** The object in the middle has each skippable field that both others have. */
  predicate Bridges(a: Object, b: Object, c: Object) {
    && (a.hasVtag && c.hasVtag ==> b.hasVtag)
    && (a.hasLastMod && c.hasLastMod ==> b.hasLastMod)
    && (a.hasLastModUsecs && c.hasLastModUsecs ==> b.hasLastModUsecs)
  }

  lemma SameIsTransitiveApartFromSkipped(a: Object, b: Object, c: Object)
    requires Same(a, b) && Same(b, c)
    ensures Same(a, c) <==> SameOptional(a, c)
    ensures Bridges(a, b, c) ==> SameOptional(a, c)
  {
  }

  /** It is transitive through any object that has the skippable fields both ends have; so among
      objects with the same fields present it is an equivalence. */
  lemma ZeroIsTransitiveThroughBridges(a: Object, b: Object, c: Object)
    requires CompareObjects(a, b) == EQUAL && CompareObjects(b, c) == EQUAL
    ensures Bridges(a, b, c) ==> CompareObjects(a, c) == EQUAL
    ensures CompareObjects(a, c) == EQUAL <==> SameOptional(a, c)
  {
    ZeroExactlyWhenSame(a, b);
    ZeroExactlyWhenSame(b, c);
    ZeroExactlyWhenSame(a, c);
    SameIsTransitiveApartFromSkipped(a, b, c);
  }

  lemma TagIsSkipped(o: Object, x: Binary)
    requires Comparable(o)
    ensures var tagged, untagged := o.(hasVtag := true, vtag := Some(x)), o.(hasVtag := false, vtag := None);
            Same(tagged, untagged) && Same(untagged, tagged)
  {
  }

  /** Without that it fails, for every comparable object: give it two different tags, and between them none. */
  lemma ZeroIsNotTransitive(o: Object, x: Binary, y: Binary)
    requires Comparable(o) && x != y
    ensures var a := o.(hasVtag := true, vtag := Some(x));
            var b := o.(hasVtag := false, vtag := None);
            var c := o.(hasVtag := true, vtag := Some(y));
            CompareObjects(a, b) == EQUAL && CompareObjects(b, c) == EQUAL && CompareObjects(a, c) != EQUAL
  {
    var a := o.(hasVtag := true, vtag := Some(x));
    var b := o.(hasVtag := false, vtag := None);
    var c := o.(hasVtag := true, vtag := Some(y));
    TagIsSkipped(o, x);
    TagIsSkipped(o, y);
    assert !SameOptional(a, c);
    ZeroExactlyWhenSame(a, b);
    ZeroExactlyWhenSame(b, c);
    ZeroExactlyWhenSame(a, c);
  }

  // ----- Comparison after conversion -----

  /** An object converted to a record and back, with the bucket and key the record does not carry. */
  function ReadBack(o: Object): Object
    requires Copyable(o)
  {
    FromPb(ToPb(INITIALISED, o)).(bucket := o.bucket, key := o.key)
  }

  lemma ReadBackKeepsArrays(o: Object)
    requires Copyable(o)
    ensures SamePairs(o.indexes, ReadBack(o).indexes) && SamePairs(o.usermeta, ReadBack(o).usermeta)
    ensures SameLinks(o.links, ReadBack(o).links)
    ensures forall i :: 0 <= i < |o.indexes| ==> PairCopyable(ReadBack(o).indexes[i])
    ensures forall i :: 0 <= i < |o.usermeta| ==> PairCopyable(ReadBack(o).usermeta[i])
    ensures forall i :: 0 <= i < |o.links| ==> LinkCopyable(ReadBack(o).links[i])
  {
    ObjectRoundTrip(o);
  }

  /** An object that has been read back compares equal to what was sent exactly if that was comparable,
      has charset, content type and encoding, since the comparison looks at them unconditionally, and
      no unflagged deletion mark was dropped on the way; and where one of the three is missing, comparing
      dereferences a NULL pointer. */
  lemma ReadBackComparesEqual(o: Object)
    requires Copyable(o)
    ensures CompareObjects(o, ReadBack(o)) == EQUAL <==>
              Comparable(o) && o.hasCharset && o.hasContentType && o.hasEncoding && (o.hasDeleted || !o.deleted)
    ensures Comparable(o) ==>
              (CompareObjects(o, ReadBack(o)) == None <==> !(o.hasCharset && o.hasContentType && o.hasEncoding))
  {
    ObjectRoundTrip(o);
    ReadBackKeepsArrays(o);
    ZeroExactlyWhenSame(o, ReadBack(o));
    SameIsReflexiveAndSymmetric(o, o);
    ComparableObjectsDoNotCrash(o, ReadBack(o));
  }
}
