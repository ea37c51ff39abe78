/** Bytes, 32-bit words as the host stores them, and the network order of Appendix B of RFC 791. */
module Wire {

  type byte = x: int | 0 <= x < 256

  type Binary = seq<byte>

  const TWO_TO_THE_31: int := 0x8000_0000
  const TWO_TO_THE_32: int := 0x1_0000_0000
  const TWO_TO_THE_63: int := 0x8000_0000_0000_0000
  const TWO_TO_THE_64: int := 0x1_0000_0000_0000_0000

  datatype Option<+T> = None | Some(value: T)

  datatype ByteOrder = BigEndian | LittleEndian

  /** The value of four bytes, most significant first. */
  function FromNetwork(bs: seq<byte>): (n: nat)
    requires |bs| == 4
    ensures n < TWO_TO_THE_32
  {
    var b0: int, b1: int, b2: int, b3: int := bs[0], bs[1], bs[2], bs[3];
    ((b0 * 256 + b1) * 256 + b2) * 256 + b3
  }

  /** The four bytes of a 32-bit word, most significant first. */
  function ToNetwork(n: nat): (bs: seq<byte>)
    requires n < TWO_TO_THE_32
    ensures |bs| == 4
  {
    [n / 0x100_0000, n / 0x1_0000 % 256, n / 256 % 256, n % 256]
  }

  lemma NetworkRoundTrip(n: nat)
    requires n < TWO_TO_THE_32
    ensures FromNetwork(ToNetwork(n)) == n
  {
    var q := n / 256;
    assert n == q * 256 + n % 256;
    assert q == (q / 256) * 256 + q % 256;
    assert q / 256 == n / 0x1_0000;
    assert n / 0x1_0000 == (n / 0x100_0000) * 256 + n / 0x1_0000 % 256;
  }

  lemma NetworkBytesRoundTrip(bs: seq<byte>)
    requires |bs| == 4
    ensures ToNetwork(FromNetwork(bs)) == bs
  {
    var n := FromNetwork(bs);
    var b0: int, b1: int, b2: int, b3: int := bs[0], bs[1], bs[2], bs[3];
    var hi := b0 * 256 + b1;
    var mid := hi * 256 + b2;
    assert n / 256 == mid && n % 256 == b3;
    assert n / 0x1_0000 == mid / 256 == hi;
    assert n / 0x100_0000 == hi / 256 == b0;
  }

  /** A number written with four digits of base 256, the first of which weighs most. */
  predicate Weighs(n: int, b0: int, b1: int, b2: int, b3: int) {
    n == 0x100_0000 * b0 + 0x1_0000 * b1 + 0x100 * b2 + b3
  }

  /** In network order the first byte weighs most. */
  lemma FirstByteWeighsMost(bs: seq<byte>, n: nat)
    requires |bs| == 4 && n < TWO_TO_THE_32
    ensures Weighs(FromNetwork(bs), bs[0], bs[1], bs[2], bs[3])
    ensures Weighs(n, ToNetwork(n)[0], ToNetwork(n)[1], ToNetwork(n)[2], ToNetwork(n)[3])
  {
    NetworkRoundTrip(n);
  }

  function Reversed4(bs: seq<byte>): (r: seq<byte>)
    requires |bs| == 4
    ensures |r| == 4
  {
    [bs[3], bs[2], bs[1], bs[0]]
  }

  /** How a 32-bit word lies in the host's memory. */
  function Memory(order: ByteOrder, word: nat): (bs: seq<byte>)
    requires word < TWO_TO_THE_32
    ensures |bs| == 4
  {
    if order == BigEndian then ToNetwork(word) else Reversed4(ToNetwork(word))
  }

  /** The 32-bit word that four bytes of the host's memory hold. */
  function Word(order: ByteOrder, bs: seq<byte>): (word: nat)
    requires |bs| == 4
    ensures word < TWO_TO_THE_32
  {
    if order == BigEndian then FromNetwork(bs) else FromNetwork(Reversed4(bs))
  }

  lemma WordRoundTrip(order: ByteOrder, bs: seq<byte>)
    requires |bs| == 4
    ensures Memory(order, Word(order, bs)) == bs
  {
    NetworkBytesRoundTrip(bs);
    NetworkBytesRoundTrip(Reversed4(bs));
  }

  /** On a big-endian host the byte at the lowest address weighs most, on a little-endian one least. */
  lemma MemoryByWeight(word: nat)
    requires word < TWO_TO_THE_32
    ensures var m := Memory(BigEndian, word); Weighs(word, m[0], m[1], m[2], m[3])
    ensures var m := Memory(LittleEndian, word); Weighs(word, m[3], m[2], m[1], m[0])
  {
    FirstByteWeighsMost(ToNetwork(word), word);
  }

  /** ntohl: reinterpret the word's memory as a network-order number. */
  function Ntohl(order: ByteOrder, word: nat): (n: nat)
    requires word < TWO_TO_THE_32
    ensures n < TWO_TO_THE_32
  {
    FromNetwork(Memory(order, word))
  }

  /** htonl: the word whose memory is the number in network order. */
  function Htonl(order: ByteOrder, n: nat): (word: nat)
    requires n < TWO_TO_THE_32
    ensures word < TWO_TO_THE_32
  {
    Word(order, ToNetwork(n))
  }

  /** On either host, ntohl of four received bytes is their network-order value, and
      the memory of htonl of a number is its network-order bytes. */
  lemma HostOrderIsInvisible(order: ByteOrder, bs: seq<byte>, n: nat)
    requires |bs| == 4 && n < TWO_TO_THE_32
    ensures Ntohl(order, Word(order, bs)) == FromNetwork(bs)
    ensures Memory(order, Htonl(order, n)) == ToNetwork(n)
  {
    WordRoundTrip(order, bs);
    WordRoundTrip(order, ToNetwork(n));
  }

  /** What `memory` holds after `data` is stored at `offset`. */
  function Overlay(memory: seq<byte>, offset: nat, data: seq<byte>): (r: seq<byte>)
    requires offset + |data| <= |memory|
    ensures |r| == |memory|
  {
    memory[..offset] + data + memory[offset + |data|..]
  }

  /** The conversion of an unsigned 64-bit number to `int`, which keeps the low 32 bits. */
  function AsInt32(n: nat): (j: int)
    ensures -TWO_TO_THE_31 <= j < TWO_TO_THE_31
    ensures n < TWO_TO_THE_31 ==> j == n
    ensures j <= n
  {
    var low := n % TWO_TO_THE_32;
    if low < TWO_TO_THE_31 then low else low - TWO_TO_THE_32
  }

  function Min(a: int, b: int): int {
    if a <= b then a else b
  }

  function Max(a: int, b: int): int {
    if a >= b then a else b
  }

  /** The elements of all chunks, in order. */
  function Concat<T>(chunks: seq<seq<T>>): (r: seq<T>) {
    if chunks == [] then [] else Concat(chunks[..|chunks| - 1]) + chunks[|chunks| - 1]
  }

  lemma {:induction false} ConcatSplit<T>(a: seq<seq<T>>, b: seq<seq<T>>)
    ensures Concat(a + b) == Concat(a) + Concat(b)
    decreases |b|
  {
    if b == [] {
      assert a + b == a;
    } else {
      var last := |b| - 1;
      assert (a + b)[..|a + b| - 1] == a + b[..last];
      assert (a + b)[|a + b| - 1] == b[last];
      ConcatSplit(a, b[..last]);
    }
  }
}
