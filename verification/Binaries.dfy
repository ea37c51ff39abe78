/** Byte strings: their order, and how they are printed into a bounded buffer. */
module Binaries {
  import opened Wire

  // ----- Order -----

  /** memcmp on two blocks of the same size. The C standard fixes only the sign of its result,
      which is what this is. */
  function Memcmp(a: Binary, b: Binary): (r: int)
    requires |a| == |b|
    ensures -1 <= r <= 1
    decreases |a|
  {
    if a == [] then 0
    else if a[0] < b[0] then -1
    else if a[0] > b[0] then 1
    else Memcmp(a[1..], b[1..])
  }

  /** riak_binary_compare. */
  function Compare(a: Binary, b: Binary): (r: int)
    ensures -1 <= r <= 1
  {
    if |a| > |b| then 1
    else if |a| < |b| then -1
    else Memcmp(a, b)
  }

  /** The length of a string in memory: the place of its first zero byte. */
  function Strlen(memory: seq<byte>): (n: nat)
    requires 0 in memory
    ensures n < |memory| && memory[n] == 0 && 0 !in memory[..n]
  {
    if memory[0] == 0 then 0 else
      assert memory == [memory[0]] + memory[1..];
      1 + Strlen(memory[1..])
  }

  /** `int len = strlen(str)`, as the comparison with an unsigned 64-bit length converts it. */
  function IntLength(len: nat): (n: nat)
    ensures len < TWO_TO_THE_31 ==> n == len
    ensures n <= len || n >= TWO_TO_THE_63
    ensures n < TWO_TO_THE_31 || n >= TWO_TO_THE_63
  {
    var j := AsInt32(len);
    if j < 0 then j + TWO_TO_THE_64 else j
  }

  /** riak_binary_compare_string. No block of memory has 2^63 bytes. */
  function CompareString(bin: Binary, memory: seq<byte>): (r: int)
    requires 0 in memory && |bin| < TWO_TO_THE_63
    ensures -1 <= r <= 1
  {
    var len := IntLength(Strlen(memory));
    if |bin| > len then 1
    else if |bin| < len then -1
    else Memcmp(bin, memory[..|bin|])
  }

  lemma {:induction false} MemcmpLaws(a: Binary, b: Binary)
    requires |a| == |b|
    ensures Memcmp(a, b) == 0 <==> a == b
    ensures Memcmp(a, b) == -Memcmp(b, a)
    decreases |a|
  {
    if a != [] {
      MemcmpLaws(a[1..], b[1..]);
      assert a == [a[0]] + a[1..] && b == [b[0]] + b[1..];
    }
  }

  lemma {:induction false} MemcmpIsTransitive(a: Binary, b: Binary, c: Binary)
    requires |a| == |b| == |c| && Memcmp(a, b) <= 0 && Memcmp(b, c) <= 0
    ensures Memcmp(a, c) <= 0
    decreases |a|
  {
    if a != [] && a[0] == b[0] == c[0] {
      MemcmpIsTransitive(a[1..], b[1..], c[1..]);
    }
  }

  /** The documented meaning: a shortlex order. It is zero exactly on equal byte strings, changes
      sign when the arguments change places, and is transitive; longer strings come later. */
  lemma CompareIsAnOrder(a: Binary, b: Binary, c: Binary)
    ensures Compare(a, b) == 0 <==> a == b
    ensures Compare(a, b) == -Compare(b, a)
    ensures Compare(a, b) <= 0 && Compare(b, c) <= 0 ==> Compare(a, c) <= 0
    ensures |a| < |b| ==> Compare(a, b) < 0
  {
    if |a| == |b| { MemcmpLaws(a, b); }
    if |a| == |b| == |c| && Compare(a, b) <= 0 && Compare(b, c) <= 0 { MemcmpIsTransitive(a, b, c); }
  }

  lemma {:induction false} CompareIsLexicographic(prefix: Binary, x: byte, y: byte, a: Binary, b: Binary)
    requires |a| == |b| && x < y
    ensures Compare(prefix + [x] + a, prefix + [y] + b) == -1
    decreases |prefix|
  {
    var s, t := prefix + [x] + a, prefix + [y] + b;
    if prefix != [] {
      CompareIsLexicographic(prefix[1..], x, y, a, b);
      assert s[1..] == prefix[1..] + [x] + a && t[1..] == prefix[1..] + [y] + b;
    }
  }

  /** Comparing any binary with the string is comparing it with the bytes before the first zero. */
  ghost predicate ComparesAsItsBytes(memory: seq<byte>)
    requires 0 in memory
  {
    forall bin: Binary :: |bin| < TWO_TO_THE_63 ==> CompareString(bin, memory) == Compare(bin, memory[..Strlen(memory)])
  }

  /** That is so exactly for strings shorter than 2^31 bytes, whose length fits an `int`. Such a string is
      equal to the binary of its bytes and to no other, so a binary that contains a zero byte equals none;
      a longer one differs even from the binary of its bytes. */
  lemma CompareStringAgrees(bin: Binary, memory: seq<byte>)
    requires 0 in memory && |bin| < TWO_TO_THE_63 && |memory| < TWO_TO_THE_63
    ensures ComparesAsItsBytes(memory) <==> Strlen(memory) < TWO_TO_THE_31
    ensures Strlen(memory) < TWO_TO_THE_31 ==>
              (CompareString(bin, memory) == 0 <==> bin == memory[..Strlen(memory)])
              && (0 in bin ==> CompareString(bin, memory) != 0)
    ensures Strlen(memory) >= TWO_TO_THE_31 ==> CompareString(memory[..Strlen(memory)], memory) != 0
  {
    var bytes := memory[..Strlen(memory)];
    CompareIsAnOrder(bin, bytes, []);
    CompareIsAnOrder(bytes, bytes, []);
    assert Strlen(memory) >= TWO_TO_THE_31 ==> CompareString(bytes, memory) != Compare(bytes, bytes);
  }

  // ----- Text -----

  /** The bytes of a binary; a NULL pointer has none. */
  function BytesOf(bin: Option<Binary>): Binary {
    if bin.Some? then bin.value else []
  }

  const DOT: byte := 46

  /** How a byte is shown: control characters as a dot, all others as they are. */
  function Shown(b: byte): byte {
    if b >= 32 then b else DOT
  }

  function Text(bin: Binary): (t: Binary)
    ensures |t| == |bin|
  {
    seq<byte>(|bin|, i requires 0 <= i < |bin| => Shown(bin[i]))
  }

  /** What a reader sees: printable text is itself, and every control character is a dot. */
  lemma TextIsShown(bin: Binary)
    ensures forall i :: 0 <= i < |bin| ==> Text(bin)[i] == if bin[i] >= 32 then bin[i] else 46
    ensures (forall i :: 0 <= i < |bin| ==> bin[i] >= 32) ==> Text(bin) == bin
  {
  }

  function HexDigit(nibble: nat): byte
    requires nibble < 16
  {
    if nibble < 10 then 48 + nibble else 87 + nibble
  }

  const HEX_DIGITS := "0123456789abcdef"

  lemma DigitIsListed(nibble: nat)
    requires nibble < 16
    ensures HexDigit(nibble) == HEX_DIGITS[nibble] as int
  {
  }

  function HexByte(b: byte): (t: Binary)
    ensures |t| == 2
  {
    [HexDigit(b / 16), HexDigit(b % 16)]
  }

  function Hex(bin: Binary): (t: Binary)
    ensures |t| == 2 * |bin|
  {
    if bin == [] then [] else Hex(bin[..|bin| - 1]) + HexByte(bin[|bin| - 1])
  }

  /** Byte i shows as two of these digits, the high one first. */
  lemma {:induction false} HexDigitByDigit(bin: Binary, i: nat)
    requires i < |bin|
    ensures Hex(bin)[2 * i] == HEX_DIGITS[bin[i] / 16] as int && Hex(bin)[2 * i + 1] == HEX_DIGITS[bin[i] % 16] as int
    decreases |bin|
  {
    if i < |bin| - 1 {
      HexDigitByDigit(bin[..|bin| - 1], i);
    } else {
      DigitIsListed(bin[i] / 16);
      DigitIsListed(bin[i] % 16);
    }
  }

  function FromDigit(c: byte): Option<nat> {
    if 48 <= c < 58 then Some(c - 48) else if 97 <= c < 103 then Some(c - 87) else None
  }

  /** Read hexadecimal text back. */
  function Unhex(t: Binary): Option<Binary>
    decreases |t|
  {
    if t == [] then Some([])
    else if |t| == 1 then None
    else
      var init, hi, lo := Unhex(t[..|t| - 2]), FromDigit(t[|t| - 2]), FromDigit(t[|t| - 1]);
      if init.Some? && hi.Some? && lo.Some? && hi.value < 16 && lo.value < 16
      then Some(init.value + [hi.value * 16 + lo.value]) else None
  }

  lemma {:induction false} UnhexReadsHex(bin: Binary)
    ensures Unhex(Hex(bin)) == Some(bin)
    decreases |bin|
  {
    if bin != [] {
      var init, b := bin[..|bin| - 1], bin[|bin| - 1];
      UnhexReadsHex(init);
      var t := Hex(bin);
      assert t[..|t| - 2] == Hex(init);
      assert t[|t| - 2] == HexDigit(b / 16) && t[|t| - 1] == HexDigit(b % 16);
      assert init + [b] == bin;
    }
  }

  // ----- Printing into memory -----

  /** `len - 1` on an unsigned 32-bit length. */
  function LessOne(len: nat): nat
    requires len < TWO_TO_THE_32
  {
    if len == 0 then TWO_TO_THE_32 - 1 else len - 1
  }

  /** How many bytes riak_binary_print shows, and how many it stores. */
  function TextCount(n: nat, len: nat): nat
    requires len < TWO_TO_THE_32
  {
    Min(n, LessOne(len))
  }

  function TextExtent(n: nat, len: nat): nat
    requires len < TWO_TO_THE_32
  {
    TextCount(n, len) + if len > 0 then 1 else 0
  }

  /** The same for riak_binary_hex_print: it goes on while twice the count is below len - 1. */
  function HexCount(n: nat, len: nat): nat
    requires len < TWO_TO_THE_32
  {
    Min(n, (LessOne(len) + 1) / 2)
  }

  lemma HexCountIs(n: nat, len: nat)
    requires len < TWO_TO_THE_32
    ensures HexCount(n, len) == Min(n, if len == 0 then TWO_TO_THE_31 else len / 2)
  {
  }

  function HexExtent(n: nat, len: nat): nat
    requires len < TWO_TO_THE_32
  {
    2 * HexCount(n, len) + if len > 0 then 1 else 0
  }

  /** Both printers are documented to store at most `len` bytes. The text printer does exactly when
      the length is not zero or there is nothing to show; the hexadecimal one, when the length is
      odd or the text and its terminator fit. */
  lemma StoresAtMostLenExactlyWhen(n: nat, len: nat)
    requires len < TWO_TO_THE_32
    ensures TextExtent(n, len) <= len <==> len > 0 || n == 0
    ensures HexExtent(n, len) <= len <==> len % 2 == 1 || 2 * n < len || n == 0
  {
  }

  /** `data` has been stored from `offset` on, and nothing else has changed. */
  predicate StoredAt(before: seq<byte>, after: seq<byte>, offset: nat, data: seq<byte>) {
    && |after| == |before| && offset + |data| <= |before|
    && after[..offset] == before[..offset]
    && after[offset..offset + |data|] == data
    && after[offset + |data|..] == before[offset + |data|..]
  }

  lemma StoreNext(before: seq<byte>, memory: seq<byte>, offset: nat, data: seq<byte>, c: byte)
    requires StoredAt(before, memory, offset, data) && offset + |data| < |memory|
    ensures StoredAt(before, memory[offset + |data| := c], offset, data + [c])
  {
    var after, end := memory[offset + |data| := c], offset + |data|;
    assert after[offset..end + 1] == memory[offset..end] + [c];
    assert after[end + 1..] == memory[end..][1..];
  }

  /** Store the byte that comes after `data`. */
  method Store(target: array<byte>, at: nat, c: byte, ghost before: seq<byte>, ghost offset: nat, ghost data: seq<byte>)
    requires StoredAt(before, target[..], offset, data) && at == offset + |data| < target.Length
    modifies target
    ensures StoredAt(before, target[..], offset, data + [c])
  {
    StoreNext(before, target[..], offset, data, c);
    ghost var after := target[..][at := c];
    target[at] := c;
    assert target[..] == after;
  }

  lemma StoredByByte(before: seq<byte>, after: seq<byte>, offset: nat, data: seq<byte>, end: seq<byte>)
    requires StoredAt(before, after, offset, data + end)
    ensures after[offset..offset + |data|] == data
    ensures end != [] ==> after[offset + |data|] == end[0]
  {
    var all := data + end;
    var stored := after[offset..offset + |all|];
    assert after[offset..offset + |data|] == stored[..|data|];
    assert end != [] ==> after[offset + |data|] == stored[|data|];
  }

  function Terminator(len: nat): Binary {
    if len > 0 then [0] else []
  }

  /** End the text with a NUL, if there is any room at all. */
  method Terminate(target: array<byte>, at: nat, len: nat, ghost before: seq<byte>, ghost offset: nat, ghost data: seq<byte>)
    requires StoredAt(before, target[..], offset, data) && at == offset + |data|
    requires len > 0 ==> at < target.Length
    modifies target
    ensures StoredAt(before, target[..], offset, data + Terminator(len))
  {
    if len > 0 {
      Store(target, at, 0, before, offset, data);
    } else {
      assert data + [] == data;
    }
  }

  method StoreHexByte(target: array<byte>, at: nat, b: byte, ghost before: seq<byte>, ghost offset: nat, ghost data: seq<byte>)
    requires StoredAt(before, target[..], offset, data) && at == offset + |data| < target.Length - 1
    modifies target
    ensures StoredAt(before, target[..], offset, data + HexByte(b))
  {
    Store(target, at, HexDigit(b / 16), before, offset, data);
    Store(target, at + 1, HexDigit(b % 16), before, offset, data + [HexDigit(b / 16)]);
    assert data + HexByte(b) == (data + [HexDigit(b / 16)]) + [HexDigit(b % 16)];
  }

  /** riak_binary_print. */
  method PrintText(bin: Option<Binary>, target: array<byte>, offset: nat, len: nat) returns (i: nat)
    requires len < TWO_TO_THE_32
    requires offset + TextExtent(|BytesOf(bin)|, len) <= target.Length
    modifies target
    ensures var shown := BytesOf(bin);
            && i == TextCount(|shown|, len)
            && StoredAt(old(target[..]), target[..], offset, Text(shown)[..i] + Terminator(len))
    ensures i == Min(|BytesOf(bin)|, if len == 0 then TWO_TO_THE_32 - 1 else len - 1)
    ensures var bytes, stored := BytesOf(bin), target[offset..offset + i];
            forall k :: 0 <= k < i ==> stored[k] == if bytes[k] >= 32 then bytes[k] else 46
    ensures len > 0 ==> target[offset + i] == 0
    ensures bin.None? ==> i == 0
  {
    var shown := BytesOf(bin);
    ghost var before := target[..];
    i := 0;
    while i < |shown| && i < LessOne(len)
      invariant i <= TextCount(|shown|, len)
      invariant StoredAt(before, target[..], offset, Text(shown)[..i])
    {
      var c := DOT;
      if shown[i] >= 32 { c := shown[i]; }
      Store(target, offset + i, c, before, offset, Text(shown)[..i]);
      assert Text(shown)[..i] + [c] == Text(shown)[..i + 1];
      i := i + 1;
    }
    Terminate(target, offset + i, len, before, offset, Text(shown)[..i]);
    StoredByByte(before, target[..], offset, Text(shown)[..i], Terminator(len));
    assert target[offset..offset + i] == target[..][offset..offset + i] == Text(shown)[..i];
    TextIsShown(shown);
  }

  lemma HexNext(bin: Binary, count: nat)
    requires count < |bin|
    ensures Hex(bin[..count + 1]) == Hex(bin[..count]) + HexByte(bin[count])
  {
    assert bin[..count + 1][..count] == bin[..count];
  }

  /** The loop's guard, as long as it has held. */
  lemma HexGuard(n: nat, len: nat, count: nat)
    requires len < TWO_TO_THE_32 && count <= HexCount(n, len)
    ensures count < n && count * 2 < LessOne(len) <==> count < HexCount(n, len)
  {
  }

  /** The loop of riak_binary_hex_print. */
  method PrintPairs(shown: Binary, target: array<byte>, offset: nat, len: nat) returns (count: nat)
    requires len < TWO_TO_THE_32 && offset + 2 * HexCount(|shown|, len) <= target.Length
    modifies target
    ensures count == HexCount(|shown|, len)
    ensures StoredAt(old(target[..]), target[..], offset, Hex(shown[..count]))
  {
    ghost var before, most := target[..], HexCount(|shown|, len);
    count := 0;
    HexGuard(|shown|, len, count);
    while count < |shown| && count * 2 < LessOne(len)
      invariant count <= most && (count < |shown| && count * 2 < LessOne(len) <==> count < most)
      invariant StoredAt(before, target[..], offset, Hex(shown[..count]))
      decreases most - count
    {
      StoreHexByte(target, offset + count * 2, shown[count], before, offset, Hex(shown[..count]));
      HexNext(shown, count);
      count := count + 1;
      HexGuard(|shown|, len, count);
    }
  }

  /** riak_binary_hex_print. */
  method PrintHex(bin: Option<Binary>, target: array<byte>, offset: nat, len: nat) returns (stored: nat)
    requires len < TWO_TO_THE_32
    requires offset + HexExtent(|BytesOf(bin)|, len) <= target.Length
    modifies target
    ensures var shown := BytesOf(bin);
            && stored == 2 * HexCount(|shown|, len)
            && StoredAt(old(target[..]), target[..], offset, Hex(shown[..stored / 2]) + Terminator(len))
    ensures stored == 2 * Min(|BytesOf(bin)|, if len == 0 then TWO_TO_THE_31 else len / 2)
    ensures len > 0 ==> target[offset + stored] == 0
    ensures bin.None? ==> stored == 0
  {
    var shown := BytesOf(bin);
    ghost var before := target[..];
    var count := PrintPairs(shown, target, offset, len);
    Terminate(target, offset + count * 2, len, before, offset, Hex(shown[..count]));
    StoredByByte(before, target[..], offset, Hex(shown[..count]), Terminator(len));
    HexCountIs(|shown|, len);
    return count * 2;
  }

  /** What was printed reads back as exactly the bytes printed. */
  lemma PrintedHexReadsBack(before: seq<byte>, after: seq<byte>, offset: nat, bin: Binary, count: nat, len: nat)
    requires count <= |bin| && StoredAt(before, after, offset, Hex(bin[..count]) + Terminator(len))
    ensures Unhex(after[offset..offset + 2 * count]) == Some(bin[..count])
  {
    var digits := Hex(bin[..count]);
    var data := digits + Terminator(len);
    assert after[offset..offset + 2 * count] == digits by {
      assert after[offset..offset + |data|] == data;
      assert after[offset..offset + 2 * count] == after[offset..offset + |data|][..2 * count];
      assert data[..2 * count] == digits;
    }
    UnhexReadsHex(bin[..count]);
  }
}
