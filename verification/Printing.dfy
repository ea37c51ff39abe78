/** The bounded print state: any number of calls append to one buffer and never leave it. */
module Printing {
  import opened Wire
  import opened Binaries

  // ----- Specification -----

  /** What the counters say (`total`, `wrote`), how many characters stand in the buffer before its
      terminator (`kept`), the concatenation of all full renderings so far (`text`), and whether
      anything, if only a terminator, has been stored. */
  datatype Output = Output(total: int, wrote: nat, kept: nat, text: Binary, touched: bool) {
    /** state->len */
    function Left(): int {
      total - 1 - wrote
    }
  }

  function NewOutput(total: int): Output {
    Output(total, 0, 0, [], false)
  }

  /** riak_print of a format whose full rendering is `full`. vsnprintf stores what fits and
      returns the full length, by which the counters move. */
  function Formatted(o: Output, full: Binary): Output {
    if o.Left() > 0 then
      Output(o.total, o.wrote + |full|, o.wrote + Min(|full|, o.Left() - 1), o.text + full, true)
    else o.(text := o.text + full)
  }

  /** riak_print_binary, where there is room. */
  function ShownText(o: Output, bin: Binary): Output {
    if o.Left() > 0 then
      var n := o.wrote + Min(|bin|, o.Left() - 1);
      Output(o.total, n, n, o.text + Text(bin), true)
    else o.(text := o.text + Text(bin))
  }

  /** riak_print_binary_hex, where there is room: pairs of digits, the last of which may fill it. */
  function ShownHex(o: Output, bin: Binary): Output {
    if o.Left() > 0 then
      var n := o.wrote + 2 * Min(|bin|, o.Left() / 2);
      Output(o.total, n, n, o.text + Hex(bin), true)
    else o.(text := o.text + Hex(bin))
  }

  /** riak_print_binary with the counters at the end of the buffer: one character goes into its last
      byte, unterminated, and the counters move behind the end. */
  function Squeezed(o: Output, bin: Binary): Output {
    if bin == [] then o else o.(wrote := o.wrote + 1, text := o.text + Text(bin))
  }

  /** One pair of digits at a time, as the raw array printer does. */
  function Digits(o: Output, bin: Binary): Output {
    if bin == [] then o
    else Formatted(Digits(o, bin[..|bin| - 1]), HexByte(bin[|bin| - 1]))
  }

  const COLON: Binary := [58, 32]
  const NEWLINE: Binary := [10]
  const PREFIX: Binary := [48, 120]

  datatype Call =
    | Print(full: Binary)
    | LabelBinary(name: Binary, value: Binary)
    | LabelHex(name: Binary, value: Binary)
    | RawHex(value: Binary)
    | BareBinary(value: Binary)
    | BareHex(value: Binary)
  {
    /** The two binary printers rely on their callers for room. */
    predicate HasRoom(o: Output) {
      BareBinary? || BareHex? ==> o.Left() > 0
    }

    /** What the call would print with unlimited room. */
    function Rendering(): Binary {
      match this
      case Print(full) => full
      case LabelBinary(name, value) => name + COLON + Text(value) + NEWLINE
      case LabelHex(name, value) => name + COLON + Hex(value) + NEWLINE
      case RawHex(value) => PREFIX + Hex(value)
      case BareBinary(value) => Text(value)
      case BareHex(value) => Hex(value)
    }

    function On(o: Output): Output
      requires HasRoom(o)
    {
      match this
      case Print(full) => Formatted(o, full)
      case LabelBinary(name, value) => Formatted(ShownText(Formatted(o, name + COLON), value), NEWLINE)
      case LabelHex(name, value) => Formatted(ShownHex(Formatted(o, name + COLON), value), NEWLINE)
      case RawHex(value) => Digits(Formatted(o, PREFIX), value)
      case BareBinary(value) => ShownText(o, value)
      case BareHex(value) => ShownHex(o, value)
    }
  }

  // ----- What a rendering looks like -----

  /** Byte i of a labelled binary: the name, a colon and a space, the value with a dot for every control
      character, and a newline. */
  function LabelByte(name: Binary, value: Binary, i: nat): byte
    requires i < |name| + |value| + 3
  {
    if i < |name| then name[i]
    else if i == |name| then 58
    else if i == |name| + 1 then 32
    else if i == |name| + 2 + |value| then 10
    else if value[i - |name| - 2] >= 32 then value[i - |name| - 2]
    else 46
  }

  /** Digit j of a binary in hexadecimal. */
  function DigitAt(value: Binary, j: nat): int
    requires j < 2 * |value|
  {
    var b := value[j / 2];
    "0123456789abcdef"[if j % 2 == 0 then b / 16 else b % 16] as int
  }

  lemma HexAt(value: Binary, j: nat)
    requires j < 2 * |value|
    ensures Hex(value)[j] == DigitAt(value, j)
  {
    var i := j / 2;
    assert j == if j % 2 == 0 then 2 * i else 2 * i + 1;
    HexDigitByDigit(value, i);
  }

  /** Byte i of a labelled binary in hexadecimal, two digits for each of its bytes. */
  function HexLabelByte(name: Binary, value: Binary, i: nat): int
    requires i < |name| + 2 * |value| + 3
  {
    if i < |name| then name[i]
    else if i == |name| then 58
    else if i == |name| + 1 then 32
    else if i == |name| + 2 + 2 * |value| then 10
    else DigitAt(value, i - |name| - 2)
  }

  lemma LabelledByByte(name: Binary, value: Binary)
    ensures var r := LabelBinary(name, value).Rendering();
            |r| == |name| + |value| + 3 && forall i :: 0 <= i < |r| ==> r[i] == LabelByte(name, value, i)
  {
    TextIsShown(value);
  }

  lemma LabelledHexByByte(name: Binary, value: Binary)
    ensures var r := LabelHex(name, value).Rendering();
            |r| == |name| + 2 * |value| + 3 && forall i :: 0 <= i < |r| ==> r[i] == HexLabelByte(name, value, i)
  {
    var r := LabelHex(name, value).Rendering();
    forall i | 0 <= i < |r| ensures r[i] == HexLabelByte(name, value, i) {
      if |name| + 2 <= i < |r| - 1 {
        HexAt(value, i - |name| - 2);
      }
    }
  }

  lemma RawHexByByte(value: Binary)
    ensures var r := RawHex(value).Rendering();
            && |r| == 2 + 2 * |value| && r[0] == 48 && r[1] == 120
            && forall j :: 0 <= j < 2 * |value| ==> r[2 + j] == DigitAt(value, j)
  {
    var r, digits := RawHex(value).Rendering(), Hex(value);
    assert r == PREFIX + digits;
    forall j | 0 <= j < 2 * |value| ensures r[2 + j] == DigitAt(value, j) {
      assert r[2 + j] == digits[j];
      HexAt(value, j);
    }
  }

  // ----- The law every call keeps -----

  /** All that has been rendered stands in the buffer, or the buffer is full up to its last byte or
      two; a full one takes no more characters. */
  predicate Lawful(o: Output) {
    && o.kept <= |o.text|
    && o.kept <= Max(0, o.total - 1)
    && (o.Left() > 0 ==> o.kept == o.wrote)
    && (o.Left() <= 0 ==> o.kept >= o.total - 2)
    && (o.kept < |o.text| ==> o.Left() <= 1)
    && (!o.touched ==> o.kept == o.wrote == 0)
  }

  lemma PrintersAreLawful(o: Output, text: Binary)
    requires Lawful(o)
    ensures Lawful(Formatted(o, text)) && Lawful(ShownText(o, text)) && Lawful(ShownHex(o, text))
  {
  }

  lemma {:induction false} DigitsAreLawful(o: Output, bin: Binary)
    requires Lawful(o)
    ensures Lawful(Digits(o, bin)) && Digits(o, bin).text == o.text + Hex(bin) && Digits(o, bin).total == o.total
    decreases |bin|
  {
    if bin != [] {
      var init, pair := bin[..|bin| - 1], HexByte(bin[|bin| - 1]);
      DigitsAreLawful(o, init);
      PrintersAreLawful(Digits(o, init), pair);
      assert (o.text + Hex(init)) + pair == o.text + Hex(bin);
    }
  }

  lemma FourParts(a: Binary, b: Binary, c: Binary, d: Binary)
    ensures a + b + c + d == a + (b + c + d)
  {
  }

  lemma LabelBinaryIsLawful(o: Output, name: Binary, value: Binary)
    requires Lawful(o)
    ensures var o' := LabelBinary(name, value).On(o);
            && Lawful(o') && o'.text == o.text + (name + COLON + Text(value) + NEWLINE) && o'.total == o.total
            && o'.touched == (o.touched || o.Left() > 0)
  {
    var head := name + COLON;
    var o1 := Formatted(o, head);
    var o2 := ShownText(o1, value);
    PrintersAreLawful(o, head);
    PrintersAreLawful(o1, value);
    PrintersAreLawful(o2, NEWLINE);
    FourParts(o.text, head, Text(value), NEWLINE);
    assert LabelBinary(name, value).On(o) == Formatted(o2, NEWLINE);
  }

  lemma LabelHexIsLawful(o: Output, name: Binary, value: Binary)
    requires Lawful(o)
    ensures var o' := LabelHex(name, value).On(o);
            && Lawful(o') && o'.text == o.text + (name + COLON + Hex(value) + NEWLINE) && o'.total == o.total
            && o'.touched == (o.touched || o.Left() > 0)
  {
    var head := name + COLON;
    var o1 := Formatted(o, head);
    var o2 := ShownHex(o1, value);
    PrintersAreLawful(o, head);
    PrintersAreLawful(o1, value);
    PrintersAreLawful(o2, NEWLINE);
    FourParts(o.text, head, Hex(value), NEWLINE);
    assert LabelHex(name, value).On(o) == Formatted(o2, NEWLINE);
  }

  lemma {:induction false} DigitsTouch(o: Output, bin: Binary)
    requires o.touched || o.Left() <= 0
    ensures Digits(o, bin).touched == o.touched && (o.Left() <= 0 ==> Digits(o, bin).Left() == o.Left())
    decreases |bin|
  {
    if bin != [] { DigitsTouch(o, bin[..|bin| - 1]); }
  }

  lemma RawHexIsLawful(o: Output, value: Binary)
    requires Lawful(o)
    ensures var o' := RawHex(value).On(o);
            && Lawful(o') && o'.text == o.text + (PREFIX + Hex(value)) && o'.total == o.total
            && o'.touched == (o.touched || o.Left() > 0)
  {
    PrintersAreLawful(o, PREFIX);
    DigitsAreLawful(Formatted(o, PREFIX), value);
    DigitsTouch(Formatted(o, PREFIX), value);
    assert (o.text + PREFIX) + Hex(value) == o.text + (PREFIX + Hex(value));
  }

  lemma CallIsLawful(o: Output, c: Call)
    requires Lawful(o) && c.HasRoom(o)
    ensures Lawful(c.On(o)) && c.On(o).text == o.text + c.Rendering() && c.On(o).total == o.total
    ensures c.On(o).touched == (o.touched || o.Left() > 0)
  {
    match c
    case Print(full) => PrintersAreLawful(o, full);
    case LabelBinary(name, value) => LabelBinaryIsLawful(o, name, value);
    case LabelHex(name, value) => LabelHexIsLawful(o, name, value);
    case RawHex(value) => RawHexIsLawful(o, value);
    case BareBinary(value) => PrintersAreLawful(o, value);
    case BareHex(value) => PrintersAreLawful(o, value);
  }

  /** A run in which the binary printers are called with room only. */
  predicate Roomy(total: int, cs: seq<Call>)
    decreases |cs|, 0
  {
    cs == [] || (Roomy(total, cs[..|cs| - 1]) && cs[|cs| - 1].HasRoom(RunCalls(total, cs[..|cs| - 1])))
  }

  function RunCalls(total: int, cs: seq<Call>): Output
    requires Roomy(total, cs)
    decreases |cs|, 1
  {
    if cs == [] then NewOutput(total) else cs[|cs| - 1].On(RunCalls(total, cs[..|cs| - 1]))
  }

  function Renderings(cs: seq<Call>): seq<Binary> {
    seq(|cs|, i requires 0 <= i < |cs| => cs[i].Rendering())
  }

  /** Over any run of print calls: the ideal text is the concatenation of the full renderings, and
      what stands in the buffer is all of it or as much as fits, short of at most one byte. */
  lemma {:induction false} RunsAreLawful(total: int, cs: seq<Call>)
    requires Roomy(total, cs)
    ensures var o := RunCalls(total, cs);
            && Lawful(o) && o.total == total
            && o.text == Concat(Renderings(cs))
            && (o.kept == |o.text| || total - 2 <= o.kept <= total - 1 || total <= 1)
            && (o.touched <==> cs != [] && total >= 2)
    decreases |cs|
  {
    if cs == [] {
    } else {
      var init, last := cs[..|cs| - 1], cs[|cs| - 1];
      RunsAreLawful(total, init);
      CallIsLawful(RunCalls(total, init), last);
      assert Renderings(cs)[..|cs| - 1] == Renderings(init);
    }
  }

  /** The binary printers rely on their callers for room. With none left, as riak_listkeys_response_print
      may call them, they stay inside the buffer exactly if there is at most one byte (for the text
      printer) or nothing (for the hexadecimal one) to show, and only with the counters at the end. */
  lemma BinaryPrintersStayInsideExactlyWhen(o: Output, n: nat)
    requires 0 <= o.total < TWO_TO_THE_32 / 2 && -TWO_TO_THE_32 / 2 < o.Left()
    ensures var len := if o.Left() >= 0 then o.Left() else TWO_TO_THE_32 + o.Left();
            && (o.wrote + TextExtent(n, len) <= o.total <==> o.Left() > 0 || (o.Left() == 0 && n <= 1))
            && (o.wrote + HexExtent(n, len) <= o.total <==> o.Left() > 0 || (o.Left() == 0 && n == 0))
  {
  }

  lemma {:induction false} DigitsWithoutRoom(o: Output, bin: Binary, c: nat)
    requires c <= |bin| && Lawful(o) && Digits(o, bin[..c]).Left() <= 0
    ensures Digits(o, bin) == Digits(o, bin[..c]).(text := Digits(o, bin).text)
    ensures Digits(o, bin[..c]).text <= Digits(o, bin).text
    decreases |bin|
  {
    if c == |bin| {
      assert bin[..c] == bin;
    } else {
      var init := bin[..|bin| - 1];
      assert init[..c] == bin[..c];
      DigitsWithoutRoom(o, init, c);
    }
  }

  // ----- The print state on the heap -----

  /** The buffer holds a NUL-terminated prefix of the ideal text. */
  predicate Displays(memory: seq<byte>, o: Output) {
    && o.kept <= |o.text| && o.kept <= |memory|
    && memory[..o.kept] == o.text[..o.kept]
    && (o.touched ==> o.kept < Min(o.total, |memory|) && memory[o.kept] == 0)
  }

  lemma StoredExtends(before: seq<byte>, after: seq<byte>, text: Binary, kept: nat, full: Binary, m: nat)
    requires kept <= |text| && m <= |full| && (m > 0 ==> kept == |text|)
    requires StoredAt(before, after, kept, full[..m] + [0]) && before[..kept] == text[..kept]
    ensures kept + m < |after|
    ensures after[..kept + m] == (text + full)[..kept + m] && after[kept + m] == 0
  {
    var data := full[..m] + [0];
    assert after[..kept + |data|] == after[..kept] + data;
    assert after[..kept + m] == after[..kept + |data|][..kept + m];
    assert after[kept + m] == after[..kept + |data|][kept + m];
  }

  lemma Beyond(before: seq<byte>, after: seq<byte>, offset: nat, data: seq<byte>, total: nat)
    requires StoredAt(before, after, offset, data) && offset + |data| <= total <= |before|
    ensures after[total..] == before[total..]
  {
    assert after[total..] == after[offset + |data|..][total - (offset + |data|)..];
    assert before[total..] == before[offset + |data|..][total - (offset + |data|)..];
  }

  /** Storing the first m characters of a rendering behind what stands there displays more of the text. */
  lemma StoredIsDisplayed(before: seq<byte>, after: seq<byte>, o: Output, full: Binary, m: nat, o': Output)
    requires Lawful(o) && o.Left() > 0 && o.total <= |before| && Displays(before, o)
    requires m <= |full| && m <= o.Left() && (o.Left() == 1 ==> m == 0)
    requires StoredAt(before, after, o.wrote, full[..m] + [0])
    requires o'.text == o.text + full && o'.kept == o.wrote + m && o'.total == o.total
    ensures Displays(after, o') && after[o.total..] == before[o.total..]
  {
    StoredExtends(before, after, o.text, o.kept, full, m);
    Beyond(before, after, o.wrote, full[..m] + [0], o.total);
  }

  lemma HexFits(n: nat, len: nat)
    requires 0 < len < TWO_TO_THE_32
    ensures HexCount(n, len) == Min(n, len / 2) && HexExtent(n, len) <= len + 1
    ensures len == 1 ==> HexCount(n, len) == 0
  {
  }

  lemma {:induction false} HexOfPrefix(bin: Binary, c: nat)
    requires c <= |bin|
    ensures Hex(bin[..c]) == Hex(bin)[..2 * c]
    decreases |bin|
  {
    if c == |bin| {
      assert bin[..c] == bin;
    } else {
      var init := bin[..|bin| - 1];
      HexOfPrefix(init, c);
      assert init[..c] == bin[..c];
    }
  }

  /** As far as it fits, a labelled binary stands in the buffer from `at` on, byte by byte. */
  predicate ShowsLabel(memory: seq<byte>, at: nat, kept: nat, name: Binary, value: Binary) {
    && kept <= |memory| && kept <= at + |name| + |value| + 3
    && forall j :: at <= j < kept ==> memory[j] == LabelByte(name, value, j - at)
  }

  predicate ShowsHexLabel(memory: seq<byte>, at: nat, kept: nat, name: Binary, value: Binary) {
    && kept <= |memory| && kept <= at + |name| + 2 * |value| + 3
    && forall j :: at <= j < kept ==> memory[j] == HexLabelByte(name, value, j - at)
  }

  lemma LabelIsShown(memory: seq<byte>, o: Output, o': Output, name: Binary, value: Binary)
    requires Displays(memory, o') && o'.text == o.text + LabelBinary(name, value).Rendering()
    ensures ShowsLabel(memory, |o.text|, o'.kept, name, value)
  {
    LabelledByByte(name, value);
    var r := LabelBinary(name, value).Rendering();
    forall j | |o.text| <= j < o'.kept ensures memory[j] == LabelByte(name, value, j - |o.text|) {
      assert memory[j] == memory[..o'.kept][j] == o'.text[j] == r[j - |o.text|];
    }
  }

  lemma HexLabelIsShown(memory: seq<byte>, o: Output, o': Output, name: Binary, value: Binary)
    requires Displays(memory, o') && o'.text == o.text + LabelHex(name, value).Rendering()
    ensures ShowsHexLabel(memory, |o.text|, o'.kept, name, value)
  {
    LabelledHexByByte(name, value);
    var r := LabelHex(name, value).Rendering();
    forall j | |o.text| <= j < o'.kept ensures memory[j] == HexLabelByte(name, value, j - |o.text|) {
      assert memory[j] == memory[..o'.kept][j] == o'.text[j] == r[j - |o.text|];
    }
  }

  /** The digits that riak_binary_hex_print stores display as many bytes as there is room for. */
  lemma HexIsDisplayed(before: seq<byte>, after: seq<byte>, o: Output, bin: Binary, count: nat)
    requires Lawful(o) && 0 < o.Left() && o.total <= |before| && o.total < TWO_TO_THE_32 && Displays(before, o)
    requires count == HexCount(|bin|, o.Left())
    requires StoredAt(before, after, o.wrote, Hex(bin[..count]) + [0])
    ensures Displays(after, ShownHex(o, bin)) && after[o.total..] == before[o.total..]
    ensures 2 * count == ShownHex(o, bin).wrote - o.wrote
  {
    HexFits(|bin|, o.Left());
    HexOfPrefix(bin, count);
    StoredIsDisplayed(before, after, o, Hex(bin), 2 * count, ShownHex(o, bin));
  }

  lemma SameDisplay(memory: seq<byte>, o: Output, o': Output)
    requires Displays(memory, o) && o' == o.(text := o'.text) && o.text <= o'.text
    ensures Displays(memory, o')
  {
    assert o.text[..o.kept] == o'.text[..o.kept];
  }

  lemma DigitsNext(o: Output, bin: Binary, c: nat)
    requires c < |bin|
    ensures Digits(o, bin[..c + 1]) == Formatted(Digits(o, bin[..c]), HexByte(bin[c]))
  {
    assert bin[..c + 1][..c] == bin[..c];
  }

  /** So after any calls that could store anything, a buffer the state is valid for starts with a
      terminated prefix of the ideal text: all of it, or all but what does not fit. */
  lemma BufferHoldsPrefix(memory: seq<byte>, total: int, cs: seq<Call>)
    requires cs != [] && Roomy(total, cs) && 2 <= total <= |memory| && Displays(memory, RunCalls(total, cs))
    ensures var text, k := Concat(Renderings(cs)), RunCalls(total, cs).kept;
            && k < total && memory[k] == 0 && memory[..k] <= text
            && (k == |text| || k >= total - 2)
  {
    RunsAreLawful(total, cs);
  }

  lemma OneByteStored(before: seq<byte>, after: seq<byte>, at: nat, data: seq<byte>)
    requires |data| <= 1 && StoredAt(before, after, at, data)
    ensures after == if data == [] then before else before[at := data[0]]
  {
    assert after == after[..at] + after[at..at + |data|] + after[at + |data|..];
    assert before == before[..at] + before[at..];
  }

  lemma NothingStored(before: seq<byte>, after: seq<byte>, at: nat)
    requires StoredAt(before, after, at, [])
    ensures after == before
  {
    OneByteStored(before, after, at, []);
  }

  /** A character stored in the last byte spoils what is displayed exactly if the terminator is there. */
  lemma SqueezeOverTerminator(memory: seq<byte>, o: Output, bin: Binary)
    requires Lawful(o) && Displays(memory, o) && 0 <= o.total <= |memory| && o.Left() == 0 && |bin| <= 1
    ensures bin != [] ==>
      var after, o' := memory[o.total - 1 := Shown(bin[0])], Squeezed(o, bin);
      Lawful(o') && Displays(after, o') <==> o.kept < o.total - 1
  {
    if bin != [] && o.kept < o.total - 1 {
      var after, o' := memory[o.total - 1 := Shown(bin[0])], Squeezed(o, bin);
      assert after[..o.kept] == memory[..o.kept];
      assert o'.text[..o.kept] == o.text[..o.kept];
    }
  }

  class PrintState {
    const start: array<byte>
    var target: int
    var len: int
    const total: int
    var wrote: int
    ghost var output: Output

    /** The law of the counters. */
    ghost predicate Counted()
      reads this
    {
      && total <= start.Length && total < TWO_TO_THE_32 / 2
      && output.total == total && output.wrote == wrote == target
      && wrote + len == total - 1
    }

    ghost predicate Valid()
      reads this, start
    {
      Counted() && Lawful(output) && Displays(start[..], output)
    }

    /** riak_print_init. */
    constructor (location: array<byte>, maxlen: int)
      requires maxlen <= location.Length && maxlen < TWO_TO_THE_32 / 2
      ensures Valid() && start == location && total == maxlen && output == NewOutput(maxlen)
    {
      start := location;
      target, len, total, wrote := 0, maxlen - 1, maxlen, 0;
      output := NewOutput(maxlen);
    }

    /** vsnprintf into the rest of the buffer: at most `size` bytes with the terminator. */
    method Vsnprintf(size: nat, full: Binary) returns (length: int)
      requires size > 0 && 0 <= target && target + size <= start.Length
      modifies start
      ensures length == |full|
      ensures StoredAt(old(start[..]), start[..], target, full[..Min(|full|, size - 1)] + [0])
    {
      ghost var before := start[..];
      for i := 0 to Min(|full|, size - 1)
        invariant StoredAt(before, start[..], target, full[..i])
      {
        Store(start, target + i, full[i], before, target, full[..i]);
        assert full[..i + 1] == full[..i] + [full[i]];
      }
      var n := Min(|full|, size - 1);
      Store(start, target + n, 0, before, target, full[..n]);
      length := |full|;
    }

    method StoreFormatted(full: Binary) returns (written: int)
      requires Valid() && len > 0
      modifies start
      ensures written == |full|
      ensures Displays(start[..], Formatted(output, full)) && start[total..] == old(start[total..])
    {
      ghost var before := start[..];
      written := Vsnprintf(len, full);
      StoredIsDisplayed(before, start[..], output, full, Min(|full|, len - 1), Formatted(output, full));
    }

    /** riak_print. */
    method PrintFormatted(full: Binary) returns (written: int)
      requires Valid()
      modifies this, start
      ensures Valid() && output == Formatted(old(output), full)
      ensures written == wrote - old(wrote) == if old(len) > 0 then |full| else 0
      ensures start[Max(0, total)..] == old(start[Max(0, total)..])
    {
      PrintersAreLawful(output, full);
      written := 0;
      if len > 0 {
        written := StoreFormatted(full);
        if written > 0 {
          Advance(written);
        }
      }
      output := Formatted(output, full);
    }

    method Advance(n: int)
      modifies this`len, this`target, this`wrote
      ensures len == old(len) - n && target == old(target) + n && wrote == old(wrote) + n
    {
      len, target, wrote := len - n, target + n, wrote + n;
    }

    method StoreText(bin: Binary) returns (written: int)
      requires Valid() && len > 0
      modifies start
      ensures written == ShownText(output, bin).wrote - wrote
      ensures Displays(start[..], ShownText(output, bin)) && start[total..] == old(start[total..])
    {
      ghost var before := start[..];
      written := PrintText(Some(bin), start, target, len);
      StoredIsDisplayed(before, start[..], output, Text(bin), written, ShownText(output, bin));
    }

    /** The text printer with no room left, for at most one byte. */
    method StoreInLastByte(bin: Binary) returns (written: int)
      requires Valid() && len == 0 && |bin| <= 1
      modifies start
      ensures written == |bin| && total > 0
      ensures start[..] == if bin == [] then old(start[..]) else old(start[..])[total - 1 := Shown(bin[0])]
    {
      ghost var before := start[..];
      written := PrintText(Some(bin), start, target, 0);
      OneByteStored(before, start[..], total - 1, Text(bin)[..written] + Terminator(0));
    }

    method PrintWithRoom(bin: Binary) returns (written: int)
      requires Valid() && len > 0
      modifies this, start
      ensures Valid() && output == ShownText(old(output), bin)
      ensures written == wrote - old(wrote) == Min(|bin|, old(len) - 1)
      ensures start[total..] == old(start[total..])
    {
      PrintersAreLawful(output, bin);
      written := StoreText(bin);
      Advance(written);
      output := ShownText(output, bin);
    }

    method PrintWithoutRoom(bin: Binary) returns (written: int)
      requires Valid() && len == 0 && |bin| <= 1
      modifies this, start
      ensures total > 0 && Counted() && output == Squeezed(old(output), bin)
      ensures Valid() <==> bin == [] || old(output).kept < total - 1
      ensures start[..] == if bin == [] then old(start[..]) else old(start[..])[total - 1 := Shown(bin[0])]
      ensures written == wrote - old(wrote) == |bin|
    {
      SqueezeOverTerminator(start[..], output, bin);
      written := StoreInLastByte(bin);
      Advance(written);
      output := Squeezed(output, bin);
    }

    /** riak_print_binary. Its callers see to it that there is room; without, it leaves the buffer except
        at its very end with at most one byte to show, and that byte may take the terminator's place.
        Where it would leave the buffer the model stops instead. */
    method PrintBinary(bin: Option<Binary>) returns (written: int, inside: bool)
      requires Valid()
      modifies this, start
      ensures var shown := BytesOf(bin);
              && (inside <==> old(len) > 0 || (old(len) == 0 && |shown| <= 1))
              && (old(len) > 0 ==> Valid() && output == BareBinary(shown).On(old(output)))
              && (inside && old(len) == 0 ==>
                    && Counted() && output == Squeezed(old(output), shown)
                    && (Valid() <==> shown == [] || old(output).kept < total - 1)
                    && start[..] == if shown == [] then old(start[..]) else old(start[..])[total - 1 := Shown(shown[0])])
      ensures !inside ==> Valid() && output == old(output) && start[..] == old(start[..])
      ensures written == wrote - old(wrote)
           == if old(len) > 0 then Min(|BytesOf(bin)|, old(len) - 1) else if inside then |BytesOf(bin)| else 0
      ensures start[Max(0, total)..] == old(start[Max(0, total)..])
    {
      var shown := BytesOf(bin);
      written, inside := 0, len > 0 || (len == 0 && |shown| <= 1);
      if !inside {
        return;
      }
      if len > 0 {
        written := PrintWithRoom(shown);
      } else {
        written := PrintWithoutRoom(shown);
      }
    }

    method StoreHex(bin: Binary) returns (written: int)
      requires Valid() && len > 0
      modifies start
      ensures written == ShownHex(output, bin).wrote - wrote
      ensures Displays(start[..], ShownHex(output, bin)) && start[total..] == old(start[total..])
    {
      ghost var before := start[..];
      HexFits(|bin|, len);
      written := PrintHex(Some(bin), start, target, len);
      HexIsDisplayed(before, start[..], output, bin, written / 2);
    }

    method StoreNoDigits() returns (written: int)
      requires Valid() && len == 0
      modifies start
      ensures written == 0 && start[..] == old(start[..])
    {
      ghost var before := start[..];
      written := PrintHex(Some([]), start, target, 0);
      NothingStored(before, start[..], target);
    }

    /** riak_print_binary_hex. Without room it stays inside only at the very end, with nothing to show. */
    method PrintBinaryHex(bin: Option<Binary>) returns (written: int, inside: bool)
      requires Valid()
      modifies this, start
      ensures Valid()
      ensures var shown := BytesOf(bin);
              && (inside <==> old(len) > 0 || (old(len) == 0 && shown == []))
              && (old(len) > 0 ==> output == BareHex(shown).On(old(output)))
      ensures old(len) <= 0 ==> output == old(output) && start[..] == old(start[..])
      ensures written == wrote - old(wrote) == if old(len) > 0 then 2 * Min(|BytesOf(bin)|, old(len) / 2) else 0
      ensures start[Max(0, total)..] == old(start[Max(0, total)..])
    {
      var shown := BytesOf(bin);
      written, inside := 0, len > 0 || (len == 0 && shown == []);
      if !inside {
        return;
      }
      if len > 0 {
        PrintersAreLawful(output, shown);
        written := StoreHex(shown);
        Advance(written);
        output := ShownHex(output, shown);
      } else {
        written := StoreNoDigits();
      }
    }

    method PrintValue(value: Option<Binary>) returns (written: int)
      requires Valid()
      modifies this, start
      ensures Valid() && output == ShownText(old(output), BytesOf(value))
      ensures written == wrote - old(wrote)
      ensures start[Max(0, total)..] == old(start[Max(0, total)..])
    {
      written := 0;
      if len > 0 {
        var inside;
        written, inside := PrintBinary(value);
      } else {
        ghost var shown := BytesOf(value);
        PrintersAreLawful(output, shown);
        output := ShownText(output, shown);
      }
    }

    method PrintLabelBinaryParts(name: Binary, value: Option<Binary>) returns (written: int)
      requires Valid()
      modifies this, start
      ensures Valid() && output == LabelBinary(name, BytesOf(value)).On(old(output))
      ensures written == wrote - old(wrote)
      ensures start[Max(0, total)..] == old(start[Max(0, total)..])
    {
      written := PrintFormatted(name + COLON);
      var more := PrintValue(value);
      written := written + more;
      var end := PrintFormatted(NEWLINE);
      written := written + end;
    }

    /** riak_print_label_binary. */
    method PrintLabelBinary(name: Binary, value: Option<Binary>) returns (written: int)
      requires Valid()
      modifies this, start
      ensures Valid() && output == LabelBinary(name, BytesOf(value)).On(old(output))
      ensures ShowsLabel(start[..], |old(output).text|, output.kept, name, BytesOf(value))
      ensures written == wrote - old(wrote)
      ensures start[Max(0, total)..] == old(start[Max(0, total)..])
    {
      ghost var before := output;
      written := PrintLabelBinaryParts(name, value);
      LabelBinaryIsLawful(before, name, BytesOf(value));
      LabelIsShown(start[..], before, output, name, BytesOf(value));
    }

    method PrintValueHex(value: Option<Binary>) returns (written: int)
      requires Valid()
      modifies this, start
      ensures Valid() && output == ShownHex(old(output), BytesOf(value))
      ensures written == wrote - old(wrote)
      ensures start[Max(0, total)..] == old(start[Max(0, total)..])
    {
      written := 0;
      if len > 0 {
        var inside;
        written, inside := PrintBinaryHex(value);
      } else {
        ghost var shown := BytesOf(value);
        PrintersAreLawful(output, shown);
        output := ShownHex(output, shown);
      }
    }

    method PrintLabelHexParts(name: Binary, value: Option<Binary>) returns (written: int)
      requires Valid()
      modifies this, start
      ensures Valid() && output == LabelHex(name, BytesOf(value)).On(old(output))
      ensures written == wrote - old(wrote)
      ensures start[Max(0, total)..] == old(start[Max(0, total)..])
    {
      written := PrintFormatted(name + COLON);
      var more := PrintValueHex(value);
      written := written + more;
      var end := PrintFormatted(NEWLINE);
      written := written + end;
    }

    /** riak_print_label_binary_hex. */
    method PrintLabelHex(name: Binary, value: Option<Binary>) returns (written: int)
      requires Valid()
      modifies this, start
      ensures Valid() && output == LabelHex(name, BytesOf(value)).On(old(output))
      ensures ShowsHexLabel(start[..], |old(output).text|, output.kept, name, BytesOf(value))
      ensures written == wrote - old(wrote)
      ensures start[Max(0, total)..] == old(start[Max(0, total)..])
    {
      ghost var before := output;
      written := PrintLabelHexParts(name, value);
      LabelHexIsLawful(before, name, BytesOf(value));
      HexLabelIsShown(start[..], before, output, name, BytesOf(value));
    }

    /** riak_print_label_raw_hex_array: the loop gives up when there is no room. */
    method PrintRawHex(value: Binary) returns (written: int)
      requires Valid()
      modifies this, start
      ensures Valid() && output == RawHex(value).On(old(output))
      ensures written == wrote - old(wrote)
      ensures start[Max(0, total)..] == old(start[Max(0, total)..])
    {
      written := PrintFormatted(PREFIX);
      var more := PrintDigits(value);
      written := written + more;
    }

    method PrintDigits(value: Binary) returns (written: int)
      requires Valid()
      modifies this, start
      ensures Valid() && output == Digits(old(output), value)
      ensures written == wrote - old(wrote)
      ensures start[Max(0, total)..] == old(start[Max(0, total)..])
    {
      written := 0;
      ghost var before := output;
      var bytes := 0;
      while len > 0 && bytes < |value|
        invariant 0 <= bytes <= |value| && Valid()
        invariant output == Digits(before, value[..bytes])
        invariant written == wrote - old(wrote)
        invariant start[Max(0, total)..] == old(start[Max(0, total)..])
        decreases |value| - bytes
      {
        var more := PrintFormatted(HexByte(value[bytes]));
        written := written + more;
        DigitsNext(before, value, bytes);
        bytes := bytes + 1;
      }
      ghost var o' := Digits(before, value);
      assert o' == output.(text := o'.text) && output.text <= o'.text by {
        if bytes < |value| {
          DigitsWithoutRoom(before, value, bytes);
        } else {
          assert value[..bytes] == value;
        }
      }
      SameDisplay(start[..], output, o');
      DigitsAreLawful(before, value);
      output := o';
    }
  }
}
