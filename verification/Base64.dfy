/** The hand-written bit-buffer base64 decoder, against section 4 of RFC 4648. */
module Base64 {
  import opened Wrappers

  type Digit = d: nat | d < 64

  const PAD: Byte := 61
  const U32_RANGE := 0x1_0000_0000

  // The standard alphabet: A-Z, a-z, 0-9, +, /.
  function Letter(d: Digit): Byte {
    if d < 26 then 65 + d
    else if d < 52 then 97 + (d - 26)
    else if d < 62 then 48 + (d - 52)
    else if d == 62 then 43
    else 47
  }

  // The alphabet position of a byte, if it has one.
  function DigitOf(b: Byte): (r: Option<Digit>)
    ensures r.Some? ==> Letter(r.value) == b
    ensures r.None? ==> forall d: Digit :: Letter(d) != b
  {
    if 65 <= b < 91 then Some(b - 65)
    else if 97 <= b < 123 then Some(b - 97 + 26)
    else if 48 <= b < 58 then Some(b - 48 + 52)
    else if b == 43 then Some(62)
    else if b == 47 then Some(63)
    else None
  }

  /** The letters are the standard alphabet's, and the pad is the equals sign: five runs of consecutive characters,
      given by their ends. */
  lemma {:induction false} StandardAlphabet()
    ensures Letter(0) == 'A' as int && Letter(25) == 'Z' as int && Letter(26) == 'a' as int && Letter(51) == 'z' as int
    ensures Letter(52) == '0' as int && Letter(61) == '9' as int && Letter(62) == '+' as int && Letter(63) == '/' as int
    ensures forall d: Digit :: d < 62 && d !in {25, 51, 61} ==> Letter(d + 1) == Letter(d) + 1
    ensures forall b: Byte, d: Digit :: DigitOf(b) == Some(d) <==> b == Letter(d)
    ensures PAD == '=' as int
  {
    assert forall d: Digit :: DigitOf(Letter(d)) == Some(d);
  }

  // What the decoder reads: alphabet positions up to the first pad, everything else skipped.
  function Digits(text: seq<Byte>): seq<Digit> {
    if text == [] || text[0] == PAD then []
    else
      match DigitOf(text[0])
      case None => Digits(text[1..])
      case Some(d) => [d] + Digits(text[1..])
  }

  // ---- The bit buffer -----------------------------------------------------

  datatype Decoder = Decoder(output: seq<Byte>, buffer: nat, bits: nat)

  function Pow2(bits: nat): (r: nat)
    ensures r > 0
  {
    if bits == 0 then 1 else 2 * Pow2(bits - 1)
  }

  // Between digits fewer than eight bits are held, all of them below the buffer's top.
  predicate Held(d: Decoder) {
    d.bits in {0, 2, 4, 6} && d.buffer < Pow2(d.bits)
  }

  // (buffer << 6) | value in 32 bits: the shifted value has six zero low bits, so or is addition.
  function ShiftIn(buffer: nat, digit: Digit): nat {
    buffer * 64 % U32_RANGE + digit
  }

  // (value >> bits) as u8, and value & ((1 << bits) - 1).
  function TopByte(value: nat, bits: nat): Byte {
    value / Pow2(bits) % 256
  }

  function LowBits(value: nat, bits: nat): nat {
    value % Pow2(bits)
  }

  function Feed(d: Decoder, digit: Digit): (r: Decoder)
    requires Held(d)
  {
    var buffer, bits := ShiftIn(d.buffer, digit), d.bits + 6;
    if bits >= 8 then
      Decoder(d.output + [TopByte(buffer, bits - 8)], LowBits(buffer, bits - 8), bits - 8)
    else
      Decoder(d.output, buffer, bits)
  }

  lemma Pow2Values()
    ensures Pow2(0) == 1 && Pow2(2) == 4 && Pow2(4) == 16 && Pow2(6) == 64 && Pow2(8) == 256
  {
    assert Pow2(1) == 2 && Pow2(3) == 8 && Pow2(5) == 32 && Pow2(7) == 128;
  }

  // What a shift past the thirty-second bit loses, were the buffer ever that full.
  lemma ShiftWraps(digit: Digit)
    ensures ShiftIn(0xFFFF_FFFF, digit) == 0xFFFF_FFC0 + digit
    ensures ShiftIn(0x0400_0000, digit) == digit && ShiftIn(0x03FF_FFFF, digit) == 0xFFFF_FFC0 + digit
  {
  }

  lemma FeedHeld(d: Decoder, digit: Digit)
    requires Held(d)
    ensures Held(Feed(d, digit))
    ensures d.buffer * 64 + digit < U32_RANGE
  {
    Pow2Values();
  }

  // Feed with its powers written out.
  lemma FeedAt(d: Decoder, digit: Digit)
    requires Held(d)
    ensures var value := d.buffer * 64 + digit;
            && value < 64 * Pow2(d.bits)
            && (d.bits == 0 ==> Feed(d, digit) == Decoder(d.output, value, 6))
            && (d.bits == 2 ==> value < 256 && Feed(d, digit) == Decoder(d.output + [value], 0, 0))
            && (d.bits == 4 ==> value / 4 < 256 && Feed(d, digit) == Decoder(d.output + [value / 4], value % 4, 2))
            && (d.bits == 6 ==> value / 16 < 256 && Feed(d, digit) == Decoder(d.output + [value / 16], value % 16, 4))
  {
    hide Pow2, TopByte, LowBits, ShiftIn;
    ShiftedValue(d, digit);
    FeedValue(d.output, d.buffer * 64 + digit, d.bits);
  }

  lemma ShiftedValue(d: Decoder, digit: Digit)
    requires Held(d)
    ensures d.buffer * 64 + digit < 64 * Pow2(d.bits) && ShiftIn(d.buffer, digit) == d.buffer * 64 + digit
  {
    Pow2Values();
    hide Pow2;
    assert d.buffer + 1 <= Pow2(d.bits) <= 64;
  }

  lemma FeedValue(output: seq<Byte>, value: nat, bits: nat)
    requires bits in {0, 2, 4, 6} && value < 64 * Pow2(bits)
    ensures bits == 2 ==> value < 256 && TopByte(value, 0) == value && LowBits(value, 0) == 0
    ensures bits == 4 ==> value / 4 < 256 && TopByte(value, 2) == value / 4 && LowBits(value, 2) == value % 4
    ensures bits == 6 ==> value / 16 < 256 && TopByte(value, 4) == value / 16 && LowBits(value, 4) == value % 16
  {
    Pow2Values();
    if bits == 2 {
      assert value < 256;
    } else if bits == 4 {
      assert value / 4 < 256;
    } else if bits == 6 {
      assert value / 16 < 256;
    }
  }

  function DecodeFrom(d: Decoder, digits: seq<Digit>): (r: Decoder)
    requires Held(d)
    ensures Held(r)
    decreases |digits|
  {
    if digits == [] then d
    else FeedHeld(d, digits[0]); DecodeFrom(Feed(d, digits[0]), digits[1..])
  }

  function Fresh(): Decoder {
    Decoder([], 0, 0)
  }

  lemma FreshHeld()
    ensures Held(Fresh())
  {
    Pow2Values();
  }

  function Decode(text: seq<Byte>): seq<Byte> {
    FreshHeld();
    DecodeFrom(Fresh(), Digits(text)).output
  }

  method BuildTable() returns (table: array<nat>)
    ensures fresh(table) && table.Length == 256
    ensures forall b: Byte :: table[b] == match DigitOf(b) case None => 255 case Some(d) => d
  {
    table := new nat[256](i => 255);
    for i := 0 to 64
      invariant forall b: Byte :: table[b] == match DigitOf(b) case None => 255 case Some(d) => if d < i then d else 255
    {
      table[Letter(i)] := i;
    }
  }

  /** The decoder as it runs; the 32-bit buffer never overflows, so every pushed byte is exact. */
  method DecodeBase64(text: seq<Byte>) returns (output: seq<Byte>)
    ensures output == Decode(text)
  {
    var table := BuildTable();
    output := [];
    var buffer: nat, bits: nat := 0, 0;
    FreshHeld();
    var i := 0;
    while i < |text|
      invariant 0 <= i <= |text| && Held(Decoder(output, buffer, bits))
      invariant Decode(text) == DecodeFrom(Decoder(output, buffer, bits), Digits(text[i..])).output
      invariant forall b: Byte :: table[b] == match DigitOf(b) case None => 255 case Some(d) => d
    {
      var byte := text[i];
      if byte == PAD {
        break;
      }
      var value := table[byte];
      assert text[i..][1..] == text[i + 1..];
      i := i + 1;
      if value == 255 {
        continue;
      }
      FeedHeld(Decoder(output, buffer, bits), value);
      buffer := ShiftIn(buffer, value);
      bits := bits + 6;
      if bits >= 8 {
        bits := bits - 8;
        output := output + [TopByte(buffer, bits)];
        buffer := LowBits(buffer, bits);
      }
    }
  }

  // ---- What the output means ----------------------------------------------

  // The number a digit string denotes, most significant first.
  function Number(s: seq<nat>, base: nat): nat {
    if s == [] then 0 else Number(s[..|s| - 1], base) * base + s[|s| - 1]
  }

  lemma NumberAppend(s: seq<nat>, d: nat, base: nat)
    ensures Number(s + [d], base) == Number(s, base) * base + d
  {
    assert (s + [d])[..|s|] == s;
  }

  // read is everything fed so far: as a number it is the output followed by the held bits.
  ghost predicate Exact(d: Decoder, read: seq<nat>) {
    && 6 * |read| == 8 * |d.output| + d.bits
    && Number(read, 64) == Number(d.output, 256) * Pow2(d.bits) + d.buffer
  }

  lemma Regroup(n: nat, p: nat, buffer: nat, digit: nat)
    ensures (n * p + buffer) * 64 + digit == n * (64 * p) + (buffer * 64 + digit)
  {
  }

  lemma Split(n: nat, p: nat, value: nat)
    requires p > 0
    ensures n * (256 * p) + value == (n * 256 + value / p) * p + value % p
  {
    assert value == value / p * p + value % p;
    assert (n * 256 + value / p) * p == n * 256 * p + value / p * p;
  }

  lemma QuotientIsByte(value: nat, p: nat)
    requires p > 0 && value < 256 * p
    ensures value / p < 256
  {
  }

  lemma FeedExact(d: Decoder, digit: Digit, read: seq<nat>)
    requires Held(d) && Exact(d, read)
    ensures Exact(Feed(d, digit), read + [digit])
  {
    FeedHeld(d, digit);
    NumberAppend(read, digit, 64);
    var value := d.buffer * 64 + digit;
    Regroup(Number(d.output, 256), Pow2(d.bits), d.buffer, digit);
    if d.bits == 0 {
      FeedFirst(d, digit);
    } else {
      var r := FeedPush(d, digit);
      PushExact(d.output, value, d.bits - 2);
    }
  }

  lemma FeedFirst(d: Decoder, digit: Digit)
    requires Held(d) && d.bits == 0
    ensures Feed(d, digit) == Decoder(d.output, d.buffer * 64 + digit, 6) && Pow2(6) == 64 * Pow2(0)
  {
    Pow2Values();
    FeedAt(d, digit);
  }

  lemma FeedPush(d: Decoder, digit: Digit) returns (r: Decoder)
    requires Held(d) && d.bits != 0
    ensures var q, value := Pow2(d.bits - 2), d.buffer * 64 + digit;
            && 64 * Pow2(d.bits) == 256 * q && value < 256 * q && value / q < 256
            && r == Feed(d, digit) == Decoder(d.output + [value / q], value % q, d.bits - 2)
  {
    FeedAt(d, digit);
    hide Feed;
    Pow2Values();
    r := Feed(d, digit);
    var value := d.buffer * 64 + digit;
    if d.bits == 2 {
      assert value / 1 == value && value % 1 == 0;
    }
  }

  // Moving the top eight of a value's bits to the output loses nothing.
  lemma PushExact(output: seq<Byte>, value: nat, bits: nat)
    requires bits in {0, 2, 4} && value < 256 * Pow2(bits)
    ensures value / Pow2(bits) < 256
    ensures Number(output, 256) * (256 * Pow2(bits)) + value
         == Number(output + [value / Pow2(bits)], 256) * Pow2(bits) + value % Pow2(bits)
  {
    var q := Pow2(bits);
    QuotientIsByte(value, q);
    Split(Number(output, 256), q, value);
    NumberAppend(output, value / q, 256);
  }

  lemma {:induction false} DecodeFromExact(d: Decoder, digits: seq<Digit>, read: seq<nat>)
    requires Held(d) && Exact(d, read)
    ensures Exact(DecodeFrom(d, digits), read + digits)
    decreases |digits|
  {
    if digits == [] {
      assert read + digits == read;
    } else {
      FeedHeld(d, digits[0]);
      FeedExact(d, digits[0], read);
      DecodeFromExact(Feed(d, digits[0]), digits[1..], read + [digits[0]]);
      assert read + [digits[0]] + digits[1..] == read + digits;
    }
  }

  lemma {:induction false} NumberInjective(a: seq<nat>, b: seq<nat>, base: nat)
    requires |a| == |b| && Number(a, base) == Number(b, base)
    requires forall i :: 0 <= i < |a| ==> a[i] < base && b[i] < base
    ensures a == b
    decreases |a|
  {
    if a != [] {
      var n := |a| - 1;
      DivMod(Number(a[..n], base), a[n], Number(b[..n], base), b[n], base);
      NumberInjective(a[..n], b[..n], base);
      assert a == a[..n] + [a[n]] && b == b[..n] + [b[n]];
    }
  }

  lemma ScaledGap(x: nat, y: nat, base: nat)
    requires x < y
    ensures x * base + base <= y * base
  {
    assert y * base == (x + 1) * base + (y - x - 1) * base;
    assert (x + 1) * base == x * base + base;
    assert (y - x - 1) * base >= 0;
  }

  lemma DivMod(x: nat, c: nat, y: nat, d: nat, base: nat)
    requires c < base && d < base && x * base + c == y * base + d
    ensures x == y && c == d
  {
    if x < y {
      ScaledGap(x, y, base);
    } else if y < x {
      ScaledGap(y, x, base);
    }
  }

  lemma DivExact(n: nat, p: nat, r: nat)
    requires r < p
    ensures (n * p + r) / p == n
  {
    var v := n * p + r;
    assert v == v / p * p + v % p;
    DivMod(v / p, v % p, n, r, p);
  }

  // out is the leading whole bytes of the digits' bits; the spare bits are dropped.
  ghost predicate LeadingBytes(out: seq<Byte>, digits: seq<Digit>) {
    var spare := 6 * |digits| % 8;
    8 * |out| + spare == 6 * |digits| && Number(out, 256) == Number(digits, 64) / Pow2(spare)
  }

  lemma ExactLeads(d: Decoder, digits: seq<Digit>)
    requires Held(d) && Exact(d, digits)
    ensures LeadingBytes(d.output, digits)
  {
    hide Pow2, Number;
    assert d.bits == 6 * |digits| % 8;
    DivExact(Number(d.output, 256), Pow2(d.bits), d.buffer);
  }

  lemma FreshExact()
    ensures Held(Fresh()) && Exact(Fresh(), [])
  {
    FreshHeld();
  }

  lemma DecodesExactly(d: Decoder, digits: seq<Digit>)
    requires Held(d) && Exact(d, [])
    ensures Exact(DecodeFrom(d, digits), digits)
  {
    DecodeFromExact(d, digits, []);
    assert [] + digits == digits;
  }

  lemma LeadingUnique(a: seq<Byte>, b: seq<Byte>, digits: seq<Digit>)
    requires LeadingBytes(a, digits) && LeadingBytes(b, digits)
    ensures a == b
  {
    NumberInjective(a, b, 256);
  }

  lemma {:induction false} MeaningFrom(d: Decoder, digits: seq<Digit>, out: seq<Byte>)
    requires Held(d) && Exact(d, [])
    ensures DecodeFrom(d, digits).output == out <==> LeadingBytes(out, digits)
  {
    DecodesExactly(d, digits);
    var end := DecodeFrom(d, digits);
    ExactLeads(end, digits);
    if LeadingBytes(out, digits) {
      LeadingUnique(out, end.output, digits);
    }
  }

  /** For every text: the output is the one byte string holding the leading whole bytes of the digits' bits. */
  lemma {:induction false} DecodeMeaning(text: seq<Byte>, out: seq<Byte>)
    ensures Decode(text) == out <==> LeadingBytes(out, Digits(text))
  {
    hide LeadingBytes, Exact, Held, DecodeFrom;
    FreshExact();
    var d := Fresh();
    MeaningFrom(d, Digits(text), out);
  }

  // ---- Section 4 of RFC 4648, encoding -------------------------------------

  // The digits of each 24-bit group, and of the final short group with zero bits added.
  function EncodeDigits(bytes: seq<Byte>): seq<Digit> {
    if bytes == [] then []
    else if |bytes| == 1 then [bytes[0] / 4, bytes[0] % 4 * 16]
    else if |bytes| == 2 then [bytes[0] / 4, bytes[0] % 4 * 16 + bytes[1] / 16, bytes[1] % 16 * 4]
    else
      [bytes[0] / 4, bytes[0] % 4 * 16 + bytes[1] / 16, bytes[1] % 16 * 4 + bytes[2] / 64, bytes[2] % 64]
      + EncodeDigits(bytes[3..])
  }

  function Letters(digits: seq<Digit>): (r: seq<Byte>)
    ensures |r| == |digits|
  {
    seq(|digits|, i requires 0 <= i < |digits| => Letter(digits[i]))
  }

  function Padding(n: nat): seq<Byte> {
    if n % 3 == 1 then [PAD, PAD] else if n % 3 == 2 then [PAD] else []
  }

  function Encode(bytes: seq<Byte>, padded: bool): seq<Byte> {
    Letters(EncodeDigits(bytes)) + if padded then Padding(|bytes|) else []
  }

  lemma {:induction false} DigitsOfLetters(digits: seq<Digit>, more: seq<Byte>)
    requires more == [] || more[0] == PAD
    ensures Digits(Letters(digits) + more) == digits
    decreases |digits|
  {
    var text := Letters(digits) + more;
    if digits == [] {
      assert text == more;
    } else {
      DigitsOfLetters(digits[1..], more);
      assert text[0] == Letter(digits[0]) && text[1..] == Letters(digits[1..]) + more;
    }
  }

  // The four digits of a group, one at a time; the held bits are what is left of the byte being split.
  lemma FeedDigit1(output: seq<Byte>, b0: Byte)
    ensures Held(Decoder(output, 0, 0)) && Held(Decoder(output, b0 / 4, 6))
    ensures Feed(Decoder(output, 0, 0), b0 / 4) == Decoder(output, b0 / 4, 6)
  {
    Pow2Values();
    FeedAt(Decoder(output, 0, 0), b0 / 4);
  }

  // A byte split across two digits, followed by the next byte's top bits, comes apart again.
  lemma Rejoin(b: Byte, next: nat, low: nat, scale: nat)
    requires (low == 4 && scale == 16) || (low == 16 && scale == 4)
    requires next < scale
    ensures (b / low * 64 + (b % low * scale + next)) / scale == b
    ensures (b / low * 64 + (b % low * scale + next)) % scale == next
  {
    assert b == b / low * low + b % low;
    assert b / low * 64 + (b % low * scale + next) == b * scale + next;
  }

  lemma FeedDigit2(output: seq<Byte>, b0: Byte, b1: Byte)
    ensures Held(Decoder(output, b0 / 4, 6)) && Held(Decoder(output + [b0], b1 / 16, 4))
    ensures Feed(Decoder(output, b0 / 4, 6), b0 % 4 * 16 + b1 / 16) == Decoder(output + [b0], b1 / 16, 4)
  {
    Pow2Values();
    hide Feed;
    FeedAt(Decoder(output, b0 / 4, 6), b0 % 4 * 16 + b1 / 16);
    Rejoin(b0, b1 / 16, 4, 16);
  }

  lemma FeedDigit3(output: seq<Byte>, b1: Byte, b2: Byte)
    ensures Held(Decoder(output, b1 / 16, 4)) && Held(Decoder(output + [b1], b2 / 64, 2))
    ensures Feed(Decoder(output, b1 / 16, 4), b1 % 16 * 4 + b2 / 64) == Decoder(output + [b1], b2 / 64, 2)
  {
    Pow2Values();
    hide Feed;
    FeedAt(Decoder(output, b1 / 16, 4), b1 % 16 * 4 + b2 / 64);
    Rejoin(b1, b2 / 64, 16, 4);
  }

  lemma FeedDigit4(output: seq<Byte>, b2: Byte)
    ensures Held(Decoder(output, b2 / 64, 2)) && Held(Decoder(output + [b2], 0, 0))
    ensures Feed(Decoder(output, b2 / 64, 2), b2 % 64) == Decoder(output + [b2], 0, 0)
  {
    Pow2Values();
    hide Feed;
    FeedAt(Decoder(output, b2 / 64, 2), b2 % 64);
  }

  lemma {:induction false} DecodeEncoded(output: seq<Byte>, bytes: seq<Byte>)
    ensures Held(Decoder(output, 0, 0))
    ensures DecodeFrom(Decoder(output, 0, 0), EncodeDigits(bytes)).output == output + bytes
    decreases |bytes|
  {
    FeedDigit1(output, 0);
    if bytes == [] {
      assert output + bytes == output;
    } else if |bytes| == 1 {
      DecodeOne(output, bytes[0]);
      assert bytes == [bytes[0]];
    } else if |bytes| == 2 {
      DecodeTwo(output, bytes[0], bytes[1]);
      assert bytes == [bytes[0], bytes[1]];
    } else {
      DecodeEncoded(output + bytes[..3], bytes[3..]);
      DecodeThree(output, bytes[0], bytes[1], bytes[2], EncodeDigits(bytes[3..]));
      assert bytes[..3] == [bytes[0], bytes[1], bytes[2]];
      assert output + bytes[..3] + bytes[3..] == output + bytes;
    }
  }

  lemma FeedNext(d: Decoder, digit: Digit, rest: seq<Digit>)
    requires Held(d)
    ensures Held(Feed(d, digit)) && DecodeFrom(d, [digit] + rest) == DecodeFrom(Feed(d, digit), rest)
  {
    hide Feed, Held;
    FeedHeld(d, digit);
    assert ([digit] + rest)[1..] == rest;
  }

  lemma DecodeOne(output: seq<Byte>, b0: Byte)
    ensures Held(Decoder(output, 0, 0))
    ensures DecodeFrom(Decoder(output, 0, 0), [b0 / 4, b0 % 4 * 16]).output == output + [b0]
  {
    hide Feed, Held, DecodeFrom;
    FeedDigit1(output, b0);
    FeedDigit2(output, b0, 0);
    FeedNext(Decoder(output, 0, 0), b0 / 4, [b0 % 4 * 16]);
    FeedNext(Decoder(output, b0 / 4, 6), b0 % 4 * 16, []);
    DecodeNothing(Decoder(output + [b0], 0, 4));
    assert [b0 / 4, b0 % 4 * 16] == [b0 / 4] + [b0 % 4 * 16];
    assert [b0 % 4 * 16] == [b0 % 4 * 16] + [];
  }

  lemma DecodeNothing(d: Decoder)
    requires Held(d)
    ensures DecodeFrom(d, []) == d
  {
  }

  lemma DecodeTwo(output: seq<Byte>, b0: Byte, b1: Byte)
    ensures Held(Decoder(output, 0, 0))
    ensures DecodeFrom(Decoder(output, 0, 0), [b0 / 4, b0 % 4 * 16 + b1 / 16, b1 % 16 * 4]).output == output + [b0, b1]
  {
    hide Feed, Held, DecodeFrom;
    FeedDigit1(output, b0);
    FeedDigit2(output, b0, b1);
    FeedDigit3(output + [b0], b1, 0);
    var d1, d2, d3: Digit := b0 / 4, b0 % 4 * 16 + b1 / 16, b1 % 16 * 4;
    FeedNext(Decoder(output, 0, 0), d1, [d2, d3]);
    FeedNext(Decoder(output, b0 / 4, 6), d2, [d3]);
    FeedNext(Decoder(output + [b0], b1 / 16, 4), d3, []);
    DecodeNothing(Decoder(output + [b0] + [b1], 0, 2));
    assert [d1, d2, d3] == [d1] + [d2, d3] && [d2, d3] == [d2] + [d3] && [d3] == [d3] + [];
    assert output + [b0] + [b1] == output + [b0, b1];
  }

  lemma DecodeThree(output: seq<Byte>, b0: Byte, b1: Byte, b2: Byte, rest: seq<Digit>)
    ensures Held(Decoder(output, 0, 0)) && Held(Decoder(output + [b0, b1, b2], 0, 0))
    ensures DecodeFrom(Decoder(output, 0, 0),
                       [b0 / 4, b0 % 4 * 16 + b1 / 16, b1 % 16 * 4 + b2 / 64, b2 % 64] + rest)
         == DecodeFrom(Decoder(output + [b0, b1, b2], 0, 0), rest)
  {
    hide Feed, Held, DecodeFrom;
    FeedDigit1(output, b0);
    FeedDigit2(output, b0, b1);
    FeedDigit3(output + [b0], b1, b2);
    FeedDigit4(output + [b0] + [b1], b2);
    var d1, d2, d3, d4: Digit := b0 / 4, b0 % 4 * 16 + b1 / 16, b1 % 16 * 4 + b2 / 64, b2 % 64;
    FeedNext(Decoder(output, 0, 0), d1, [d2, d3, d4] + rest);
    FeedNext(Decoder(output, b0 / 4, 6), d2, [d3, d4] + rest);
    FeedNext(Decoder(output + [b0], b1 / 16, 4), d3, [d4] + rest);
    FeedNext(Decoder(output + [b0] + [b1], b2 / 64, 2), d4, rest);
    assert [d1, d2, d3, d4] + rest == [d1] + ([d2, d3, d4] + rest);
    assert [d2, d3, d4] + rest == [d2] + ([d3, d4] + rest);
    assert [d3, d4] + rest == [d3] + ([d4] + rest);
    assert output + [b0] + [b1] + [b2] == output + [b0, b1, b2];
  }

  /** The decoder inverts the encoder for every byte string, padded or not. */
  lemma {:induction false} DecodeInvertsEncode(bytes: seq<Byte>, padded: bool)
    ensures Decode(Encode(bytes, padded)) == bytes
  {
    DigitsOfLetters(EncodeDigits(bytes), if padded then Padding(|bytes|) else []);
    DecodeEncoded([], bytes);
    assert [] + bytes == bytes;
    hide DecodeFrom, EncodeDigits, Digits, Letters;
  }

  lemma {:induction false} DigitsAppend(a: seq<Byte>, b: seq<Byte>)
    ensures Digits(a + b) == if PAD in a then Digits(a) else Digits(a) + Digits(b)
    decreases |a|
  {
    if a == [] {
      assert a + b == b;
    } else {
      assert (a + b)[1..] == a[1..] + b;
      DigitsAppend(a[1..], b);
    }
  }

  /** Bytes outside the alphabet are invisible, wherever they are inserted, unless they are the pad. */
  lemma {:induction false} ForeignBytesInvisible(a: seq<Byte>, noise: Byte, b: seq<Byte>)
    requires DigitOf(noise).None? && noise != PAD
    ensures Decode(a + [noise] + b) == Decode(a + b)
  {
    DigitsAppend(a, b);
    DigitsAppend(a, [noise] + b);
    assert a + [noise] + b == a + ([noise] + b);
    assert ([noise] + b)[1..] == b;
  }

  /** Everything from the first pad on is ignored. */
  lemma {:induction false} PadEndsText(a: seq<Byte>, b: seq<Byte>)
    ensures Decode(a + [PAD] + b) == Decode(a)
  {
    DigitsAppend(a, [PAD] + b);
    assert a + [PAD] + b == a + ([PAD] + b);
    assert Digits(a) + [] == Digits(a);
  }

  // The examples of section 10 of RFC 4648 for one, two and three bytes: f, fo and foo.
  lemma {:induction false} KnownEncodings()
    ensures var f, o := 'f' as int, 'o' as int;
            && Encode([f], true) == ['Z' as int, 'g' as int, '=' as int, '=' as int]
            && Encode([f, o], true) == ['Z' as int, 'm' as int, '8' as int, '=' as int]
            && Encode([f, o, o], true) == ['Z' as int, 'm' as int, '9' as int, 'v' as int]
  {
    var f, o := 'f' as int, 'o' as int;
    assert EncodeDigits([f]) == [25, 32];
    assert EncodeDigits([f, o]) == [25, 38, 60];
    assert [f, o, o][3..] == [];
    assert EncodeDigits([f, o, o]) == [25, 38, 61, 47];
  }
}
