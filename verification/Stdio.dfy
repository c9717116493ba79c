/** Formatting integers and strings (pintos/src/lib/stdio.c) and reading integers back
    (pintos/src/lib/stdlib.c). */
module Stdio {
  import opened Sequences

  // ---------- Conversions ----------

  /** The flags, width and precision of a conversion; a negative precision is none. */
  datatype Conversion = Conversion(minus: bool, plus: bool, space: bool, pound: bool, zero: bool, grouped: bool,
                                   width: nat, precision: int)

  /** `struct integer_base`; `x` is the character of the prefix, if there is one. */
  datatype Base = Base(base: nat, digits: string, x: string, group: nat)

  const BASE_D := Base(10, "0123456789", "", 3)
  const BASE_O := Base(8, "01234567", "", 3)
  const BASE_X := Base(16, "0123456789abcdef", "x", 4)
  const BASE_UPPER_X := Base(16, "0123456789ABCDEF", "X", 4)

  predicate IsBase(b: Base) { b == BASE_D || b == BASE_O || b == BASE_X || b == BASE_UPPER_X }

  const TWO_64: nat := 0x1_0000_0000_0000_0000
  const BUFFER_SIZE: nat := 64

  function Repeat(ch: char, n: int): (s: string)
    ensures |s| == if n < 0 then 0 else n
    ensures forall i :: 0 <= i < |s| ==> s[i] == ch
  {
    if n <= 0 then [] else Repeat(ch, n - 1) + [ch]
  }

  function Reverse(s: string): (r: string)
    ensures |r| == |s|
  {
    if s == [] then [] else Reverse(s[1..]) + [s[0]]
  }

  /** The digits of a value, least significant first, with commas between groups if asked for. */
  function RawDigits(value: nat, b: Base, grouped: bool, count: nat): string
    requires IsBase(b)
  {
    if value == 0 then []
    else Digit(value, b, grouped, count) + RawDigits(value / b.base, b, grouped, count + 1)
  }

  /** The least significant digit, after a comma if one is due. */
  function Digit(value: nat, b: Base, grouped: bool, count: nat): (s: string)
    requires IsBase(b)
    ensures 1 <= |s| <= 2
  {
    (if grouped && count > 0 && count % b.group == 0 then [','] else []) + [b.digits[value % b.base]]
  }

  /** Digits with zeros up to the precision, as far as the buffer goes. */
  function Padded(raw: string, precision: int): string {
    raw + Repeat('0', Min(if precision < 0 then 1 else precision, BUFFER_SIZE - 1) - |raw|)
  }

  /** The result of `%#o` always starts with a zero. */
  function WithOctalZero(s: string, b: Base, c: Conversion): string {
    if c.pound && b.base == 8 && (s == [] || s[|s| - 1] != '0') then s + ['0'] else s
  }

  /** What the 64-byte buffer holds at the end, still in reverse. */
  function Buffered(value: nat, b: Base, c: Conversion): string
    requires IsBase(b)
  {
    WithOctalZero(Padded(RawDigits(value, b, c.grouped, 0), c.precision), b, c)
  }

  function Sign(isSigned: bool, negative: bool, c: Conversion): string {
    if !isSigned then []
    else if c.plus then (if negative then ['-'] else ['+'])
    else if c.space then (if negative then ['-'] else [' '])
    else if negative then ['-'] else []
  }

  function Prefix(value: nat, b: Base, c: Conversion): string {
    if c.pound && value > 0 && b.x != [] then ['0'] + b.x else []
  }

  function Spaces(n: int, c: Conversion): string { if !c.minus && !c.zero then Repeat(' ', n) else [] }

  function Zeros(n: int, c: Conversion): string { if c.zero then Repeat('0', n) else [] }

  function Trailing(n: int, c: Conversion): string { if c.minus then Repeat(' ', n) else [] }

  /** A number laid out in its field. */
  function Field(sign: string, prefix: string, body: string, pad: int, c: Conversion): string {
    Spaces(pad, c) + sign + prefix + Zeros(pad, c) + body + Trailing(pad, c)
  }

  /** Everything `format_integer` outputs. */
  function IntegerText(value: nat, isSigned: bool, negative: bool, b: Base, c: Conversion): string
    requires IsBase(b)
  {
    var body, sign, prefix := Buffered(value, b, c), Sign(isSigned, negative, c), Prefix(value, b, c);
    Field(sign, prefix, Reverse(body), c.width - |body| - |prefix| - |sign|, c)
  }

  /** What a signed decimal conversion outputs. */
  function SignedText(value: int, c: Conversion): string {
    IntegerText(if value < 0 then -value else value, true, value < 0, BASE_D, c)
  }

  /** Everything `format_string` outputs. */
  function StringText(s: string, c: Conversion): string {
    (if !c.minus then Repeat(' ', c.width - |s|) else []) + s + (if c.minus then Repeat(' ', c.width - |s|) else [])
  }

  // ---------- The output ----------

  /** `struct vsnprintf_aux`: a buffer that takes the first `maxLength` characters and drops the rest. */
  class Sink {
    const buffer: array<char>
    const maxLength: nat
    var p: nat
    var length: nat
    ghost var text: string

    ghost predicate Valid()
      reads this, buffer
    {
      && maxLength <= buffer.Length
      && length == |text| && p == Min(length, maxLength)
      && buffer[..p] == text[..p]
    }

    constructor (buffer: array<char>, maxLength: nat)
      requires maxLength <= buffer.Length
      ensures this.buffer == buffer && this.maxLength == maxLength && text == [] && Valid()
    {
      this.buffer := buffer;
      this.maxLength := maxLength;
      p := 0;
      length := 0;
      text := [];
    }

    /** `vsnprintf_helper`. */
    method Put(ch: char)
      requires Valid()
      modifies this, buffer
      ensures Valid() && text == old(text) + [ch]
      ensures forall i :: p <= i < buffer.Length ==> buffer[i] == old(buffer[i])
    {
      if length < maxLength {
        buffer[p] := ch;
        p := p + 1;
      }
      length := length + 1;
      text := text + [ch];
    }

    method PutAll(s: string)
      requires Valid()
      modifies this, buffer
      ensures Valid() && text == old(text) + s
      ensures forall i :: p <= i < buffer.Length ==> buffer[i] == old(buffer[i])
    {
      for i := 0 to |s|
        invariant Valid() && text == old(text) + s[..i]
        invariant forall i :: p <= i < buffer.Length ==> buffer[i] == old(buffer[i])
      {
        Put(s[i]);
        assert s[..i + 1] == s[..i] + [s[i]];
      }
    }

    /** `output_dup`. */
    method PutRepeated(ch: char, n: nat)
      requires Valid()
      modifies this, buffer
      ensures Valid() && text == old(text) + Repeat(ch, n)
      ensures forall i :: p <= i < buffer.Length ==> buffer[i] == old(buffer[i])
    {
      for i := 0 to n
        invariant Valid() && text == old(text) + Repeat(ch, i)
        invariant forall i :: p <= i < buffer.Length ==> buffer[i] == old(buffer[i])
      {
        Put(ch);
      }
    }
  }

  // ---------- format_integer ----------

  function Pow8(k: nat): nat { if k == 0 then 1 else 8 * Pow8(k - 1) }

  /** Each digit takes at most a comma with it. */
  lemma {:induction false} RawDigitsBound(value: nat, b: Base, grouped: bool, count: nat, k: nat)
    requires IsBase(b) && value < Pow8(k)
    ensures |RawDigits(value, b, grouped, count)| <= 2 * k
  {
    if value > 0 {
      assert value / b.base <= value / 8 < Pow8(k - 1);
      RawDigitsBound(value / b.base, b, grouped, count + 1, k - 1);
    }
  }

  /** A 64-bit value has at most 22 digits in any base from 8 up. */
  lemma RawDigitsFit(value: nat, b: Base, grouped: bool)
    requires IsBase(b) && value < TWO_64
    ensures |RawDigits(value, b, grouped, 0)| <= 44
  {
    assert Pow8(4) == 4096;
    assert Pow8(8) == 0x100_0000;
    assert Pow8(12) == 0x10_0000_0000;
    assert Pow8(16) == 0x1_0000_0000_0000;
    assert Pow8(20) == 0x1000_0000_0000_0000;
    assert Pow8(22) == 0x4_0000_0000_0000_0000;
    RawDigitsBound(value, b, grouped, 0, 22);
  }

  /** The digit loop of `format_integer`: fills the buffer in reverse and never past its end. */
  method FillDigits(buf: array<char>, value0: nat, b: Base, grouped: bool) returns (cp: nat)
    requires IsBase(b) && value0 < TWO_64 && buf.Length == BUFFER_SIZE
    modifies buf
    ensures cp <= 44 && buf[..cp] == RawDigits(value0, b, grouped, 0)
  {
    RawDigitsFit(value0, b, grouped);
    var value: nat, digitCnt: nat := value0, 0;
    cp := 0;
    while value > 0
      invariant cp <= 44 && |RawDigits(value0, b, grouped, 0)| <= 44
      invariant buf[..cp] + RawDigits(value, b, grouped, digitCnt) == RawDigits(value0, b, grouped, 0)
    {
      ghost var done := buf[..cp];
      DigitStep(done, value, b, grouped, digitCnt);
      cp := StoreDigit(buf, cp, value, b, grouped, digitCnt);
      value := value / b.base;
      digitCnt := digitCnt + 1;
    }
    assert buf[..cp] + [] == buf[..cp];
  }

  lemma DigitStep(done: string, value: nat, b: Base, grouped: bool, count: nat)
    requires IsBase(b) && value > 0
    ensures value / b.base < value
    ensures done + RawDigits(value, b, grouped, count)
         == done + Digit(value, b, grouped, count) + RawDigits(value / b.base, b, grouped, count + 1)
  {
  }

  method StoreDigit(buf: array<char>, at: nat, value: nat, b: Base, grouped: bool, digitCnt: nat) returns (cp: nat)
    requires IsBase(b) && at + |Digit(value, b, grouped, digitCnt)| <= buf.Length
    modifies buf
    ensures cp == at + |Digit(value, b, grouped, digitCnt)|
    ensures buf[..cp] == old(buf[..at]) + Digit(value, b, grouped, digitCnt)
  {
    cp := at;
    if grouped && digitCnt > 0 && digitCnt % b.group == 0 {
      buf[cp] := ',';
      cp := cp + 1;
    }
    buf[cp] := b.digits[value % b.base];
    cp := cp + 1;
  }

  /** The precision loop: zeros up to the precision, but not into the buffer's last place. */
  method FillZeros(buf: array<char>, start: nat, c: Conversion) returns (cp: nat)
    requires start < BUFFER_SIZE == buf.Length
    modifies buf
    ensures start <= cp < BUFFER_SIZE
    ensures buf[..cp] == Padded(old(buf[..start]), c.precision)
  {
    var precision := if c.precision < 0 then 1 else c.precision;
    cp := start;
    ghost var raw := buf[..start];
    while cp < precision && cp < BUFFER_SIZE - 1
      invariant start <= cp <= BUFFER_SIZE - 1 && (cp > start ==> cp <= precision)
      invariant buf[..cp] == raw + Repeat('0', cp - start)
    {
      buf[cp] := '0';
      assert buf[..cp + 1] == buf[..cp] + ['0'];
      cp := cp + 1;
    }
  }

  /** The whole buffer: digits, precision, and the leading zero of `%#o`. */
  method FillBuffer(buf: array<char>, value: nat, b: Base, c: Conversion) returns (cp: nat)
    requires IsBase(b) && value < TWO_64 && buf.Length == BUFFER_SIZE
    modifies buf
    ensures cp <= BUFFER_SIZE && buf[..cp] == Buffered(value, b, c)
  {
    cp := FillDigits(buf, value, b, c.grouped);
    cp := FillZeros(buf, cp, c);
    cp := FillOctalZero(buf, cp, b, c);
  }

  method FillOctalZero(buf: array<char>, start: nat, b: Base, c: Conversion) returns (cp: nat)
    requires start < BUFFER_SIZE == buf.Length
    modifies buf
    ensures cp <= BUFFER_SIZE && buf[..cp] == WithOctalZero(old(buf[..start]), b, c)
  {
    cp := start;
    if c.pound && b.base == 8 && (cp == 0 || buf[cp - 1] != '0') {
      buf[cp] := '0';
      cp := cp + 1;
      assert buf[..cp] == buf[..cp - 1] + ['0'];
    }
  }

  lemma AppendAll(t: string, a: string, b: string, c: string, d: string, e: string, f: string)
    ensures t + (a + b + c + d + e + f) == t + a + b + c + d + e + f
  {
  }

  /** `format_integer` for any 64-bit magnitude. */
  method FormatInteger(out: Sink, value: nat, isSigned: bool, negative: bool, b: Base, c: Conversion)
    requires out.Valid() && IsBase(b) && value < TWO_64
    modifies out, out.buffer
    ensures out.Valid() && out.text == old(out.text) + IntegerText(value, isSigned, negative, b, c)
    ensures forall i :: out.p <= i < out.buffer.Length ==> out.buffer[i] == old(out.buffer[i])
  {
    var sign := Sign(isSigned, negative, c);
    var prefix := Prefix(value, b, c);
    var buf := new char[BUFFER_SIZE];
    var cp := FillBuffer(buf, value, b, c);
    var padCnt := c.width - cp - |prefix| - |sign|;
    if padCnt < 0 { padCnt := 0; }
    PutField(out, sign, prefix, buf, cp, padCnt, c);
  }

  /** The output part of `format_integer`. */
  method PutField(out: Sink, sign: string, prefix: string, buf: array<char>, cp: nat, padCnt: nat, c: Conversion)
    requires out.Valid() && cp <= buf.Length && buf != out.buffer
    modifies out, out.buffer
    ensures out.Valid() && out.text == old(out.text) + Field(sign, prefix, Reverse(buf[..cp]), padCnt, c)
    ensures forall i :: out.p <= i < out.buffer.Length ==> out.buffer[i] == old(out.buffer[i])
  {
    ghost var body := Reverse(buf[..cp]);
    PutFront(out, sign, prefix, padCnt, c);
    PutReversed(out, buf, cp);
    if c.minus { out.PutRepeated(' ', padCnt); }
    AppendAll(old(out.text), Spaces(padCnt, c), sign, prefix, Zeros(padCnt, c), body, Trailing(padCnt, c));
  }

  method PutFront(out: Sink, sign: string, prefix: string, padCnt: nat, c: Conversion)
    requires out.Valid()
    modifies out, out.buffer
    ensures out.Valid() && out.text == old(out.text) + Spaces(padCnt, c) + sign + prefix + Zeros(padCnt, c)
    ensures forall i :: out.p <= i < out.buffer.Length ==> out.buffer[i] == old(out.buffer[i])
  {
    if !c.minus && !c.zero { out.PutRepeated(' ', padCnt); }
    out.PutAll(sign);
    out.PutAll(prefix);
    if c.zero { out.PutRepeated('0', padCnt); }
  }

  /** The output loop from the last character of the buffer to the first. */
  method PutReversed(out: Sink, buf: array<char>, n: nat)
    requires out.Valid() && n <= buf.Length && buf != out.buffer
    modifies out, out.buffer
    ensures out.Valid() && out.text == old(out.text) + Reverse(buf[..n])
    ensures forall i :: out.p <= i < out.buffer.Length ==> out.buffer[i] == old(out.buffer[i])
  {
    ghost var s := buf[..n];
    assert s[..n] == s;
    var cp := n;
    while cp > 0
      invariant 0 <= cp <= n && out.Valid() && buf[..n] == s
      invariant out.text + Reverse(s[..cp]) == old(out.text) + Reverse(s)
      invariant forall i :: out.p <= i < out.buffer.Length ==> out.buffer[i] == old(out.buffer[i])
    {
      cp := cp - 1;
      ReverseLast(s[..cp + 1]);
      assert s[..cp + 1][..cp] == s[..cp];
      out.Put(buf[cp]);
    }
  }

  lemma {:induction false} ReverseLast(s: string)
    requires s != []
    ensures Reverse(s) == [s[|s| - 1]] + Reverse(s[..|s| - 1])
  {
    if |s| > 1 {
      ReverseLast(s[1..]);
      assert s[1..][..|s| - 2] == s[..|s| - 1][1..];
    }
  }

  // ---------- What the text looks like ----------

  lemma {:induction false} ReverseKeepsAt(s: string, k: nat)
    requires k < |s|
    ensures Reverse(s)[k] == s[|s| - 1 - k]
  {
    if k < |s| - 1 { ReverseKeepsAt(s[1..], k); }
  }

  function ContentWidth(value: nat, isSigned: bool, negative: bool, b: Base, c: Conversion): nat
    requires IsBase(b)
  {
    |Sign(isSigned, negative, c)| + |Prefix(value, b, c)| + |Buffered(value, b, c)|
  }

  /** A field is padded once, and twice if both `-` and `0` are set: zeros, and then blanks behind. */
  lemma TextWidth(value: nat, isSigned: bool, negative: bool, b: Base, c: Conversion)
    requires IsBase(b)
    ensures var content := ContentWidth(value, isSigned, negative, b, c);
            var pad := if c.width > content then c.width - content else 0;
            |IntegerText(value, isSigned, negative, b, c)| == content + pad * (if c.minus && c.zero then 2 else 1)
  {
  }

  /** A field is as wide as asked for, or as its content needs if that is more, exactly when `-` and
      `0` are not both set on a field that needs padding. */
  lemma FieldWidthIff(value: nat, isSigned: bool, negative: bool, b: Base, c: Conversion)
    requires IsBase(b)
    ensures var content := ContentWidth(value, isSigned, negative, b, c);
            |IntegerText(value, isSigned, negative, b, c)| == (if c.width > content then c.width else content) <==>
            !(c.minus && c.zero && c.width > content)
  {
    TextWidth(value, isSigned, negative, b, c);
  }

  // ---------- What the digits denote ----------

  /** The value of a digit in any of the bases. */
  function DigitIn(ch: char): int {
    if ch <= '9' then ch as int - '0' as int
    else if ch >= 'a' then ch as int - 'a' as int + 10
    else ch as int - 'A' as int + 10
  }

  /** The number denoted by digits given least significant first, commas aside. */
  function ValueIn(s: string, base: nat): int {
    if s == [] then 0
    else if s[0] == ',' then ValueIn(s[1..], base)
    else DigitIn(s[0]) + base * ValueIn(s[1..], base)
  }

  lemma DigitOfBase(b: Base, k: nat)
    requires IsBase(b) && k < b.base
    ensures DigitIn(b.digits[k]) == k && b.digits[k] != ',' && (k > 0 ==> b.digits[k] != '0')
  {
  }

  lemma ValueOfDigit(b: Base, k: nat, comma: string, rest: string)
    requires IsBase(b) && k < b.base && (comma == [] || comma == [','])
    ensures ValueIn((comma + [b.digits[k]]) + rest, b.base) == k + b.base * ValueIn(rest, b.base)
  {
    DigitOfBase(b, k);
    var s := [b.digits[k]] + rest;
    assert s[1..] == rest;
    if comma == [] {
      assert (comma + [b.digits[k]]) + rest == s;
    } else {
      assert ((comma + [b.digits[k]]) + rest)[1..] == s;
    }
  }

  lemma {:induction false} RawDigitsValue(value: nat, b: Base, grouped: bool, count: nat)
    requires IsBase(b)
    ensures ValueIn(RawDigits(value, b, grouped, count), b.base) == value
  {
    if value > 0 {
      RawDigitsValue(value / b.base, b, grouped, count + 1);
      var comma := if grouped && count > 0 && count % b.group == 0 then [','] else [];
      ValueOfDigit(b, value % b.base, comma, RawDigits(value / b.base, b, grouped, count + 1));
    }
  }

  lemma {:induction false} ZerosAddNothing(s: string, zeros: string, base: nat)
    requires forall i :: 0 <= i < |zeros| ==> zeros[i] == '0'
    ensures ValueIn(s + zeros, base) == ValueIn(s, base)
    decreases |s|, |zeros|
  {
    if s != [] {
      ZerosAddNothing(s[1..], zeros, base);
      assert (s + zeros)[1..] == s[1..] + zeros;
    } else if zeros != [] {
      ZerosAddNothing([], zeros[1..], base);
      assert [] + zeros == zeros && [] + zeros[1..] == zeros[1..];
    }
  }

  /** Whatever the base, grouping and precision, the characters put out denote the value. */
  lemma BufferDenotes(value: nat, b: Base, c: Conversion)
    requires IsBase(b)
    ensures ValueIn(Buffered(value, b, c), b.base) == value
  {
    var raw := RawDigits(value, b, c.grouped, 0);
    var padded := Padded(raw, c.precision);
    RawDigitsValue(value, b, c.grouped, 0);
    ZerosAddNothing(raw, padded[|raw|..], b.base);
    assert padded == raw + padded[|raw|..];
    ZerosAddNothing(padded, ['0'], b.base);
  }

  // ---------- How many digits there are ----------

  /** Digits, that is, characters that are not commas. */
  function DigitCount(s: string): nat {
    if s == [] then 0 else (if s[0] == ',' then 0 else 1) + DigitCount(s[1..])
  }

  lemma {:induction false} DigitCountAppend(s: string, t: string)
    ensures DigitCount(s + t) == DigitCount(s) + DigitCount(t)
  {
    if s == [] {
      assert s + t == t;
    } else {
      DigitCountAppend(s[1..], t);
      assert (s + t)[1..] == s[1..] + t;
    }
  }

  lemma {:induction false} AllAreDigits(s: string)
    requires ',' !in s
    ensures DigitCount(s) == |s|
  {
    if s != [] { AllAreDigits(s[1..]); }
  }

  function NumDigits(value: nat, base: nat): nat
    requires base >= 2
  {
    if value == 0 then 0 else 1 + NumDigits(value / base, base)
  }

  /** The commas that come with the digits from the given count on. */
  function Commas(value: nat, base: nat, group: nat, count: nat): nat
    requires base >= 2 && group >= 1
  {
    if value == 0 then 0
    else (if count > 0 && count % group == 0 then 1 else 0) + Commas(value / base, base, group, count + 1)
  }

  lemma OneCharacter(ch: char, s: string)
    requires ch != ',' && (s == [ch] || s == [','] + [ch])
    ensures DigitCount(s) == 1 && s != [] && s[|s| - 1] == ch
  {
    assert [ch][1..] == [];
    assert |s| == 2 ==> s[1..] == [ch];
  }

  lemma OneDigit(b: Base, k: nat, s: string)
    requires IsBase(b) && k < b.base && (s == [b.digits[k]] || s == [','] + [b.digits[k]])
    ensures DigitCount(s) == 1 && (k > 0 ==> s[|s| - 1] != '0')
  {
    DigitOfBase(b, k);
    OneCharacter(b.digits[k], s);
  }

  lemma {:induction false} RawDigitCount(value: nat, b: Base, grouped: bool, count: nat)
    requires IsBase(b)
    ensures DigitCount(RawDigits(value, b, grouped, count)) == NumDigits(value, b.base)
    ensures |RawDigits(value, b, grouped, count)|
         == NumDigits(value, b.base) + (if grouped then Commas(value, b.base, b.group, count) else 0)
  {
    if value > 0 {
      RawDigitCount(value / b.base, b, grouped, count + 1);
      OneDigit(b, value % b.base, Digit(value, b, grouped, count));
      DigitCountAppend(Digit(value, b, grouped, count), RawDigits(value / b.base, b, grouped, count + 1));
    }
  }

  lemma {:induction false} TopDigit(value: nat, b: Base, grouped: bool, count: nat)
    requires IsBase(b) && value > 0
    ensures var raw := RawDigits(value, b, grouped, count); raw != [] && raw[|raw| - 1] != '0'
  {
    if value < b.base {
      OneDigit(b, value % b.base, Digit(value, b, grouped, count));
      assert RawDigits(value / b.base, b, grouped, count + 1) == [];
    } else {
      TopDigit(value / b.base, b, grouped, count + 1);
    }
  }

  lemma FirstMultiple(count: nat, group: nat)
    requires 1 <= count <= group
    ensures count % group == 0 <==> count == group
  {
  }

  /** From the second digit on, a comma comes up when the count gets to the group's size. */
  lemma {:induction false} CommasAfter(value: nat, base: nat, group: nat, count: nat)
    requires base >= 2 && 1 <= count <= group
    ensures Commas(value, base, group, count) == 0 <==> value == 0 || count + NumDigits(value, base) <= group
  {
    FirstMultiple(count, group);
    if value > 0 && count < group { CommasAfter(value / base, base, group, count + 1); }
  }

  /** There are commas exactly when there are more digits than a group has. */
  lemma NoCommasIff(value: nat, base: nat, group: nat)
    requires base >= 2 && group >= 1
    ensures Commas(value, base, group, 0) == 0 <==> NumDigits(value, base) <= group
  {
    if value > 0 { CommasAfter(value / base, base, group, 1); }
  }

  lemma PaddedDigitCount(raw: string, precision: nat)
    requires |raw| <= BUFFER_SIZE - 1
    ensures var padded := Padded(raw, precision);
            && DigitCount(padded) == DigitCount(raw) + (|padded| - |raw|)
            && |padded| == (if |raw| >= precision then |raw| else Min(precision, BUFFER_SIZE - 1))
            && (|padded| > |raw| ==> padded[|padded| - 1] == '0')
            && (|padded| == |raw| ==> padded == raw)
  {
    var padded := Padded(raw, precision);
    assert padded == raw + padded[|raw|..];
    AllAreDigits(padded[|raw|..]);
    DigitCountAppend(raw, padded[|raw|..]);
  }

  lemma OctalZeroCount(s: string, b: Base, c: Conversion)
    ensures DigitCount(WithOctalZero(s, b, c))
         == DigitCount(s) + (if c.pound && b.base == 8 && (s == [] || s[|s| - 1] != '0') then 1 else 0)
  {
    AllAreDigits(['0']);
    DigitCountAppend(s, ['0']);
  }

  /** The number of digits put out. */
  lemma BufferedDigitCount(value: nat, b: Base, c: Conversion)
    requires IsBase(b) && value < TWO_64 && c.precision >= 0
    ensures var n := NumDigits(value, b.base);
            var commas := if c.grouped then Commas(value, b.base, b.group, 0) else 0;
            && n + commas <= 44
            && DigitCount(Buffered(value, b, c))
            == if n + commas < c.precision then Min(c.precision, BUFFER_SIZE - 1) - commas
               else n + (if c.pound && b.base == 8 then 1 else 0)
  {
    var raw := RawDigits(value, b, c.grouped, 0);
    RawDigitsFit(value, b, c.grouped);
    RawDigitCount(value, b, c.grouped, 0);
    if value > 0 { TopDigit(value, b, c.grouped, 0); }
    PaddedDigitCount(raw, c.precision);
    OctalZeroCount(Padded(raw, c.precision), b, c);
  }

  /** At least as many digits as the precision are shown, as section 7.19.6.1 of ISO C99 demands,
      exactly when the value has that many itself, or when no comma is put between its digits and the
      precision is at most 63, one less than the buffer holds. */
  lemma PrecisionHonouredIff(value: nat, b: Base, c: Conversion)
    requires IsBase(b) && value < TWO_64 && c.precision >= 0
    ensures var n := NumDigits(value, b.base);
            DigitCount(Buffered(value, b, c)) >= c.precision <==>
            || c.precision <= n + (if c.pound && b.base == 8 then 1 else 0)
            || (c.precision <= BUFFER_SIZE - 1 && (!c.grouped || n <= b.group))
  {
    BufferedDigitCount(value, b, c);
    NoCommasIff(value, b.base, b.group);
  }

  /** `%.64d` of 1 shows 63 digits, and `%'.5d` of 1234 shows four. */
  lemma PrecisionNotHonoured()
    ensures DigitCount(Buffered(1, BASE_D, Conversion(false, false, false, false, false, false, 0, 64))) == 63
    ensures DigitCount(Buffered(1234, BASE_D, Conversion(false, false, false, false, false, true, 0, 5))) == 4
  {
    assert NumDigits(1, 10) == 1;
    BufferedDigitCount(1, BASE_D, Conversion(false, false, false, false, false, false, 0, 64));
    assert NumDigits(12, 10) == 2 && NumDigits(123, 10) == 3 && NumDigits(1234, 10) == 4;
    assert Commas(1, 10, 3, 3) == 1 && Commas(12, 10, 3, 2) == 1 && Commas(123, 10, 3, 1) == 1;
    BufferedDigitCount(1234, BASE_D, Conversion(false, false, false, false, false, true, 0, 5));
  }

  // ---------- format_string ----------

  method FormatString(out: Sink, s: string, c: Conversion)
    requires out.Valid()
    modifies out, out.buffer
    ensures out.Valid() && out.text == old(out.text) + StringText(s, c)
    ensures forall i :: out.p <= i < out.buffer.Length ==> out.buffer[i] == old(out.buffer[i])
  {
    if c.width > |s| && !c.minus { out.PutRepeated(' ', c.width - |s|); }
    out.PutAll(s);
    if c.width > |s| && c.minus { out.PutRepeated(' ', c.width - |s|); }
    var front := if !c.minus then Repeat(' ', c.width - |s|) else [];
    var back := if c.minus then Repeat(' ', c.width - |s|) else [];
    assert out.text == old(out.text) + front + s + back;
    assert old(out.text) + front + s + back == old(out.text) + (front + s + back);
  }
}
