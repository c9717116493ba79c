/** What a format string prints (`__vprintf` in pintos/src/lib/stdio.c) when it is written out piece by
    piece: every piece shows its own arguments, in order, whatever stands around it. */
module Formats {
  import opened Sequences
  import opened Stdio
  import opened Atoi
  import opened Printf
  import opened Nonlinear

  // ---------- What a field looks like ----------

  /** A sign or prefix and what it belongs to, in a field of the given width: with `0` zeros fill it
      between the two, with `-` blanks behind them (both, if both are set), and otherwise blanks in
      front. */
  predicate LaidOut(text: string, front: string, body: string, c: Conversion) {
    var pad := c.width - |front| - |body|;
    if c.minus && c.zero then text == front + Repeat('0', pad) + body + Repeat(' ', pad)
    else if c.zero then text == front + Repeat('0', pad) + body
    else if c.minus then text == front + body + Repeat(' ', pad)
    else text == Repeat(' ', pad) + front + body
  }

  lemma FieldLaidOut(sign: string, prefix: string, body: string, c: Conversion)
    ensures LaidOut(Field(sign, prefix, body, c.width - |body| - |prefix| - |sign|, c), sign + prefix, body, c)
  {
    var pad := c.width - |body| - |prefix| - |sign|;
    PartsInOrder(Spaces(pad, c), sign, prefix, Zeros(pad, c), body, Trailing(pad, c));
    if c.zero {
      NothingBefore(sign + prefix, Zeros(pad, c), body, Trailing(pad, c));
    } else {
      NothingBetween(Spaces(pad, c), sign + prefix, body, Trailing(pad, c));
    }
  }

  lemma PartsInOrder(spaces: string, sign: string, prefix: string, zeros: string, body: string, trailing: string)
    ensures spaces + sign + prefix + zeros + body + trailing == spaces + (sign + prefix) + zeros + body + trailing
  {
  }

  lemma NothingBefore(front: string, zeros: string, body: string, trailing: string)
    ensures [] + front + zeros + body + trailing == front + zeros + body + trailing
    ensures [] + front + zeros + body + [] == front + zeros + body
  {
  }

  lemma NothingBetween(spaces: string, front: string, body: string, trailing: string)
    ensures [] + front + [] + body + trailing == front + body + trailing
    ensures spaces + front + [] + body + [] == spaces + front + body
  {
  }

  /** A minus for what is below zero, else what the flags ask for, `+` before blank. */
  function SignShown(v: int, c: Conversion): string {
    if v < 0 then "-" else if c.plus then "+" else if c.space then " " else ""
  }

  /** `#` in base 16 puts 0x or 0X before anything but zero. */
  function PrefixShown(value: nat, base: nat, upper: bool, c: Conversion): string {
    if !c.pound || base != 16 || value == 0 then "" else if upper then "0X" else "0x"
  }

  predicate IsDigitOf(ch: char, base: nat, upper: bool) {
    if base == 8 then '0' <= ch <= '7'
    else if base == 10 then '0' <= ch <= '9'
    else '0' <= ch <= '9' || (if upper then 'A' <= ch <= 'F' else 'a' <= ch <= 'f')
  }

  /** The number that digits denote, most significant first, commas aside. */
  function NumberIn(s: string, base: nat): int {
    if s == [] then 0
    else
      var n := NumberIn(s[..|s| - 1], base);
      if s[|s| - 1] == ',' then n else n * base + DigitIn(s[|s| - 1])
  }

  function GroupOf(base: nat): nat { if base == 16 then 4 else 3 }

  /** The commas between n digits. */
  function CommasIn(n: nat, base: nat): nat { if n == 0 then 0 else (n - 1) / GroupOf(base) }

  /** Digits and commas that a value itself takes, zeros from a precision aside. */
  function OwnWidth(value: nat, base: nat, c: Conversion): nat
    requires base >= 2
  {
    NumDigits(value, base) + (if c.grouped then CommasIn(NumDigits(value, base), base) else 0)
  }

  /** How many digits are shown: as many as the value has, one at least unless the precision is zero, and
      with a precision that many, of which there is room for 63, and commas take their part of it; and
      with `#` in base 8 a zero in front if there was none. */
  function DigitsShown(value: nat, base: nat, c: Conversion): int
    requires base >= 2
  {
    var n, own := NumDigits(value, base), OwnWidth(value, base, c);
    var wanted := if c.precision < 0 then 1 else c.precision;
    if own < wanted then n + Min(wanted, 63) - own else n + (if c.pound && base == 8 then 1 else 0)
  }

  /** The digits of a value in its base and case, that many, with a comma between groups if asked for. */
  ghost predicate ShowsNumber(body: string, value: nat, base: nat, upper: bool, c: Conversion)
    requires base >= 2
  {
    && (forall ch :: ch in body ==> ch == ',' || IsDigitOf(ch, base, upper))
    && NumberIn(body, base) == value
    && DigitCount(body) == DigitsShown(value, base, c)
    && CommasPlaced(body, value, base, c)
  }

  function FromEnd(s: string, p: nat): char
    requires p < |s|
  {
    s[|s| - 1 - p]
  }

  ghost predicate CommasPlaced(body: string, value: nat, base: nat, c: Conversion)
    requires base >= 2
  {
    var group := GroupOf(base);
    forall p: nat :: p < |body| ==>
      (FromEnd(body, p) == ',' <==> c.grouped && p < OwnWidth(value, base, c) && p % (group + 1) == group)
  }

  // ---------- The digits of the buffer ----------

  lemma {:induction false} ReversedNumber(r: string, base: nat)
    ensures NumberIn(Reverse(r), base) == ValueIn(r, base)
  {
    if r != [] {
      ReversedNumber(r[1..], base);
      assert Reverse(r)[..|r| - 1] == Reverse(r[1..]);
    }
  }

  lemma {:induction false} ReversedCount(r: string)
    ensures DigitCount(Reverse(r)) == DigitCount(r)
  {
    if r != [] {
      ReversedCount(r[1..]);
      DigitCountAppend(Reverse(r[1..]), [r[0]]);
      assert [r[0]][1..] == [];
    }
  }

  lemma {:induction false} ReversedHas(r: string, ch: char)
    ensures ch in Reverse(r) <==> ch in r
  {
    if r != [] { ReversedHas(r[1..], ch); }
  }

  function IsUpper(b: Base): bool { b == BASE_UPPER_X }

  lemma BaseDigit(b: Base, k: nat)
    requires IsBase(b) && k < b.base
    ensures IsDigitOf(b.digits[k], b.base, IsUpper(b)) && IsDigitOf('0', b.base, IsUpper(b))
  {
  }

  lemma {:induction false} RawHasDigits(value: nat, b: Base, grouped: bool, count: nat, ch: char)
    requires IsBase(b) && ch in RawDigits(value, b, grouped, count)
    ensures ch == ',' || IsDigitOf(ch, b.base, IsUpper(b))
  {
    BaseDigit(b, value % b.base);
    if ch !in Digit(value, b, grouped, count) { RawHasDigits(value / b.base, b, grouped, count + 1, ch); }
  }

  lemma BufferHasDigits(value: nat, b: Base, c: Conversion, ch: char)
    requires IsBase(b) && ch in Buffered(value, b, c)
    ensures ch == ',' || IsDigitOf(ch, b.base, IsUpper(b))
  {
    BaseDigit(b, 0);
    var raw := RawDigits(value, b, c.grouped, 0);
    if ch in raw { RawHasDigits(value, b, c.grouped, 0, ch); }
  }

  /** Characters put out before the digit with this number, least significant first. */
  function Before(count: nat, group: nat): nat
    requires group > 0
  {
    if count == 0 then 0 else count + (count - 1) / group
  }

  lemma NextOfThree(count: nat)
    ensures var comma, at := count > 0 && count % 3 == 0, Before(count, 3);
            && Before(count + 1, 3) == at + (if comma then 2 else 1)
            && (at % 4 == 3 <==> comma) && (comma ==> (at + 1) % 4 != 3)
  {
    assert count == 3 * (count / 3) + count % 3;
  }

  lemma NextOfFour(count: nat)
    ensures var comma, at := count > 0 && count % 4 == 0, Before(count, 4);
            && Before(count + 1, 4) == at + (if comma then 2 else 1)
            && (at % 5 == 4 <==> comma) && (comma ==> (at + 1) % 5 != 4)
  {
    assert count == 4 * (count / 4) + count % 4;
  }

  lemma NextPlace(count: nat, group: nat)
    requires group == 3 || group == 4
    ensures var comma := count > 0 && count % group == 0;
            var at := Before(count, group);
            && Before(count + 1, group) == at + (if comma then 2 else 1)
            && (at % (group + 1) == group <==> comma) && (comma ==> (at + 1) % (group + 1) != group)
  {
    if group == 3 { NextOfThree(count); } else { NextOfFour(count); }
  }

  /** The comma, if one is due, and the digit. */
  lemma DigitCommas(value: nat, b: Base, grouped: bool, count: nat, p: nat)
    requires IsBase(b) && p < |Digit(value, b, grouped, count)|
    ensures Digit(value, b, grouped, count)[p] == ',' <==>
            grouped && (Before(count, b.group) + p) % (b.group + 1) == b.group
  {
    NextPlace(count, b.group);
    DigitOfBase(b, value % b.base);
  }

  lemma DigitsBefore(value: nat, b: Base, grouped: bool, count: nat)
    requires IsBase(b)
    ensures grouped ==> Before(count + 1, b.group) == Before(count, b.group) + |Digit(value, b, grouped, count)|
  {
    NextPlace(count, b.group);
  }

  lemma {:induction false} RawCommas(value: nat, b: Base, grouped: bool, count: nat, p: nat)
    requires IsBase(b) && p < |RawDigits(value, b, grouped, count)|
    ensures RawDigits(value, b, grouped, count)[p] == ',' <==>
            grouped && (Before(count, b.group) + p) % (b.group + 1) == b.group
  {
    var n := |Digit(value, b, grouped, count)|;
    DigitsBefore(value, b, grouped, count);
    if p < n {
      DigitCommas(value, b, grouped, count, p);
    } else {
      RawCommas(value / b.base, b, grouped, count + 1, p - n);
      assert grouped ==> Before(count, b.group) + p == Before(count + 1, b.group) + (p - n);
    }
  }

  lemma {:induction false} CommasCounted(value: nat, base: nat, group: nat, count: nat)
    requires base >= 2 && (group == 3 || group == 4)
    ensures NumDigits(value, base) + Commas(value, base, group, count)
         == Before(count + NumDigits(value, base), group) - Before(count, group)
  {
    NextPlace(count, group);
    if value > 0 { CommasCounted(value / base, base, group, count + 1); }
  }

  lemma CommasAre(value: nat, b: Base)
    requires IsBase(b)
    ensures Commas(value, b.base, b.group, 0) == CommasIn(NumDigits(value, b.base), b.base)
  {
    CommasCounted(value, b.base, b.group, 0);
  }

  lemma OwnWidthIs(value: nat, b: Base, c: Conversion)
    requires IsBase(b)
    ensures |RawDigits(value, b, c.grouped, 0)| == OwnWidth(value, b.base, c)
  {
    RawDigitCount(value, b, c.grouped, 0);
    CommasAre(value, b);
  }

  lemma BufferCount(value: nat, b: Base, c: Conversion)
    requires IsBase(b) && value < TWO_64
    ensures DigitCount(Buffered(value, b, c)) == DigitsShown(value, b.base, c)
  {
    var c1 := if c.precision < 0 then c.(precision := 1) else c;
    BufferedDigitCount(value, b, c1);
    CommasAre(value, b);
    NoPrecisionIsOne(value, b, c, c1);
  }

  lemma NoPrecisionIsOne(value: nat, b: Base, c: Conversion, c1: Conversion)
    requires IsBase(b) && c1 == if c.precision < 0 then c.(precision := 1) else c
    ensures Buffered(value, b, c) == Buffered(value, b, c1)
  {
  }

  lemma BufferCommas(value: nat, b: Base, c: Conversion, p: nat)
    requires IsBase(b) && p < |Buffered(value, b, c)|
    ensures Buffered(value, b, c)[p] == ',' <==>
            c.grouped && p < OwnWidth(value, b.base, c) && p % (b.group + 1) == b.group
  {
    OwnWidthIs(value, b, c);
    var raw := RawDigits(value, b, c.grouped, 0);
    if p < |raw| {
      RawCommas(value, b, c.grouped, 0, p);
      assert Buffered(value, b, c)[p] == raw[p];
    } else {
      assert Buffered(value, b, c)[p] == '0';
    }
  }

  /** What `format_integer` puts out for the digits. */
  lemma BufferShows(value: nat, b: Base, c: Conversion)
    requires IsBase(b) && value < TWO_64
    ensures ShowsNumber(Reverse(Buffered(value, b, c)), value, b.base, IsUpper(b), c)
  {
    var r := Buffered(value, b, c);
    ReversedNumber(r, b.base);
    BufferDenotes(value, b, c);
    ReversedCount(r);
    BufferCount(value, b, c);
    forall ch | ch in Reverse(r) ensures ch == ',' || IsDigitOf(ch, b.base, IsUpper(b)) {
      ReversedHas(r, ch);
      BufferHasDigits(value, b, c, ch);
    }
    forall p: nat | p < |r|
      ensures FromEnd(Reverse(r), p) == ',' <==>
              c.grouped && p < OwnWidth(value, b.base, c) && p % (GroupOf(b.base) + 1) == GroupOf(b.base)
    {
      ReverseKeepsAt(r, |r| - 1 - p);
      BufferCommas(value, b, c, p);
    }
  }

  lemma SignAndPrefix(v: int, value: nat, b: Base, c: Conversion)
    requires IsBase(b)
    ensures Sign(true, v < 0, c) == SignShown(v, c) && Sign(false, v < 0, c) == []
    ensures Prefix(value, b, c) == PrefixShown(value, b.base, IsUpper(b), c)
  {
  }

  /** A number with its sign or prefix, where the flags put it. */
  ghost predicate ShowsInField(text: string, front: string, body: string, value: nat, base: nat, upper: bool,
                               c: Conversion)
    requires base >= 2
  {
    LaidOut(text, front, body, c) && ShowsNumber(body, value, base, upper, c)
  }

  function Magnitude(v: int): nat { if v < 0 then -v else v }

  lemma IntegerShown(value: nat, isSigned: bool, negative: bool, b: Base, c: Conversion, front: string)
    requires IsBase(b) && value < TWO_64 && front == Sign(isSigned, negative, c) + Prefix(value, b, c)
    ensures exists body ::
              ShowsInField(IntegerText(value, isSigned, negative, b, c), front, body, value, b.base, IsUpper(b), c)
  {
    var text, body := IntegerText(value, isSigned, negative, b, c), Reverse(Buffered(value, b, c));
    IntegerLaidOut(value, isSigned, negative, b, c, front);
    BufferShows(value, b, c);
    FieldShows(text, front, body, value, b.base, IsUpper(b), c);
  }

  lemma FieldShows(text: string, front: string, body: string, value: nat, base: nat, upper: bool, c: Conversion)
    requires base >= 2 && LaidOut(text, front, body, c) && ShowsNumber(body, value, base, upper, c)
    ensures exists s :: ShowsInField(text, front, s, value, base, upper, c)
  {
    assert ShowsInField(text, front, body, value, base, upper, c);
  }

  lemma IntegerLaidOut(value: nat, isSigned: bool, negative: bool, b: Base, c: Conversion, front: string)
    requires IsBase(b) && front == Sign(isSigned, negative, c) + Prefix(value, b, c)
    ensures LaidOut(IntegerText(value, isSigned, negative, b, c), front, Reverse(Buffered(value, b, c)), c)
  {
    hide LaidOut, Field, Buffered;
    FieldLaidOut(Sign(isSigned, negative, c), Prefix(value, b, c), Reverse(Buffered(value, b, c)), c);
  }

  /** What `format_integer` makes of a signed number. */
  lemma SignedShown(v: int, c: Conversion)
    requires 0 < v + TWO_64 && v < TWO_64
    ensures exists body :: ShowsInField(SignedText(v, c), SignShown(v, c), body, Magnitude(v), 10, false, c)
  {
    SignAndPrefix(v, Magnitude(v), BASE_D, c);
    assert SignShown(v, c) + [] == SignShown(v, c) && BASE_D.base == 10 && !IsUpper(BASE_D);
    IntegerShown(Magnitude(v), true, v < 0, BASE_D, c, SignShown(v, c));
    assert SignedText(v, c) == IntegerText(Magnitude(v), true, v < 0, BASE_D, c);
  }

  /** What it makes of an unsigned one. */
  lemma UnsignedShown(value: nat, b: Base, c: Conversion)
    requires IsBase(b) && value < TWO_64
    ensures exists body :: ShowsInField(IntegerText(value, false, false, b, c),
                                        PrefixShown(value, b.base, IsUpper(b), c), body, value, b.base, IsUpper(b), c)
  {
    var front := PrefixShown(value, b.base, IsUpper(b), c);
    SignAndPrefix(0, value, b, c);
    assert [] + front == front;
    IntegerShown(value, false, false, b, c, front);
  }

  lemma StringLaidOut(s: string, c: Conversion)
    ensures LaidOut(StringText(s, c), [], s, c.(zero := false))
  {
    assert [] + s == s;
  }

  // ---------- Formats written out ----------

  /** A width or a precision: none, a number, or a star and the int that it stands for. */
  datatype Amount = Omitted | Given(n: nat) | Star(arg: int)

  /** A conversion as it is written: flags in any order and number, width, precision, length modifier and
      letter. */
  datatype Spec = Spec(flags: string, width: Amount, precision: Amount, kind: Kind, letter: char)

  /** A piece of a format with the arguments it is for: text, of which percent signs are doubled, a
      conversion with its argument, or one that the kernel does not have. */
  datatype Item = Text(s: string) | Conv(spec: Spec, arg: Arg) | Unsupported(spec: Spec)

  /** A number as a specification writes it; nothing for zero. */
  function NumberText(n: nat): string { Reverse(RawDigits(n, BASE_D, false, 0)) }

  function WidthText(a: Amount): string {
    match a
    case Omitted => ""
    case Given(n) => NumberText(n)
    case Star(_) => "*"
  }

  function PrecisionText(a: Amount): string {
    match a
    case Omitted => ""
    case Given(n) => "." + NumberText(n)
    case Star(_) => ".*"
  }

  function KindText(kind: Kind): string {
    match kind
    case CHAR => "hh"
    case SHORT => "h"
    case INT => ""
    case INTMAX => "j"
    case LONG => "l"
    case LONGLONG => "ll"
    case PTRDIFFT => "t"
    case SIZET => "z"
  }

  /** What follows the flags, the width and the precision in a specification. */
  function AfterPrecision(s: Spec): (r: string)
    ensures r != []
  {
    KindText(s.kind) + [s.letter]
  }

  function AfterWidth(s: Spec): (r: string)
    ensures r != []
  {
    PrecisionText(s.precision) + AfterPrecision(s)
  }

  function FromWidth(s: Spec): (r: string)
    ensures r != []
  {
    WidthText(s.width) + AfterWidth(s)
  }

  /** A conversion written out after its percent sign. */
  function SpecText(s: Spec): (r: string)
    ensures r != []
  {
    s.flags + FromWidth(s)
  }

  function EscapedCharacter(ch: char): string { if ch == '%' then "%%" else [ch] }

  /** The text from position x on with its percent signs doubled. */
  function Escaped(s: string, x: nat): string
    decreases |s| - x
  {
    if x >= |s| then [] else EscapedCharacter(s[x]) + Escaped(s, x + 1)
  }

  function ItemFormat(item: Item): string {
    match item
    case Text(s) => Escaped(s, 0)
    case Conv(spec, _) => "%" + SpecText(spec)
    case Unsupported(spec) => "%" + SpecText(spec)
  }

  /** The format of the pieces from the j-th on. */
  function FormatFrom(items: seq<Item>, j: nat): string
    decreases |items| - j
  {
    if j >= |items| then [] else ItemFormat(items[j]) + FormatFrom(items, j + 1)
  }

  function FormatOf(items: seq<Item>): string { FormatFrom(items, 0) }

  function AmountArgs(a: Amount): seq<Arg> { if a.Star? then [Int(a.arg)] else [] }

  /** The arguments that stars stand for. */
  function StarArgs(s: Spec): seq<Arg> { AmountArgs(s.width) + AmountArgs(s.precision) }

  function ItemArgs(item: Item): seq<Arg> {
    match item
    case Text(_) => []
    case Conv(spec, arg) => StarArgs(spec) + [arg]
    case Unsupported(spec) => StarArgs(spec)
  }

  function ArgsFrom(items: seq<Item>, j: nat): seq<Arg>
    decreases |items| - j
  {
    if j >= |items| then [] else ItemArgs(items[j]) + ArgsFrom(items, j + 1)
  }

  function ArgsOf(items: seq<Item>): seq<Arg> { ArgsFrom(items, 0) }

  predicate IsLetter(ch: char) { 'a' <= ch <= 'z' || 'A' <= ch <= 'Z' }

  predicate IsAmount(a: Amount) { a.Star? ==> IsInt(a.arg) }

  predicate IsSpec(s: Spec) {
    && (forall j :: 0 <= j < |s.flags| ==> IsFlag(s.flags[j]))
    && IsAmount(s.width) && IsAmount(s.precision) && IsLetter(s.letter) && s.letter !in "hjltz"
  }

  /** The argument is of the type that the letter is for. */
  predicate IsFor(letter: char, arg: Arg) {
    if letter == 's' then arg.Str? || arg.Null?
    else if letter == 'p' then arg.Int? || arg.Null?
    else letter in "dioxXuc" && arg.Int?
  }

  predicate IsItem(item: Item) {
    match item
    case Text(_) => true
    case Conv(spec, arg) => IsSpec(spec) && IsFor(spec.letter, arg)
    case Unsupported(spec) => IsSpec(spec) && spec.letter !in "dioxXucsp"
  }

  // ---------- What a conversion means ----------

  /** No precision and a negative one are the same. */
  function PrecisionMeant(a: Amount): int {
    match a
    case Omitted => -1
    case Given(n) => n
    case Star(x) => if x < 0 then -1 else x
  }

  function WidthMeant(a: Amount): nat {
    match a
    case Omitted => 0
    case Given(n) => n
    case Star(x) => Magnitude(x)
  }

  /** `-` rules out `0`, and so does a precision; `+` rules out a blank; a negative width is a `-`, but
      one that does not rule out `0`. */
  function Meaning(s: Spec): Conversion {
    Conversion('-' in s.flags || (s.width.Star? && s.width.arg < 0), '+' in s.flags,
               ' ' in s.flags && '+' !in s.flags, '#' in s.flags,
               '0' in s.flags && '-' !in s.flags && PrecisionMeant(s.precision) < 0, '\'' in s.flags,
               WidthMeant(s.width), PrecisionMeant(s.precision))
  }

  /** The largest value of the signed type that a modifier names. */
  function LargestOf(kind: Kind): int {
    match kind
    case CHAR => 127
    case SHORT => 32767
    case INT => 0x7fff_ffff
    case INTMAX => 0x7fff_ffff_ffff_ffff
    case LONG => 0x7fff_ffff
    case LONGLONG => 0x7fff_ffff_ffff_ffff
    case PTRDIFFT => 0x7fff_ffff
    case SIZET => 0x7fff_ffff
  }

  /** v is x as a value of the signed type: x itself if it is one, and otherwise the one that differs from
      it by a multiple of the number of values. */
  predicate AsSigned(v: int, x: int, kind: Kind) {
    -LargestOf(kind) - 1 <= v <= LargestOf(kind) && (v - x) % (2 * LargestOf(kind) + 2) == 0
  }

  predicate AsUnsigned(v: nat, x: int, kind: Kind) {
    v <= 2 * LargestOf(kind) + 1 && (v - x) % (2 * LargestOf(kind) + 2) == 0
  }

  /** The text shows a number that stands for the argument, in decimal with its sign. */
  ghost predicate ShowsSigned(text: string, x: int, kind: Kind, c: Conversion) {
    exists v, body :: AsSigned(v, x, kind) && ShowsInField(text, SignShown(v, c), body, Magnitude(v), 10, false, c)
  }

  ghost predicate ShowsUnsigned(text: string, x: int, kind: Kind, base: nat, upper: bool, c: Conversion)
    requires base >= 2
  {
    exists v: nat, body ::
      AsUnsigned(v, x, kind) && ShowsInField(text, PrefixShown(v, base, upper, c), body, v, base, upper, c)
  }

  function ValueOf(arg: Arg): int { if arg.Int? then arg.value else 0 }

  function StringOf(arg: Arg): string { if arg.Str? then arg.s else "(null)" }

  function CutAt(s: string, precision: int): string { if 0 <= precision < |s| then s[..precision] else s }

  /** What the letter promises of the text for an argument. Characters and strings are not filled up with
      zeros; a pointer shows as by `%#x`, without any other flag. */
  ghost predicate ShowsArg(text: string, s: Spec, arg: Arg) {
    var c, x := Meaning(s), ValueOf(arg);
    match s.letter
    case 'd' => ShowsSigned(text, x, s.kind, c)
    case 'i' => ShowsSigned(text, x, s.kind, c)
    case 'o' => ShowsUnsigned(text, x, s.kind, 8, false, c)
    case 'u' => ShowsUnsigned(text, x, s.kind, 10, false, c)
    case 'x' => ShowsUnsigned(text, x, s.kind, 16, false, c)
    case 'X' => ShowsUnsigned(text, x, s.kind, 16, true, c)
    case 'p' => ShowsUnsigned(text, x, INT, 16, false,
                              Conversion(false, false, false, true, false, false, c.width, c.precision))
    case 'c' => LaidOut(text, [], [(x % 256) as char], c.(zero := false))
    case 's' => LaidOut(text, [], CutAt(StringOf(arg), c.precision), c.(zero := false))
    case _ => false
  }

  ghost predicate Shows(text: string, item: Item) {
    match item
    case Text(s) => text == s
    case Conv(spec, arg) => ShowsArg(text, spec, arg)
    case Unsupported(spec) =>
      text == "<<no %" + [spec.letter] + (if spec.letter in "feEgGn" then " in kernel>>" else " conversion>>")
  }

  // ---------- Specifications parse back ----------

  /** The string s stands at position i of the format. */
  ghost predicate Stands(f: string, i: nat, s: string) {
    i + |s| <= |f| && forall j :: 0 <= j < |s| ==> f[i + j] == s[j]
  }

  ghost predicate Takes(args: seq<Arg>, k: nat, own: seq<Arg>) {
    k + |own| <= |args| && forall j :: 0 <= j < |own| ==> args[k + j] == own[j]
  }

  lemma TakesInTurn(args: seq<Arg>, k: nat, a: seq<Arg>, b: seq<Arg>)
    requires Takes(args, k, a + b)
    ensures Takes(args, k, a) && Takes(args, k + |a|, b)
  {
    forall j | 0 <= j < |a| ensures args[k + j] == a[j] { assert a[j] == (a + b)[j]; }
    forall j | 0 <= j < |b| ensures args[k + |a| + j] == b[j] { assert b[j] == (a + b)[|a| + j]; }
  }

  lemma TakesFirst(args: seq<Arg>, k: nat, a: Arg)
    requires Takes(args, k, [a])
    ensures k < |args| && args[k] == a
  {
    assert args[k + 0] == [a][0];
  }

  lemma StandsInTurn(f: string, i: nat, s: string, t: string)
    requires Stands(f, i, s + t)
    ensures Stands(f, i, s) && Stands(f, i + |s|, t)
  {
    forall j | 0 <= j < |s| ensures f[i + j] == s[j] { assert s[j] == (s + t)[j]; }
    forall j | 0 <= j < |t| ensures f[i + |s| + j] == t[j] { assert t[j] == (s + t)[|s| + j]; }
  }

  /** The character where a string stands. */
  lemma StandsFirst(f: string, i: nat, s: string)
    requires Stands(f, i, s) && s != []
    ensures i < |f| && f[i] == s[0]
  {
    assert f[i + 0] == s[0];
  }

  lemma StandsAt(f: string, i: nat, s: string, j: nat)
    requires Stands(f, i, s) && j < |s|
    ensures i + j < |f| && f[i + j] == s[j]
  {
  }

  lemma {:induction false} FlagEndIs(f: string, i: nat, e: nat)
    requires i <= e <= |f| && (forall j :: i <= j < e ==> IsFlag(f[j])) && (e < |f| ==> !IsFlag(f[e]))
    ensures FlagEnd(f, i) == e
    decreases e - i
  {
    if i < e { FlagEndIs(f, i + 1, e); }
  }

  lemma {:induction false} DigitEndIs(f: string, i: nat, e: nat)
    requires i <= e <= |f| && (forall j :: i <= j < e ==> IsDigit(f[j])) && (e < |f| ==> !IsDigit(f[e]))
    ensures DigitEnd(f, i) == e
    decreases e - i
  {
    if i < e { DigitEndIs(f, i + 1, e); }
  }

  lemma {:induction false} LastRawDigit(n: nat, count: nat)
    requires n > 0
    ensures var raw := RawDigits(n, BASE_D, false, count); raw != [] && raw[|raw| - 1] != '0'
  {
    var digit := BASE_D.digits[n % 10];
    assert RawDigits(n, BASE_D, false, count) == [digit] + RawDigits(n / 10, BASE_D, false, count + 1);
    if n >= 10 { LastRawDigit(n / 10, count + 1); } else { assert DigitValue(digit) == n; }
  }

  /** A written number is digits that denote it, and does not start with a zero. */
  lemma NumberTextIs(n: nat)
    ensures AllDigits(NumberText(n)) && Decimal(NumberText(n)) == n
    ensures n > 0 ==> NumberText(n) != [] && NumberText(n)[0] != '0'
    ensures n == 0 ==> NumberText(n) == []
  {
    var raw := RawDigits(n, BASE_D, false, 0);
    RawDigitsDenote(n, 0);
    DecimalOfReverse(raw);
    if n > 0 {
      LastRawDigit(n, 0);
      ReverseKeepsAt(raw, 0);
    }
  }

  lemma NumberParses(f: string, i: nat, n: nat, rest: string)
    requires Stands(f, i, NumberText(n) + rest) && rest != [] && !IsDigit(rest[0])
    ensures DigitEnd(f, i) == i + |NumberText(n)| && Number(f, i) == n
  {
    var s := NumberText(n);
    NumberTextIs(n);
    StandsInTurn(f, i, s, rest);
    StandsFirst(f, i + |s|, rest);
    forall j | i <= j < i + |s| ensures IsDigit(f[j]) { assert f[j] == s[j - i]; }
    DigitEndIs(f, i, i + |s|);
    assert f[i..i + |s|] == s;
  }

  lemma NumberStarts(n: nat, rest: string)
    requires rest != []
    ensures var s := NumberText(n) + rest;
            s[0] == if n == 0 then rest[0] else NumberText(n)[0]
    ensures n > 0 ==> IsDigit(NumberText(n)[0]) && NumberText(n)[0] != '0'
  {
    NumberTextIs(n);
  }

  lemma AfterPrecisionStarts(s: Spec)
    requires IsLetter(s.letter)
    ensures IsLetter(AfterPrecision(s)[0])
  {
  }

  lemma AfterWidthStarts(s: Spec)
    requires IsLetter(s.letter)
    ensures var first := AfterWidth(s)[0];
            if s.precision.Omitted? then IsLetter(first) else first == '.'
  {
    AfterPrecisionStarts(s);
  }

  /** What follows the flags starts with neither a flag nor a percent sign, and with a star only if the
      width is one. */
  lemma FromWidthStarts(s: Spec)
    requires IsLetter(s.letter)
    ensures var first := FromWidth(s)[0]; !IsFlag(first) && first != '%' && (first == '*' <==> s.width.Star?)
  {
    AfterWidthStarts(s);
    if s.width.Given? { NumberStarts(s.width.n, AfterWidth(s)); }
  }

  lemma AllFlags(f: string, i: nat, s: string)
    requires (forall j :: 0 <= j < |s| ==> IsFlag(s[j])) && Stands(f, i, s)
    requires i + |s| < |f| ==> !IsFlag(f[i + |s|])
    ensures FlagEnd(f, i) == i + |s| && forall ch :: HasFlag(f, i, ch) <==> ch in s
  {
    forall j | i <= j < i + |s| ensures IsFlag(f[j]) { assert f[j] == s[j - i]; }
    FlagEndIs(f, i, i + |s|);
    assert f[i..i + |s|] == s;
    forall ch ensures HasFlag(f, i, ch) <==> ch in s { HasFlagIff(f, i, ch); }
  }

  function FlagsMeant(flags: string): Conversion {
    Conversion('-' in flags, '+' in flags, ' ' in flags && '+' !in flags, '#' in flags,
               '0' in flags && '-' !in flags, '\'' in flags, 0, -1)
  }

  lemma FlagsParse(s: Spec, f: string, i: nat, z: nat) returns (a: nat)
    requires IsSpec(s) && Stands(f, i, SpecText(s)) && z == i + |SpecText(s)|
    ensures a <= |f| && FlagEnd(f, i) == a && ParsedFlags(f, i) == FlagsMeant(s.flags)
    ensures Stands(f, a, FromWidth(s)) && a + |FromWidth(s)| == z
  {
    a := i + |s.flags|;
    StandsInTurn(f, i, s.flags, FromWidth(s));
    StandsFirst(f, a, FromWidth(s));
    FromWidthStarts(s);
    AllFlags(f, i, s.flags);
  }

  function WithWidth(c: Conversion, a: Amount): Conversion {
    c.(width := WidthMeant(a), minus := c.minus || (a.Star? && a.arg < 0))
  }

  lemma WidthParses(s: Spec, c: Conversion, f: string, a: nat, args: seq<Arg>, k: nat, z: nat) returns (b: nat)
    requires IsSpec(s) && Stands(f, a, FromWidth(s)) && z == a + |FromWidth(s)| && Takes(args, k, AmountArgs(s.width))
    ensures b <= |f|
    ensures ParsedWidth(c, f, a, args, k) == Parsed(WithWidth(c, s.width), INT, b, k + |AmountArgs(s.width)|)
    ensures Stands(f, b, AfterWidth(s)) && b + |AfterWidth(s)| == z
  {
    var rest := AfterWidth(s);
    b := a + |WidthText(s.width)|;
    AfterWidthStarts(s);
    FromWidthStarts(s);
    StandsFirst(f, a, FromWidth(s));
    StandsInTurn(f, a, WidthText(s.width), rest);
    if s.width.Star? {
      TakesFirst(args, k, Int(s.width.arg));
    } else {
      NumberTextIs(0);
      NumberParses(f, a, WidthMeant(s.width), rest);
    }
  }

  function WithPrecision(c: Conversion, a: Amount): Conversion {
    c.(precision := PrecisionMeant(a), zero := c.zero && PrecisionMeant(a) < 0)
  }

  lemma PrecisionParses(s: Spec, c: Conversion, f: string, b: nat, args: seq<Arg>, k: nat, z: nat) returns (e: nat)
    requires IsSpec(s) && Stands(f, b, AfterWidth(s)) && c.precision == -1 && z == b + |AfterWidth(s)|
    requires Takes(args, k, AmountArgs(s.precision))
    ensures e <= |f|
    ensures b <= |f|
    ensures ParsedPrecision(c, f, b, args, k)
         == Parsed(WithPrecision(c, s.precision), INT, e, k + |AmountArgs(s.precision)|)
    ensures Stands(f, e, AfterPrecision(s)) && e + |AfterPrecision(s)| == z
  {
    var text, rest := PrecisionText(s.precision), AfterPrecision(s);
    e := b + |text|;
    AfterWidthStarts(s);
    StandsFirst(f, b, AfterWidth(s));
    StandsInTurn(f, b, text, rest);
    match s.precision
    case Omitted =>
    case Given(n) => PointParses(n, s, f, b);
    case Star(x) =>
      StandsAt(f, b, text, 1);
      TakesFirst(args, k, Int(x));
  }

  lemma PointParses(n: nat, s: Spec, f: string, b: nat)
    requires IsSpec(s) && Stands(f, b, ("." + NumberText(n)) + AfterPrecision(s))
    ensures CharAt(f, b) == '.' && b + 1 <= |f| && CharAt(f, b + 1) != '*'
    ensures DigitEnd(f, b + 1) == b + 1 + |NumberText(n)| && Number(f, b + 1) == n
  {
    var rest := AfterPrecision(s);
    AfterPrecisionStarts(s);
    assert ("." + NumberText(n)) + rest == "." + (NumberText(n) + rest);
    StandsInTurn(f, b, ".", NumberText(n) + rest);
    StandsFirst(f, b, ".");
    NumberStarts(n, rest);
    StandsFirst(f, b + 1, NumberText(n) + rest);
    NumberParses(f, b + 1, n, rest);
  }

  lemma KindParses(s: Spec, f: string, e: nat, z: nat) returns (n: nat)
    requires IsSpec(s) && Stands(f, e, AfterPrecision(s)) && z == e + |AfterPrecision(s)|
    ensures KindAt(f, e) == s.kind && KindLength(f, e) == n && CharAt(f, e + n) == s.letter && e + n + 1 == z
  {
    n := |KindText(s.kind)|;
    var text := AfterPrecision(s);
    StandsAt(f, e, text, 0);
    StandsAt(f, e, text, n);
    if n == 2 { StandsAt(f, e, text, 1); }
  }

  lemma ParseIs(f: string, i: nat, args: seq<Arg>, k: nat, w: Parsed, p: Parsed, kind: Kind, n: nat)
    requires i <= |f| && ParsedWidth(ParsedFlags(f, i), f, FlagEnd(f, i), args, k) == w && w.pos <= |f|
    requires ParsedPrecision(w.c, f, w.pos, args, w.next) == p
    requires KindAt(f, p.pos) == kind && KindLength(f, p.pos) == n
    ensures Parse(f, i, args, k) == Parsed(p.c, kind, p.pos + n, p.next)
  {
  }

  lemma MeaningIs(s: Spec)
    ensures WithPrecision(WithWidth(FlagsMeant(s.flags), s.width), s.precision) == Meaning(s)
  {
  }

  lemma FrontParses(s: Spec, f: string, i: nat, args: seq<Arg>, k: nat, z: nat) returns (b: nat)
    requires IsSpec(s) && Stands(f, i, SpecText(s)) && z == i + |SpecText(s)| && Takes(args, k, AmountArgs(s.width))
    ensures i <= |f| && b <= |f| && Stands(f, b, AfterWidth(s)) && b + |AfterWidth(s)| == z
    ensures ParsedWidth(ParsedFlags(f, i), f, FlagEnd(f, i), args, k)
         == Parsed(WithWidth(FlagsMeant(s.flags), s.width), INT, b, k + |AmountArgs(s.width)|)
  {
    var a := FlagsParse(s, f, i, z);
    b := WidthParses(s, FlagsMeant(s.flags), f, a, args, k, z);
  }

  lemma RestParses(s: Spec, c: Conversion, f: string, b: nat, args: seq<Arg>, k: nat, z: nat)
    returns (e: nat, n: nat)
    requires IsSpec(s) && Stands(f, b, AfterWidth(s)) && c.precision == -1 && z == b + |AfterWidth(s)|
    requires Takes(args, k, AmountArgs(s.precision))
    ensures b <= |f|
    ensures ParsedPrecision(c, f, b, args, k)
         == Parsed(WithPrecision(c, s.precision), INT, e, k + |AmountArgs(s.precision)|)
    ensures KindAt(f, e) == s.kind && KindLength(f, e) == n && CharAt(f, z - 1) == s.letter && e + n == z - 1
  {
    e := PrecisionParses(s, c, f, b, args, k, z);
    n := KindParses(s, f, e, z);
  }

  /** Parsing a specification that was written out, and that ends at z, gives what it means, its length
      modifier and the place of its letter, and takes the arguments of its stars. */
  lemma SpecParses(s: Spec, f: string, i: nat, args: seq<Arg>, k: nat, z: nat)
    requires IsSpec(s) && Stands(f, i, SpecText(s)) && z == i + |SpecText(s)| && Takes(args, k, StarArgs(s))
    ensures z > 0 && Parse(f, i, args, k) == Parsed(Meaning(s), s.kind, z - 1, k + |StarArgs(s)|)
    ensures CharAt(f, z - 1) == s.letter
  {
    var c := WithWidth(FlagsMeant(s.flags), s.width);
    var k1 := k + |AmountArgs(s.width)|;
    TakesInTurn(args, k, AmountArgs(s.width), AmountArgs(s.precision));
    var b := FrontParses(s, f, i, args, k, z);
    var e, n := RestParses(s, c, f, b, args, k1, z);
    MeaningIs(s);
    var k2 := k1 + |AmountArgs(s.precision)|;
    ParseIs(f, i, args, k, Parsed(c, INT, b, k1), Parsed(Meaning(s), INT, e, k2), s.kind, n);
  }

  // ---------- Each piece in turn ----------

  /** What is put out for a piece. */
  function ItemText(item: Item): string {
    match item
    case Text(s) => s
    case Conv(spec, arg) => ConversionText(spec.letter, Meaning(spec), spec.kind, arg)
    case Unsupported(spec) => ConversionText(spec.letter, Meaning(spec), spec.kind, Null)
  }

  lemma NoArgument(letter: char, c: Conversion, kind: Kind, arg: Arg)
    requires letter !in "dioxXucsp"
    ensures ConversionText(letter, c, kind, arg) == ConversionText(letter, c, kind, Null) && ArgsTaken(letter) == 0
  {
  }

  lemma OneTaken(letter: char, arg: Arg)
    requires IsFor(letter, arg)
    ensures ArgsTaken(letter) == 1
  {
  }

  lemma OwnTaken(s: Spec, arg: Arg, args: seq<Arg>, k: nat)
    requires Takes(args, k, StarArgs(s) + [arg])
    ensures Takes(args, k, StarArgs(s)) && k + |StarArgs(s)| < |args| && args[k + |StarArgs(s)|] == arg
  {
    TakesInTurn(args, k, StarArgs(s), [arg]);
    TakesFirst(args, k + |StarArgs(s)|, arg);
  }

  lemma SpecStarts(s: Spec)
    requires IsSpec(s)
    ensures SpecText(s)[0] != '%'
  {
    FromWidthStarts(s);
    if s.flags != [] { assert IsFlag(s.flags[0]); }
  }

  /** A percent sign that a specification follows is no doubled one. */
  lemma SpecFollows(s: Spec, f: string, i: nat)
    requires IsSpec(s) && Stands(f, i, "%" + SpecText(s))
    ensures i + 1 < |f| && f[i] == '%' && f[i + 1] != '%' && Stands(f, i + 1, SpecText(s))
  {
    StandsInTurn(f, i, "%", SpecText(s));
    StandsFirst(f, i, "%");
    StandsFirst(f, i + 1, SpecText(s));
    SpecStarts(s);
  }

  lemma PieceIsConversion(f: string, i: nat, args: seq<Arg>, k: nat, p: Parsed, letter: char)
    requires i + 1 < |f| && f[i] == '%' && f[i + 1] != '%' && Parse(f, i + 1, args, k) == p
    requires CharAt(f, p.pos) == letter
    ensures PieceAt(f, i, args, k) == Piece(ConversionText(letter, p.c, p.kind, ArgAt(args, p.next)), p.pos + 1,
                                            p.next + ArgsTaken(letter))
  {
  }

  lemma SpecParsesAfter(s: Spec, f: string, i: nat, args: seq<Arg>, k: nat) returns (p: Parsed)
    requires IsSpec(s) && Stands(f, i, "%" + SpecText(s)) && Takes(args, k, StarArgs(s))
    ensures p == Parsed(Meaning(s), s.kind, i + |SpecText(s)|, k + |StarArgs(s)|)
    ensures i + 1 < |f| && Parse(f, i + 1, args, k) == p && CharAt(f, p.pos) == s.letter
  {
    SpecFollows(s, f, i);
    SpecParses(s, f, i + 1, args, k, i + 1 + |SpecText(s)|);
    p := Parsed(Meaning(s), s.kind, i + |SpecText(s)|, k + |StarArgs(s)|);
  }

  lemma PieceOfSpec(s: Spec, f: string, i: nat, args: seq<Arg>, k: nat) returns (p: Parsed)
    requires IsSpec(s) && Stands(f, i, "%" + SpecText(s)) && Takes(args, k, StarArgs(s))
    ensures p == Parsed(Meaning(s), s.kind, i + |SpecText(s)|, k + |StarArgs(s)|)
    ensures i < |f|
    ensures PieceAt(f, i, args, k) == Piece(ConversionText(s.letter, p.c, p.kind, ArgAt(args, p.next)), p.pos + 1,
                                            p.next + ArgsTaken(s.letter))
  {
    hide PieceAt, ConversionText;
    p := SpecParsesAfter(s, f, i, args, k);
    SpecFollows(s, f, i);
    PieceIsConversion(f, i, args, k, p, s.letter);
  }

  lemma OneMoreCharacter(s: string, x: nat, all: string, later: string, rest: string)
    requires x < |s| && all == [s[x]] + later && later == s[x + 1..] + rest
    ensures all == s[x..] + rest
  {
  }

  lemma NoMoreCharacters(s: string, rest: string)
    ensures rest == s[|s|..] + rest && s[0..] == s
  {
  }

  lemma FormatStep(f: string, i: nat, args: seq<Arg>, k: nat, q: Piece)
    requires i < |f| && PieceAt(f, i, args, k) == q
    ensures FormatText(f, i, args, k) == q.text + FormatText(f, q.pos, args, q.next)
  {
  }

  lemma CharacterPiece(ch: char, f: string, i: nat, args: seq<Arg>, k: nat)
    requires Stands(f, i, EscapedCharacter(ch))
    ensures i < |f| && PieceAt(f, i, args, k) == Piece([ch], i + |EscapedCharacter(ch)|, k)
  {
    StandsFirst(f, i, EscapedCharacter(ch));
    if ch == '%' { StandsAt(f, i, EscapedCharacter(ch), 1); }
  }

  lemma CharacterPrints(ch: char, f: string, i: nat, args: seq<Arg>, k: nat, j: nat)
    requires Stands(f, i, EscapedCharacter(ch)) && j == i + |EscapedCharacter(ch)|
    ensures FormatText(f, i, args, k) == [ch] + FormatText(f, j, args, k)
  {
    hide FormatText;
    CharacterPiece(ch, f, i, args, k);
    FormatStep(f, i, args, k, Piece([ch], j, k));
  }

  lemma {:induction false} TextPrints(s: string, x: nat, f: string, i: nat, args: seq<Arg>, k: nat, j: nat)
    requires x <= |s| && Stands(f, i, Escaped(s, x)) && j == i + |Escaped(s, x)|
    ensures FormatText(f, i, args, k) == s[x..] + FormatText(f, j, args, k)
    decreases |s| - x
  {
    hide FormatText;
    if x < |s| {
      var i' := i + |EscapedCharacter(s[x])|;
      StandsInTurn(f, i, EscapedCharacter(s[x]), Escaped(s, x + 1));
      CharacterPrints(s[x], f, i, args, k, i');
      TextPrints(s, x + 1, f, i', args, k, j);
      OneMoreCharacter(s, x, FormatText(f, i, args, k), FormatText(f, i', args, k), FormatText(f, j, args, k));
    } else {
      NoMoreCharacters(s, FormatText(f, i, args, k));
    }
  }

  lemma WholeTextPrints(s: string, f: string, i: nat, args: seq<Arg>, k: nat, j: nat)
    requires Stands(f, i, Escaped(s, 0)) && j == i + |Escaped(s, 0)|
    ensures FormatText(f, i, args, k) == s + FormatText(f, j, args, k)
  {
    hide FormatText;
    TextPrints(s, 0, f, i, args, k, j);
    NoMoreCharacters(s, FormatText(f, j, args, k));
  }

  lemma ConvText(s: Spec, arg: Arg, p: Parsed, args: seq<Arg>)
    requires p.c == Meaning(s) && p.kind == s.kind && p.next < |args| && args[p.next] == arg
    ensures ConversionText(s.letter, p.c, p.kind, ArgAt(args, p.next)) == ItemText(Conv(s, arg))
  {
  }

  lemma ConvPiece(s: Spec, arg: Arg, f: string, i: nat, args: seq<Arg>, k: nat) returns (q: Piece)
    requires IsSpec(s) && IsFor(s.letter, arg) && Stands(f, i, "%" + SpecText(s)) && Takes(args, k, StarArgs(s))
    requires k + |StarArgs(s)| < |args| && args[k + |StarArgs(s)|] == arg
    ensures q == Piece(ItemText(Conv(s, arg)), i + 1 + |SpecText(s)|, k + |StarArgs(s)| + 1)
    ensures i < |f| && PieceAt(f, i, args, k) == q
  {
    hide PieceAt;
    var p := PieceOfSpec(s, f, i, args, k);
    OneTaken(s.letter, arg);
    ConvText(s, arg, p, args);
    q := Piece(ItemText(Conv(s, arg)), p.pos + 1, p.next + 1);
  }

  lemma UnsupportedPiece(s: Spec, f: string, i: nat, args: seq<Arg>, k: nat) returns (q: Piece)
    requires IsSpec(s) && s.letter !in "dioxXucsp" && Stands(f, i, "%" + SpecText(s)) && Takes(args, k, StarArgs(s))
    ensures q == Piece(ItemText(Unsupported(s)), i + 1 + |SpecText(s)|, k + |StarArgs(s)|)
    ensures i < |f| && PieceAt(f, i, args, k) == q
  {
    hide PieceAt;
    var p := PieceOfSpec(s, f, i, args, k);
    NoArgument(s.letter, p.c, p.kind, ArgAt(args, p.next));
    q := Piece(ItemText(Unsupported(s)), p.pos + 1, p.next);
  }

  lemma ItemPiece(item: Item, f: string, i: nat, args: seq<Arg>, k: nat) returns (q: Piece)
    requires IsItem(item) && !item.Text? && Stands(f, i, ItemFormat(item)) && Takes(args, k, ItemArgs(item))
    ensures q == Piece(ItemText(item), i + |ItemFormat(item)|, k + |ItemArgs(item)|)
    ensures i < |f| && PieceAt(f, i, args, k) == q
  {
    hide PieceAt, ConversionText;
    if item.Conv? {
      OwnTaken(item.spec, item.arg, args, k);
      q := ConvPiece(item.spec, item.arg, f, i, args, k);
    } else {
      q := UnsupportedPiece(item.spec, f, i, args, k);
    }
  }

  lemma PiecePrints(item: Item, f: string, i: nat, args: seq<Arg>, k: nat, j: nat, m: nat)
    requires IsItem(item) && !item.Text? && Stands(f, i, ItemFormat(item)) && Takes(args, k, ItemArgs(item))
    requires j == i + |ItemFormat(item)| && m == k + |ItemArgs(item)|
    ensures FormatText(f, i, args, k) == ItemText(item) + FormatText(f, j, args, m)
  {
    hide FormatText, PieceAt, ItemText, ItemFormat, ItemArgs, IsItem, Takes, Stands;
    var q := ItemPiece(item, f, i, args, k);
    FormatStep(f, i, args, k, q);
  }

  /** A piece puts out its text and goes on behind itself, at j, with the arguments that come next, from
      the m-th on. */
  lemma ItemPrints(item: Item, f: string, i: nat, args: seq<Arg>, k: nat, j: nat, m: nat)
    requires IsItem(item) && Stands(f, i, ItemFormat(item)) && Takes(args, k, ItemArgs(item))
    requires j == i + |ItemFormat(item)| && m == k + |ItemArgs(item)|
    ensures FormatText(f, i, args, k) == ItemText(item) + FormatText(f, j, args, m)
  {
    hide FormatText, ConversionText, Takes, Stands, Escaped, SpecText, StarArgs, IsSpec, Meaning;
    if item.Text? {
      WholeTextPrints(item.s, f, i, args, k, j);
    } else {
      PiecePrints(item, f, i, args, k, j, m);
    }
  }

  function JoinedFrom(texts: seq<string>, j: nat): string
    decreases |texts| - j
  {
    if j >= |texts| then [] else texts[j] + JoinedFrom(texts, j + 1)
  }

  /** The texts one after the other. */
  function Joined(texts: seq<string>): string { JoinedFrom(texts, 0) }

  function ItemTexts(items: seq<Item>): (r: seq<string>)
    ensures |r| == |items| && forall j :: 0 <= j < |items| ==> r[j] == ItemText(items[j])
  {
    seq(|items|, j requires 0 <= j < |items| => ItemText(items[j]))
  }

  predicate AreItems(items: seq<Item>) { forall j :: 0 <= j < |items| ==> IsItem(items[j]) }

  lemma NothingLeft(f: string, i: nat, args: seq<Arg>, k: nat)
    requires i >= |f|
    ensures FormatText(f, i, args, k) == []
  {
  }

  /** The pieces from the j-th on stand at i in the format, to its end. */
  ghost predicate RestStands(items: seq<Item>, j: nat, f: string, i: nat) {
    Stands(f, i, FormatFrom(items, j)) && i + |FormatFrom(items, j)| == |f|
  }

  lemma NextStands(items: seq<Item>, j: nat, f: string, i: nat)
    requires j < |items| && RestStands(items, j, f, i)
    ensures Stands(f, i, ItemFormat(items[j])) && RestStands(items, j + 1, f, i + |ItemFormat(items[j])|)
  {
    hide Stands, ItemFormat;
    StandsInTurn(f, i, ItemFormat(items[j]), FormatFrom(items, j + 1));
  }

  lemma NextTakes(items: seq<Item>, j: nat, args: seq<Arg>, k: nat)
    requires j < |items| && Takes(args, k, ArgsFrom(items, j))
    ensures Takes(args, k, ItemArgs(items[j])) && Takes(args, k + |ItemArgs(items[j])|, ArgsFrom(items, j + 1))
  {
    hide Takes, ItemArgs;
    TakesInTurn(args, k, ItemArgs(items[j]), ArgsFrom(items, j + 1));
  }

  /** From piece j on, the output is the rest of the texts. */
  lemma {:induction false} RestPrints(items: seq<Item>, j: nat, f: string, i: nat, args: seq<Arg>, k: nat)
    requires AreItems(items) && j <= |items| && RestStands(items, j, f, i) && Takes(args, k, ArgsFrom(items, j))
    ensures FormatText(f, i, args, k) == JoinedFrom(ItemTexts(items), j)
    decreases |items| - j
  {
    hide FormatText, ItemText, ItemFormat, ItemArgs, IsItem;
    if j < |items| {
      var i', k' := i + |ItemFormat(items[j])|, k + |ItemArgs(items[j])|;
      NextStands(items, j, f, i);
      NextTakes(items, j, args, k);
      ItemPrints(items[j], f, i, args, k, i', k');
      RestPrints(items, j + 1, f, i', args, k');
    } else {
      NothingLeft(f, i, args, k);
    }
  }

  // ---------- What each piece shows ----------

  lemma DifferenceOfRemainder(y: int, n: int)
    requires n > 0
    ensures (y % n - y) % n == 0
  {
    DivBounds(y, n);
    QuotientIs(y % n - y, n, -(y / n));
  }

  lemma TypeSize(kind: Kind)
    ensures ValuesOf(kind) == 2 * LargestOf(kind) + 2
  {
  }

  lemma SignedIs(x: int, kind: Kind)
    ensures AsSigned(SignedValue(x, ValuesOf(kind)), x, kind)
  {
    var n := ValuesOf(kind);
    TypeSize(kind);
    DifferenceOfRemainder(x + n / 2, n);
    assert SignedValue(x, n) - x == (x + n / 2) % n - (x + n / 2);
  }

  lemma UnsignedIs(x: int, kind: Kind)
    ensures AsUnsigned(x % ValuesOf(kind), x, kind)
  {
    TypeSize(kind);
    DifferenceOfRemainder(x, ValuesOf(kind));
  }

  lemma SignedShows(x: int, kind: Kind, c: Conversion)
    ensures ShowsSigned(SignedText(SignedValue(x, ValuesOf(kind)), c), x, kind, c)
  {
    SignedIs(x, kind);
    SignedShown(SignedValue(x, ValuesOf(kind)), c);
  }

  lemma UnsignedShows(x: int, kind: Kind, b: Base, c: Conversion)
    requires IsBase(b)
    ensures ShowsUnsigned(IntegerText(x % ValuesOf(kind), false, false, b, c), x, kind, b.base, IsUpper(b), c)
  {
    UnsignedIs(x, kind);
    UnsignedShown(x % ValuesOf(kind), b, c);
  }

  lemma ConvShows(s: Spec, arg: Arg)
    requires IsItem(Conv(s, arg))
    ensures ShowsArg(ItemText(Conv(s, arg)), s, arg)
  {
    var c, x := Meaning(s), ValueOf(arg);
    match s.letter {
      case 'd' => SignedShows(x, s.kind, c);
      case 'i' => SignedShows(x, s.kind, c);
      case 'o' => UnsignedShows(x, s.kind, BASE_O, c);
      case 'u' => UnsignedShows(x, s.kind, BASE_D, c);
      case 'x' => UnsignedShows(x, s.kind, BASE_X, c);
      case 'X' => UnsignedShows(x, s.kind, BASE_UPPER_X, c);
      case 'p' => UnsignedShows(x, INT, BASE_X, PointerConversion(c));
      case 'c' => StringLaidOut([(x % 256) as char], c);
      case 's' => StringLaidOut(CutAt(StringOf(arg), c.precision), c);
    }
  }

  lemma ItemShows(item: Item)
    requires IsItem(item)
    ensures Shows(ItemText(item), item)
  {
    if item.Conv? { ConvShows(item.spec, item.arg); }
  }

  lemma AllShow(items: seq<Item>)
    requires AreItems(items)
    ensures forall j :: 0 <= j < |items| ==> Shows(ItemTexts(items)[j], items[j])
  {
    hide Shows, ItemText;
    forall j | 0 <= j < |items| ensures Shows(ItemTexts(items)[j], items[j]) { ItemShows(items[j]); }
  }

  lemma WholePrints(items: seq<Item>, more: seq<Arg>)
    requires AreItems(items)
    ensures FormatText(FormatOf(items), 0, ArgsOf(items) + more, 0) == Joined(ItemTexts(items))
  {
    hide FormatText;
    RestPrints(items, 0, FormatOf(items), 0, ArgsOf(items) + more, 0);
  }

  /** A format written out piece by piece, given the arguments of its pieces one after the other, and
      perhaps more, prints the pieces in order, and each shows its own. */
  lemma FormatPrints(items: seq<Item>, more: seq<Arg>)
    requires AreItems(items)
    ensures exists texts: seq<string> ::
              && |texts| == |items| && (forall j :: 0 <= j < |items| ==> Shows(texts[j], items[j]))
              && FormatText(FormatOf(items), 0, ArgsOf(items) + more, 0) == Joined(texts)
  {
    hide FormatText, Shows, FormatOf, ArgsOf, Joined;
    AllShow(items);
    WholePrints(items, more);
  }

  // ---------- Single pieces ----------

  lemma OnePrints(item: Item)
    requires IsItem(item)
    ensures FormatText(ItemFormat(item), 0, ItemArgs(item), 0) == ItemText(item)
  {
    hide FormatText, ItemFormat, ItemArgs, ItemText, IsItem;
    var f, args := ItemFormat(item), ItemArgs(item);
    ItemPrints(item, f, 0, args, 0, |f|, |args|);
    NothingLeft(f, |f|, args, |args|);
  }

  lemma {:induction false} NothingToEscape(f: string, x: nat)
    requires x <= |f| && '%' !in f
    ensures Escaped(f, x) == f[x..]
    decreases |f| - x
  {
    if x < |f| {
      assert f[x] in f;
      NothingToEscape(f, x + 1);
    }
  }

  /** A format string without percent signs is output as it is. */
  lemma PlainText(f: string, args: seq<Arg>)
    requires '%' !in f
    ensures FormatText(f, 0, args, 0) == f
  {
    hide FormatText;
    NothingToEscape(f, 0);
    assert f[0..] == f;
    WholeTextPrints(f, f, 0, args, 0, |f|);
    NothingLeft(f, |f|, args, 0);
  }

  /** The argument of a signed conversion is the number passed, when its type holds it. */
  lemma SignedArgIs(x: int, kind: Kind)
    requires -LargestOf(kind) - 1 <= x <= LargestOf(kind)
    ensures SignedArg(Int(x), kind) == x
  {
    var n := ValuesOf(kind);
    TypeSize(kind);
    assert (x + n / 2) % n == x + n / 2;
  }

  lemma IntPrints(s: Spec, v: int)
    requires IsSpec(s) && s.letter == 'd' && s.kind == INT && IsInt(v)
    ensures FormatText("%" + SpecText(s), 0, StarArgs(s) + [Int(v)], 0) == SignedText(v, Meaning(s))
  {
    hide FormatText, SignedText, Meaning, SpecText, StarArgs;
    OnePrints(Conv(s, Int(v)));
    SignedArgIs(v, INT);
  }

  /** Printing an int with one conversion, however written, and reading the output back gives the int,
      unless grouping has put a comma into it. */
  lemma PrintedIntReadsBack(s: Spec, v: int)
    requires IsSpec(s) && s.letter == 'd' && s.kind == INT && IsInt(v)
    ensures Denoted(FormatText("%" + SpecText(s), 0, StarArgs(s) + [Int(v)], 0)) == v <==>
            '\'' !in s.flags || -1000 < v < 1000
  {
    hide FormatText, SignedText, SpecText, StarArgs, Denoted;
    IntPrints(s, v);
    AtoiReadsBackIff(v, Meaning(s));
  }

  /** Of -5 and 1, `%0*d` makes nine characters, not five. */
  lemma PaddedTwice()
    ensures |FormatText("%0*d", 0, [Int(-5), Int(1)], 0)| == 9
  {
    hide FormatText, SignedText, SpecText, StarArgs, Meaning;
    TwiceSpecIs();
    IntPrints(TwiceSpec(), 1);
    OneInNine();
  }

  function TwiceSpec(): Spec { Spec("0", Star(-5), Omitted, INT, 'd') }

  lemma TwiceSpecIs()
    ensures IsSpec(TwiceSpec()) && TwiceSpec().letter == 'd' && TwiceSpec().kind == INT
    ensures "%" + SpecText(TwiceSpec()) == "%0*d" && StarArgs(TwiceSpec()) + [Int(1)] == [Int(-5), Int(1)]
    ensures Meaning(TwiceSpec()) == Conversion(true, false, false, false, true, false, 5, -1)
  {
  }

  lemma OneInNine()
    ensures |SignedText(1, Conversion(true, false, false, false, true, false, 5, -1))| == 9
  {
    var c := Conversion(true, false, false, false, true, false, 5, -1);
    assert RawDigits(1, BASE_D, false, 0) == ['1'];
    TextWidth(1, true, false, BASE_D, c);
  }
}
