/** Reading decimal integers back (`atoi` in pintos/src/lib/stdlib.c). */
module Atoi {
  import opened Sequences
  import opened Stdio

  const INT_MIN: int := -0x8000_0000
  const INT_MAX: int := 0x7fff_ffff

  /** Two's-complement reduction to an int. */
  function WrapInt(x: int): (r: int)
    ensures INT_MIN <= r <= INT_MAX && (INT_MIN <= x <= INT_MAX ==> r == x)
  {
    (x + 0x8000_0000) % 0x1_0000_0000 - 0x8000_0000
  }

  predicate IsSpace(ch: char) {
    ch == ' ' || ch == '\t' || ch == '\n' || ch == '\r' || ch == '\U{0B}' || ch == '\U{0C}'
  }

  predicate IsDigit(ch: char) { '0' <= ch <= '9' }

  predicate AllDigits(s: string) { forall i :: 0 <= i < |s| ==> IsDigit(s[i]) }

  predicate AllSpaces(s: string) { forall i :: 0 <= i < |s| ==> IsSpace(s[i]) }

  function DigitValue(ch: char): int { ch as int - '0' as int }

  /** The number that a string of digits denotes. */
  function Decimal(s: string): int {
    if s == [] then 0 else 10 * Decimal(s[..|s| - 1]) + DigitValue(s[|s| - 1])
  }

  /** The digits a string starts with. */
  function LeadingDigits(s: string): string {
    if s == [] || !IsDigit(s[0]) then [] else [s[0]] + LeadingDigits(s[1..])
  }

  function AfterSpaces(s: string): string {
    if s == [] || !IsSpace(s[0]) then s else AfterSpaces(s[1..])
  }

  /** The number that a sign, if there is one, and digits denote. */
  function SignedDecimal(t: string): int {
    if t != [] && t[0] == '-' then -Decimal(LeadingDigits(t[1..]))
    else if t != [] && t[0] == '+' then Decimal(LeadingDigits(t[1..]))
    else Decimal(LeadingDigits(t))
  }

  /** What a string denotes: after white space, an optional sign and as many digits as follow. */
  function Denoted(s: string): int { SignedDecimal(AfterSpaces(s)) }

  lemma {:induction false} DecimalGrows(s: string, i: nat)
    requires i <= |s| && AllDigits(s)
    ensures 0 <= Decimal(s[..i]) <= Decimal(s)
  {
    if i < |s| {
      DecimalGrows(s[..|s| - 1], i);
      assert s[..|s| - 1][..i] == s[..i];
    } else {
      assert s[..i] == s;
      if s != [] {
        DecimalGrows(s[..|s| - 1], |s| - 1);
        assert s[..|s| - 1][..|s| - 1] == s[..|s| - 1];
      }
    }
  }

  predicate IsInt(x: int) { INT_MIN <= x <= INT_MAX }

  /** `atoi` overflows, here or on the way, exactly if no int can hold the number denoted, and
      otherwise returns it. `wrapped` records whether any result has left the range of an int. */
  method ParseInt(s: string) returns (value: int, ghost wrapped: bool)
    ensures wrapped <==> !IsInt(Denoted(s))
    ensures !wrapped ==> value == Denoted(s)
  {
    var i := SkipSpaces(s);
    var negative := false;
    if i < |s| && s[i] == '+' {
      i := i + 1;
    } else if i < |s| && s[i] == '-' {
      negative := true;
      i := i + 1;
    }
    LeadingDigitsAre(s[i..]);
    DecimalGrows(LeadingDigits(s[i..]), 0);
    value, wrapped := ParseDigits(s, i);
    if !negative {
      wrapped := wrapped || !IsInt(-value);
      value := WrapInt(-value);
    }
  }

  method SkipSpaces(s: string) returns (i: nat)
    ensures i <= |s| && s[i..] == AfterSpaces(s)
  {
    i := 0;
    while i < |s| && IsSpace(s[i])
      invariant i <= |s| && AfterSpaces(s[i..]) == AfterSpaces(s)
    {
      assert s[i..][1..] == s[i + 1..];
      i := i + 1;
    }
  }

  lemma {:induction false} LeadingDigitsAre(s: string)
    ensures AllDigits(LeadingDigits(s))
  {
    if s != [] && IsDigit(s[0]) { LeadingDigitsAre(s[1..]); }
  }

  /** Where the digit loop of `atoi` stands: what has been read, negated, unless it has overflowed,
      which it has not if the whole fits. */
  ghost predicate ReadSoFar(digits: string, done: string, left: string, value: int, wrapped: bool) {
    && AllDigits(digits) && digits == done + LeadingDigits(left) && IsInt(value)
    && (!wrapped ==> value == -Decimal(done))
    && (-Decimal(digits) >= INT_MIN ==> !wrapped)
  }

  /** A digit more: the product and the difference. */
  predicate DigitWraps(value: int, ch: char) {
    !IsInt(value * 10) || !IsInt(value * 10 - DigitValue(ch))
  }

  lemma DigitTaken(digits: string, done: string, left: string, value: int, wrapped: bool)
    requires left != [] && IsDigit(left[0]) && ReadSoFar(digits, done, left, value, wrapped)
    ensures ReadSoFar(digits, done + [left[0]], left[1..], WrapInt(value * 10 - DigitValue(left[0])),
                      wrapped || DigitWraps(value, left[0]))
  {
    var next := done + [left[0]];
    assert digits == next + LeadingDigits(left[1..]);
    DecimalGrows(digits, |next|);
    DecimalGrows(digits, |done|);
    assert digits[..|next|] == next && next[..|done|] == done && digits[..|done|] == done;
  }

  /** The same, for the digits that start here and those before i. */
  ghost predicate ReadTo(s: string, start: nat, i: nat, value: int, wrapped: bool) {
    start <= i <= |s| && ReadSoFar(LeadingDigits(s[start..]), s[start..i], s[i..], value, wrapped)
  }

  lemma NothingRead(s: string, start: nat)
    requires start <= |s|
    ensures ReadTo(s, start, start, 0, false)
  {
    LeadingDigitsAre(s[start..]);
    assert s[start..start] == [];
  }

  lemma NextDigit(s: string, start: nat, i: nat, value: int, wrapped: bool)
    requires i < |s| && IsDigit(s[i]) && ReadTo(s, start, i, value, wrapped)
    ensures ReadTo(s, start, i + 1, WrapInt(value * 10 - DigitValue(s[i])), wrapped || DigitWraps(value, s[i]))
  {
    DigitTaken(LeadingDigits(s[start..]), s[start..i], s[i..], value, wrapped);
    assert s[i..][1..] == s[i + 1..] && s[start..i] + [s[i]] == s[start..i + 1];
  }

  lemma DigitsDone(s: string, start: nat, i: nat, value: int, wrapped: bool)
    requires ReadTo(s, start, i, value, wrapped) && (i == |s| || !IsDigit(s[i]))
    ensures wrapped <==> -Decimal(LeadingDigits(s[start..])) < INT_MIN
    ensures !wrapped ==> value == -Decimal(LeadingDigits(s[start..]))
    ensures IsInt(value)
  {
    assert s[start..i] + [] == s[start..i];
  }

  method ParseDigits(s: string, start: nat) returns (value: int, ghost wrapped: bool)
    requires start <= |s|
    ensures wrapped <==> -Decimal(LeadingDigits(s[start..])) < INT_MIN
    ensures !wrapped ==> value == -Decimal(LeadingDigits(s[start..]))
    ensures IsInt(value)
  {
    NothingRead(s, start);
    value, wrapped := 0, false;
    var i := start;
    while i < |s| && IsDigit(s[i])
      invariant start <= i <= |s| && ReadTo(s, start, i, value, wrapped)
    {
      NextDigit(s, start, i, value, wrapped);
      wrapped := wrapped || DigitWraps(value, s[i]);
      value := WrapInt(value * 10 - DigitValue(s[i]));
      i := i + 1;
    }
    DigitsDone(s, start, i, value, wrapped);
  }

  // ---------- Reading back what was printed ----------

  /** The number denoted by digits given least significant first. */
  function ReversedDecimal(s: string): int {
    if s == [] then 0 else DigitValue(s[0]) + 10 * ReversedDecimal(s[1..])
  }

  lemma {:induction false} DecimalOfReverse(s: string)
    requires AllDigits(s)
    ensures Decimal(Reverse(s)) == ReversedDecimal(s) && AllDigits(Reverse(s))
  {
    if s != [] {
      DecimalOfReverse(s[1..]);
      assert Reverse(s)[..|s| - 1] == Reverse(s[1..]);
    }
  }

  lemma {:induction false} RawDigitsDenote(value: nat, count: nat)
    ensures AllDigits(RawDigits(value, BASE_D, false, count))
    ensures ReversedDecimal(RawDigits(value, BASE_D, false, count)) == value
  {
    if value > 0 {
      RawDigitsDenote(value / 10, count + 1);
      var digit := BASE_D.digits[value % 10];
      assert DigitValue(digit) == value % 10;
      assert RawDigits(value, BASE_D, false, count) == [digit] + RawDigits(value / 10, BASE_D, false, count + 1);
    }
  }

  lemma {:induction false} TrailingZeros(s: string, n: int)
    requires AllDigits(s)
    ensures AllDigits(s + Repeat('0', n)) && ReversedDecimal(s + Repeat('0', n)) == ReversedDecimal(s)
  {
    if s != [] {
      TrailingZeros(s[1..], n);
      assert (s + Repeat('0', n))[1..] == s[1..] + Repeat('0', n);
    } else {
      ZerosInFront(n);
      assert [] + Repeat('0', n) == Repeat('0', n);
    }
  }

  lemma {:induction false} ZerosInFront(n: int)
    ensures ReversedDecimal(Repeat('0', n)) == 0
  {
    if n > 0 {
      ZerosInFront(n - 1);
      assert Repeat('0', n)[1..] == Repeat('0', n - 1);
    }
  }

  lemma {:induction false} LeadingZeros(n: int, s: string)
    ensures Decimal(Repeat('0', n) + s) == Decimal(s)
    decreases |s|, n
  {
    var t := Repeat('0', n) + s;
    if s != [] {
      LeadingZeros(n, s[..|s| - 1]);
      assert t[..|t| - 1] == Repeat('0', n) + s[..|s| - 1];
    } else if n > 0 {
      LeadingZeros(n - 1, []);
      assert t[..|t| - 1] == Repeat('0', n - 1) + [];
    }
  }

  lemma {:induction false} SpacesSkipped(a: string, s: string)
    requires AllSpaces(a)
    ensures AfterSpaces(a + s) == AfterSpaces(s)
  {
    if a != [] {
      SpacesSkipped(a[1..], s);
      assert (a + s)[1..] == a[1..] + s;
    } else {
      assert a + s == s;
    }
  }

  lemma {:induction false} DigitsThen(d: string, s: string)
    requires AllDigits(d) && (s == [] || !IsDigit(s[0]))
    ensures LeadingDigits(d + s) == d
  {
    if d != [] {
      DigitsThen(d[1..], s);
      assert (d + s)[1..] == d[1..] + s;
    } else {
      assert d + s == s;
    }
  }

  /** What may come after digits without being read with them. */
  predicate Ends(d: string, b: string) {
    if d == [] then AllSpaces(b) else b == [] || !IsDigit(b[0])
  }

  lemma DenotedUnsigned(d: string, b: string)
    requires AllDigits(d) && Ends(d, b)
    ensures Denoted(d + b) == Decimal(d)
  {
    if d == [] {
      SpacesSkipped(b, []);
      assert d + b == b + [];
    } else {
      DigitsThen(d, b);
      assert (d + b)[0] == d[0];
    }
  }

  lemma DenotedSigned(ch: char, d: string, b: string)
    requires AllDigits(d) && Ends(d, b) && (ch == '+' || ch == '-')
    ensures Denoted([ch] + (d + b)) == if ch == '-' then -Decimal(d) else Decimal(d)
  {
    assert ([ch] + (d + b))[1..] == d + b;
    DigitsThen(d, b);
  }

  /** Spaces, a sign, digits and what ends them denote the number the sign and digits do. */
  lemma DenotedField(a: string, sign: string, d: string, b: string)
    requires AllSpaces(a) && Ends(d, b) && AllDigits(d)
    requires sign == [] || sign == ['+'] || sign == ['-']
    ensures Denoted(a + (sign + (d + b))) == if sign == ['-'] then -Decimal(d) else Decimal(d)
  {
    SpacesSkipped(a, sign + (d + b));
    if sign == [] {
      assert [] + (d + b) == d + b;
      DenotedUnsigned(d, b);
    } else {
      DenotedSigned(sign[0], d, b);
    }
  }

  /** The digits shown, with the zeros of the precision, denote the value. */
  lemma BufferedDenotes(value: nat, c: Conversion)
    requires !c.grouped
    ensures AllDigits(Reverse(Buffered(value, BASE_D, c))) && Decimal(Reverse(Buffered(value, BASE_D, c))) == value
  {
    var raw := RawDigits(value, BASE_D, false, 0);
    var precision := if c.precision < 0 then 1 else c.precision;
    var zeros := Min(precision, BUFFER_SIZE - 1) - |raw|;
    RawDigitsDenote(value, 0);
    TrailingZeros(raw, zeros);
    assert Buffered(value, BASE_D, c) == raw + Repeat('0', zeros);
    DecimalOfReverse(raw + Repeat('0', zeros));
  }

  /** A blank sign goes with the spaces in front. */
  lemma SignSplits(negative: bool, c: Conversion, pad: int) returns (front: string, sign: string)
    ensures front + sign == Spaces(pad, c) + Sign(true, negative, c)
    ensures AllSpaces(front) && (sign == [] || sign == ['+'] || sign == ['-']) && (sign == ['-'] <==> negative)
  {
    if Sign(true, negative, c) == [' '] {
      front, sign := Spaces(pad, c) + [' '], [];
    } else {
      front, sign := Spaces(pad, c), Sign(true, negative, c);
    }
  }

  lemma Regrouped(a: string, b: string, c: string, d: string, e: string, front: string, sign: string)
    requires front + sign == a + b
    ensures a + b + [] + c + d + e == front + (sign + ((c + d) + e))
  {
    assert a + b + [] + c + d + e == (a + b) + (c + d + e);
    assert (front + sign) + (c + d + e) == front + (sign + ((c + d) + e));
  }

  lemma ZerosDenoteNothing(body: string, pad: int, c: Conversion)
    requires AllDigits(body)
    ensures AllDigits(Zeros(pad, c) + body) && Decimal(Zeros(pad, c) + body) == Decimal(body)
  {
    if c.zero { LeadingZeros(pad, body); } else { assert [] + body == body; }
  }

  lemma FieldDenotes(value: int, negative: bool, c: Conversion, body: string, pad: int)
    requires AllDigits(body) && Decimal(body) == value
    ensures Denoted(Field(Sign(true, negative, c), [], body, pad, c)) == if negative then -value else value
  {
    var front, sign := SignSplits(negative, c, pad);
    ZerosDenoteNothing(body, pad, c);
    DenotedField(front, sign, Zeros(pad, c) + body, Trailing(pad, c));
    Regrouped(Spaces(pad, c), Sign(true, negative, c), Zeros(pad, c), body, Trailing(pad, c), front, sign);
  }

  lemma IntegerIsField(value: nat, negative: bool, c: Conversion) returns (pad: int)
    ensures IntegerText(value, true, negative, BASE_D, c)
         == Field(Sign(true, negative, c), [], Reverse(Buffered(value, BASE_D, c)), pad, c)
  {
    pad := c.width - |Buffered(value, BASE_D, c)| - 0 - |Sign(true, negative, c)|;
  }

  lemma IntegerDenotes(value: nat, negative: bool, c: Conversion)
    requires !c.grouped
    ensures Denoted(IntegerText(value, true, negative, BASE_D, c)) == if negative then -(value as int) else value
  {
    BufferedDenotes(value, c);
    var pad := IntegerIsField(value, negative, c);
    FieldDenotes(value, negative, c, Reverse(Buffered(value, BASE_D, c)), pad);
  }

  lemma TextDenotes(v: int, c: Conversion, text: string, value: nat)
    requires !c.grouped && text == IntegerText(value, true, v < 0, BASE_D, c) && value == if v < 0 then -v else v
    ensures Denoted(text) == v
  {
    IntegerDenotes(value, v < 0, c);
  }

  /** Reading back what `%d` printed gives the value, whatever the flags, width and precision, grouping
      aside. */
  lemma AtoiReadsBack(v: int, c: Conversion)
    requires INT_MIN <= v <= INT_MAX && !c.grouped
    ensures Denoted(SignedText(v, c)) == v
  {
    TextDenotes(v, c, SignedText(v, c), if v < 0 then -v else v);
  }

  // ---------- What is read ----------

  lemma {:induction false} SkipsSpaces(spaces: string, t: string)
    requires (forall ch :: ch in spaces ==> ch in " \t\n\r\U{0B}\U{0C}") && (t != [] ==> !IsSpace(t[0]))
    ensures AfterSpaces(spaces + t) == t
  {
    if spaces != [] {
      assert spaces[0] in spaces;
      SkipsSpaces(spaces[1..], t);
      assert (spaces + t)[1..] == spaces[1..] + t;
    } else {
      assert spaces + t == t;
    }
  }

  lemma {:induction false} ReadsDigits(digits: string, rest: string)
    requires AllDigits(digits) && (rest != [] ==> !IsDigit(rest[0]))
    ensures LeadingDigits(digits + rest) == digits
  {
    if digits != [] {
      ReadsDigits(digits[1..], rest);
      assert (digits + rest)[1..] == digits[1..] + rest;
    } else {
      assert digits + rest == rest;
    }
  }

  lemma SignReads(sign: string, t: string)
    requires (sign == "" || sign == "+" || sign == "-") && t != [] && IsDigit(t[0])
    ensures sign + t != [] && !IsSpace((sign + t)[0])
    ensures SignedDecimal(sign + t) == if sign == "-" then -Decimal(LeadingDigits(t)) else Decimal(LeadingDigits(t))
  {
    hide LeadingDigits, Decimal;
    if sign == "" { assert sign + t == t; } else { assert (sign + t)[0] == sign[0] && (sign + t)[1..] == t; }
  }

  /** White space, a sign or none, digits, and whatever else: the number is what the digits denote, below
      zero after a minus. */
  lemma DenotedIs(spaces: string, sign: string, digits: string, rest: string)
    requires forall ch :: ch in spaces ==> ch in " \t\n\r\U{0B}\U{0C}"
    requires sign == "" || sign == "+" || sign == "-"
    requires digits != [] && (forall j :: 0 <= j < |digits| ==> '0' <= digits[j] <= '9')
    requires rest != [] ==> !('0' <= rest[0] <= '9')
    ensures Denoted(spaces + (sign + (digits + rest))) == if sign == "-" then -Decimal(digits) else Decimal(digits)
  {
    hide LeadingDigits, AfterSpaces, Decimal, SignedDecimal;
    SignReads(sign, digits + rest);
    SkipsSpaces(spaces, sign + (digits + rest));
    ReadsDigits(digits, rest);
  }

  // ---------- Grouping ----------

  /** A grouped number of thousands splits at its last comma: what is read stops there. */
  lemma {:induction false} LastGroup(value: nat, count: nat) returns (lo: string, hi: string)
    requires value > 0
    ensures RawDigits(value, BASE_D, true, count) == lo + hi
    ensures AllDigits(hi) && hi != [] && 0 <= ReversedDecimal(hi) <= value
    ensures lo != [] ==> lo[|lo| - 1] == ','
    ensures count == 3 || (count == 2 && value >= 10) || (count == 1 && value >= 100)
            || (count == 0 && value >= 1000) ==>
              lo != [] && (count < 3 ==> ReversedDecimal(hi) < value)
  {
    var digit := BASE_D.digits[value % 10];
    assert DigitValue(digit) == value % 10;
    var comma := if count > 0 && count % 3 == 0 then [','] else [];
    assert RawDigits(value, BASE_D, true, count) == (comma + [digit]) + RawDigits(value / 10, BASE_D, true, count + 1);
    if value < 10 {
      lo, hi := comma, [digit];
      assert hi[1..] == [];
    } else {
      var lo', hi' := LastGroup(value / 10, count + 1);
      lo, hi := SplitOn(comma, digit, lo', hi');
    }
  }

  lemma SplitOn(comma: string, digit: char, lo: string, hi: string) returns (lo': string, hi': string)
    requires IsDigit(digit) && AllDigits(hi) && hi != [] && (lo != [] ==> lo[|lo| - 1] == ',')
    requires comma == [] || comma == [',']
    ensures (comma + [digit]) + (lo + hi) == lo' + hi'
    ensures AllDigits(hi') && hi' != [] && (lo' != [] ==> lo'[|lo'| - 1] == ',')
    ensures lo == [] ==> lo' == comma && ReversedDecimal(hi') == DigitValue(digit) + 10 * ReversedDecimal(hi)
    ensures lo != [] ==> lo' != [] && hi' == hi
  {
    if lo == [] {
      lo', hi' := comma, [digit] + hi;
      assert hi'[1..] == hi;
    } else {
      lo', hi' := (comma + [digit]) + lo, hi;
    }
  }

  /** Below a thousand grouping changes nothing. */
  lemma SmallIsNotGrouped(value: nat, c: Conversion)
    requires value < 1000
    ensures Buffered(value, BASE_D, c) == Buffered(value, BASE_D, c.(grouped := false))
  {
    SmallDigits(value, 0);
  }

  lemma {:induction false} SmallDigits(value: nat, count: nat)
    requires count <= 3 && (count == 3 ==> value == 0) && (count == 2 ==> value < 10) && (count == 1 ==> value < 100)
    requires count == 0 ==> value < 1000
    ensures RawDigits(value, BASE_D, true, count) == RawDigits(value, BASE_D, false, count)
  {
    if value > 0 { SmallDigits(value / 10, count + 1); }
  }

  lemma {:induction false} ReverseJoined(s: string, t: string)
    ensures Reverse(s + t) == Reverse(t) + Reverse(s)
  {
    if s == [] {
      assert s + t == t;
    } else {
      ReverseJoined(s[1..], t);
      assert (s + t)[1..] == s[1..] + t;
    }
  }

  /** From a thousand on the text shown starts with fewer digits and a comma. */
  lemma GroupedBody(value: nat, c: Conversion) returns (d: string, tail: string)
    requires value >= 1000 && c.grouped
    ensures Reverse(Buffered(value, BASE_D, c)) == d + tail
    ensures AllDigits(d) && d != [] && Decimal(d) < value && 0 <= Decimal(d)
    ensures tail != [] && tail[0] == ','
  {
    var lo, hi := LastGroup(value, 0);
    var raw := RawDigits(value, BASE_D, true, 0);
    var precision := if c.precision < 0 then 1 else c.precision;
    var zeros := Min(precision, BUFFER_SIZE - 1) - |raw|;
    TrailingZeros(hi, zeros);
    DecimalOfReverse(hi + Repeat('0', zeros));
    d, tail := Reverse(hi + Repeat('0', zeros)), Reverse(lo);
    assert Buffered(value, BASE_D, c) == lo + (hi + Repeat('0', zeros));
    ReverseJoined(lo, hi + Repeat('0', zeros));
    ReverseKeepsAt(lo, 0);
  }

  lemma RegroupedTail(a: string, b: string, z: string, d: string, tail: string, e: string, front: string, sign: string)
    requires front + sign == a + b
    ensures a + b + [] + z + (d + tail) + e == front + (sign + ((z + d) + (tail + e)))
  {
    assert a + b + [] + z + (d + tail) + e == (a + b) + (z + d + tail + e);
    assert (front + sign) + (z + d + tail + e) == front + (sign + ((z + d) + (tail + e)));
  }

  lemma GroupedFieldDenotes(negative: bool, c: Conversion, d: string, tail: string, pad: int)
    requires AllDigits(d) && d != [] && tail != [] && tail[0] == ','
    ensures Denoted(Field(Sign(true, negative, c), [], d + tail, pad, c))
         == if negative then -Decimal(d) else Decimal(d)
  {
    var front, sign := SignSplits(negative, c, pad);
    ZerosDenoteNothing(d, pad, c);
    DenotedField(front, sign, Zeros(pad, c) + d, tail + Trailing(pad, c));
    RegroupedTail(Spaces(pad, c), Sign(true, negative, c), Zeros(pad, c), d, tail, Trailing(pad, c), front, sign);
  }

  lemma GroupedDenotesLess(value: nat, negative: bool, c: Conversion)
    requires value >= 1000 && c.grouped
    ensures var n := Denoted(IntegerText(value, true, negative, BASE_D, c)); 0 <= (if negative then -n else n) < value
  {
    var d, tail := GroupedBody(value, c);
    var pad := IntegerIsField(value, negative, c);
    GroupedFieldDenotes(negative, c, d, tail, pad);
  }

  lemma SmallText(value: nat, negative: bool, c: Conversion)
    requires value < 1000
    ensures IntegerText(value, true, negative, BASE_D, c)
         == IntegerText(value, true, negative, BASE_D, c.(grouped := false))
  {
    SmallIsNotGrouped(value, c);
  }

  /** Printing with `%d` and reading back gives the value exactly when it is not grouped or has at most
      three digits: 1000 would print as 1,000, of which the 1 is read. */
  lemma AtoiReadsBackIff(v: int, c: Conversion)
    requires INT_MIN <= v <= INT_MAX
    ensures Denoted(SignedText(v, c)) == v <==> !c.grouped || -1000 < v < 1000
  {
    var value: nat := if v < 0 then -v else v;
    if !c.grouped {
      AtoiReadsBack(v, c);
    } else if value < 1000 {
      SmallText(value, v < 0, c);
      AtoiReadsBack(v, c.(grouped := false));
    } else {
      GroupedDenotesLess(value, v < 0, c);
    }
  }
}
