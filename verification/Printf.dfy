/** Format strings (pintos/src/lib/stdio.c): parsing conversions, fetching their arguments, and
    `vsnprintf`, for which a format string ends like any other at its null. */
module Printf {
  import opened Sequences
  import opened Stdio
  import opened Atoi

  /** The length modifiers of a conversion. */
  datatype Kind = CHAR | SHORT | INT | INTMAX | LONG | LONGLONG | PTRDIFFT | SIZET

  /** An argument: a number of any integer type, a string by its characters before the null, or a
      null pointer in its place. */
  datatype Arg = Int(value: int) | Str(s: string) | Null

  /** A conversion as parsed, with where the format and the arguments go on. */
  datatype Parsed = Parsed(c: Conversion, kind: Kind, pos: nat, next: nat)

  function CharAt(f: string, i: nat): char { if i < |f| then f[i] else '\0' }

  /** The k-th argument; a missing one, undefined in C, reads as null. */
  function ArgAt(args: seq<Arg>, k: nat): Arg { if k < |args| then args[k] else Null }

  function AsInt(arg: Arg): int { if arg.Int? then arg.value else 0 }

  function IntArg(args: seq<Arg>, k: nat): int { AsInt(ArgAt(args, k)) }

  // ---------- What a conversion specification means ----------

  predicate IsFlag(ch: char) { ch in "-+ #0'" }

  /** Where the flags from position i on end. */
  function FlagEnd(f: string, i: nat): (e: nat)
    requires i <= |f|
    ensures i <= e <= |f|
    decreases |f| - i
  {
    if i < |f| && IsFlag(f[i]) then FlagEnd(f, i + 1) else i
  }

  function DigitEnd(f: string, i: nat): (e: nat)
    requires i <= |f|
    ensures i <= e <= |f|
    decreases |f| - i
  {
    if i < |f| && IsDigit(f[i]) then DigitEnd(f, i + 1) else i
  }

  function Number(f: string, i: nat): int
    requires i <= |f|
  {
    Decimal(f[i..DigitEnd(f, i)])
  }

  /** The flag is among those from position i on. */
  predicate HasFlag(f: string, i: nat, ch: char)
    requires i <= |f|
    decreases |f| - i
  {
    i < |f| && IsFlag(f[i]) && (f[i] == ch || HasFlag(f, i + 1, ch))
  }

  lemma {:induction false} HasFlagIff(f: string, i: nat, ch: char)
    requires i <= |f|
    ensures HasFlag(f, i, ch) <==> ch in f[i..FlagEnd(f, i)]
    decreases |f| - i
  {
    if i < |f| && IsFlag(f[i]) {
      HasFlagIff(f, i + 1, ch);
      assert f[i..FlagEnd(f, i)] == [f[i]] + f[i + 1..FlagEnd(f, i + 1)];
    }
  }

  /** The flags, of which `-` rules out `0` and `+` rules out a blank. */
  function ParsedFlags(f: string, i: nat): Conversion
    requires i <= |f|
  {
    Conversion(HasFlag(f, i, '-'), HasFlag(f, i, '+'), HasFlag(f, i, ' ') && !HasFlag(f, i, '+'), HasFlag(f, i, '#'),
               HasFlag(f, i, '0') && !HasFlag(f, i, '-'), HasFlag(f, i, '\''), 0, -1)
  }

  lemma {:induction false} DigitsAreDigits(f: string, i: nat)
    requires i <= |f|
    ensures AllDigits(f[i..DigitEnd(f, i)])
    decreases |f| - i
  {
    if i < |f| && IsDigit(f[i]) {
      DigitsAreDigits(f, i + 1);
      assert f[i..DigitEnd(f, i)] == [f[i]] + f[i + 1..DigitEnd(f, i + 1)];
    }
  }

  lemma NumberIsNatural(f: string, i: nat)
    requires i <= |f|
    ensures Number(f, i) >= 0
  {
    DigitsAreDigits(f, i);
    DecimalGrows(f[i..DigitEnd(f, i)], 0);
  }

  /** A width, which an argument may give; a negative one means `-` and its magnitude, but comes too
      late to rule out `0`. */
  function ParsedWidth(c: Conversion, f: string, i: nat, args: seq<Arg>, k: nat): Parsed
    requires i <= |f|
  {
    if CharAt(f, i) == '*' then
      var w := WrapInt(IntArg(args, k));
      Parsed(if w < 0 then c.(width := -w, minus := true) else c.(width := w), INT, i + 1, k + 1)
    else
      NumberIsNatural(f, i);
      Parsed(c.(width := Number(f, i)), INT, DigitEnd(f, i), k)
  }

  /** A precision after a point, also perhaps from an argument; a precision rules out `0`. */
  function ParsedPrecision(c: Conversion, f: string, i: nat, args: seq<Arg>, k: nat): Parsed
    requires i <= |f|
  {
    if CharAt(f, i) != '.' then Parsed(c, INT, i, k)
    else if CharAt(f, i + 1) == '*' then
      var p := WrapInt(IntArg(args, k));
      Parsed(c.(precision := if p < 0 then -1 else p, zero := c.zero && p < 0), INT, i + 2, k + 1)
    else Parsed(c.(precision := Number(f, i + 1), zero := false), INT, DigitEnd(f, i + 1), k)
  }

  function KindAt(f: string, i: nat): Kind {
    match CharAt(f, i)
    case 'h' => if CharAt(f, i + 1) == 'h' then CHAR else SHORT
    case 'j' => INTMAX
    case 'l' => if CharAt(f, i + 1) == 'l' then LONGLONG else LONG
    case 't' => PTRDIFFT
    case 'z' => SIZET
    case _ => INT
  }

  function KindLength(f: string, i: nat): nat {
    match KindAt(f, i)
    case INT => 0
    case CHAR => 2
    case LONGLONG => 2
    case _ => 1
  }

  /** The whole specification from position i on, up to the letter that says what to convert. */
  function Parse(f: string, i: nat, args: seq<Arg>, k: nat): (p: Parsed)
    requires i <= |f|
    ensures i <= p.pos <= |f|
  {
    var w := ParsedWidth(ParsedFlags(f, i), f, FlagEnd(f, i), args, k);
    var p := ParsedPrecision(w.c, f, w.pos, args, w.next);
    Parsed(p.c, KindAt(f, p.pos), p.pos + KindLength(f, p.pos), p.next)
  }

  /** No precision is given, or a negative argument as one, which is as good as none. */
  predicate NoPrecision(f: string, i: nat, args: seq<Arg>, k: nat)
    requires i <= |f|
  {
    CharAt(f, i) != '.' || (CharAt(f, i + 1) == '*' && WrapInt(IntArg(args, k)) < 0)
  }

  /** Parsing leaves both `-` and `0` set exactly for a `0` flag without a `-`, a width given by a
      negative argument, and no precision. */
  lemma BothFlagsIff(f: string, i: nat, args: seq<Arg>, k: nat)
    requires i <= |f|
    ensures Parse(f, i, args, k).c.minus && Parse(f, i, args, k).c.zero <==>
            && HasFlag(f, i, '0') && !HasFlag(f, i, '-')
            && CharAt(f, FlagEnd(f, i)) == '*' && WrapInt(IntArg(args, k)) < 0
            && NoPrecision(f, FlagEnd(f, i) + 1, args, k + 1)
  {
    NumberIsNatural(f, FlagEnd(f, i));
    var w := ParsedWidth(ParsedFlags(f, i), f, FlagEnd(f, i), args, k);
    if CharAt(f, w.pos) == '.' { NumberIsNatural(f, w.pos + 1); }
  }

  // ---------- parse_conversion ----------

  method ScanFlags(f: string, start: nat) returns (c: Conversion, i: nat)
    requires start <= |f|
    ensures i == FlagEnd(f, start) && c == ParsedFlags(f, start)
  {
    i := start;
    var minus, plus, space, pound, zero, grouped := false, false, false, false, false, false;
    while i < |f| && IsFlag(f[i])
      invariant start <= i <= |f| && FlagEnd(f, i) == FlagEnd(f, start)
      invariant minus == ('-' in f[start..i]) && plus == ('+' in f[start..i]) && space == (' ' in f[start..i])
      invariant pound == ('#' in f[start..i]) && zero == ('0' in f[start..i]) && grouped == ('\'' in f[start..i])
    {
      assert f[start..i + 1] == f[start..i] + [f[i]];
      match f[i] {
        case '-' => minus := true;
        case '+' => plus := true;
        case ' ' => space := true;
        case '#' => pound := true;
        case '0' => zero := true;
        case _ => grouped := true;
      }
      i := i + 1;
    }
    forall ch ensures HasFlag(f, start, ch) <==> ch in f[start..i] { HasFlagIff(f, start, ch); }
    if minus { zero := false; }
    if plus { space := false; }
    c := Conversion(minus, plus, space, pound, zero, grouped, 0, -1);
  }

  method ScanNumber(f: string, start: nat) returns (n: nat, i: nat)
    requires start <= |f|
    ensures i == DigitEnd(f, start) && n == Number(f, start)
  {
    i := start;
    n := 0;
    while i < |f| && IsDigit(f[i])
      invariant start <= i <= |f| && DigitEnd(f, i) == DigitEnd(f, start)
      invariant n == Decimal(f[start..i])
    {
      assert f[start..i + 1][..i - start] == f[start..i];
      n := n * 10 + DigitValue(f[i]);
      i := i + 1;
    }
  }

  method ScanWidth(c0: Conversion, f: string, start: nat, args: seq<Arg>, k: nat)
    returns (c: Conversion, i: nat, next: nat)
    requires start <= |f|
    ensures Parsed(c, INT, i, next) == ParsedWidth(c0, f, start, args, k)
  {
    c, i, next := c0, start, k;
    var width: int;
    if CharAt(f, i) == '*' {
      i := i + 1;
      width := WrapInt(IntArg(args, next));
      next := next + 1;
    } else {
      width, i := ScanNumber(f, i);
    }
    if width < 0 {
      c := c.(minus := true);
      width := -width;
    }
    c := c.(width := width);
  }

  method ScanPrecision(c0: Conversion, f: string, start: nat, args: seq<Arg>, k: nat)
    returns (c: Conversion, i: nat, next: nat)
    requires start <= |f| && c0.precision == -1
    ensures Parsed(c, INT, i, next) == ParsedPrecision(c0, f, start, args, k)
  {
    c, i, next := c0, start, k;
    if CharAt(f, i) == '.' {
      i := i + 1;
      var precision: int;
      if CharAt(f, i) == '*' {
        i := i + 1;
        precision := WrapInt(IntArg(args, next));
        next := next + 1;
      } else {
        precision, i := ScanNumber(f, i);
      }
      if precision < 0 { precision := -1; }
      c := c.(precision := precision);
    }
    if c.precision >= 0 { c := c.(zero := false); }
  }

  /** `parse_conversion`. */
  method ParseConversion(f: string, start: nat, args: seq<Arg>, k: nat) returns (p: Parsed)
    requires start <= |f|
    ensures p == Parse(f, start, args, k)
  {
    var c, i := ScanFlags(f, start);
    var next: nat;
    c, i, next := ScanWidth(c, f, i, args, k);
    c, i, next := ScanPrecision(c, f, i, args, next);
    p := Parsed(c, KindAt(f, i), i + KindLength(f, i), next);
  }

  // ---------- Arguments ----------

  /** A number reduced to so many values, the upper half of them negative: the C types. */
  function SignedValue(x: int, values: nat): (r: int)
    requires values > 0 && values % 2 == 0
    ensures 0 <= 2 * r + values && 2 * r < values
  {
    (x + values / 2) % values - values / 2
  }

  function ValuesOf(kind: Kind): (n: nat)
    ensures n > 0 && n % 2 == 0 && n <= TWO_64
  {
    match kind
    case CHAR => 0x100
    case SHORT => 0x1_0000
    case INTMAX => TWO_64
    case LONGLONG => TWO_64
    case _ => 0x1_0000_0000
  }

  /** The argument of a signed conversion. */
  function SignedArg(arg: Arg, kind: Kind): int { SignedValue(AsInt(arg), ValuesOf(kind)) }

  /** The argument of an unsigned conversion. */
  function UnsignedArg(arg: Arg, kind: Kind): (n: nat)
    ensures n < TWO_64
  {
    AsInt(arg) % ValuesOf(kind)
  }

  /** The string argument, cut at the precision. */
  function StringArg(arg: Arg, precision: int): string {
    var s := if arg.Str? then arg.s else "(null)";
    if 0 <= precision < |s| then s[..precision] else s
  }

  /** What `%p` does with its flags. */
  function PointerConversion(c: Conversion): Conversion {
    Conversion(false, false, false, true, false, false, c.width, c.precision)
  }

  // ---------- What a format string means ----------

  /** The output of one conversion, and how many arguments it takes. */
  function ConversionText(ch: char, c: Conversion, kind: Kind, arg: Arg): string {
    match ch
    case 'd' => SignedText(SignedArg(arg, kind), c)
    case 'i' => SignedText(SignedArg(arg, kind), c)
    case 'o' => IntegerText(UnsignedArg(arg, kind), false, false, BASE_O, c)
    case 'u' => IntegerText(UnsignedArg(arg, kind), false, false, BASE_D, c)
    case 'x' => IntegerText(UnsignedArg(arg, kind), false, false, BASE_X, c)
    case 'X' => IntegerText(UnsignedArg(arg, kind), false, false, BASE_UPPER_X, c)
    case 'c' => StringText([(AsInt(arg) % 256) as char], c)
    case 's' => StringText(StringArg(arg, c.precision), c)
    case 'p' => IntegerText(UnsignedArg(arg, INT), false, false, BASE_X, PointerConversion(c))
    case _ => if ch in "feEgGn" then "<<no %" + [ch] + " in kernel>>" else "<<no %" + [ch] + " conversion>>"
  }

  function ArgsTaken(ch: char): nat { if ch in "dioxXucsp" then 1 else 0 }

  /** A piece of output, and where the format and the arguments go on after it. */
  datatype Piece = Piece(text: string, pos: nat, next: nat)

  /** What the format means at position i: a character, a percent sign, or a conversion. */
  function PieceAt(f: string, i: nat, args: seq<Arg>, k: nat): (q: Piece)
    requires i < |f|
    ensures q.pos > i
  {
    if f[i] != '%' then Piece([f[i]], i + 1, k)
    else if CharAt(f, i + 1) == '%' then Piece(['%'], i + 2, k)
    else
      var p := Parse(f, i + 1, args, k);
      var ch := CharAt(f, p.pos);
      Piece(ConversionText(ch, p.c, p.kind, ArgAt(args, p.next)), p.pos + 1, p.next + ArgsTaken(ch))
  }

  /** Everything that `__vprintf` outputs from position i on. */
  function FormatText(f: string, i: nat, args: seq<Arg>, k: nat): string
    decreases |f| - i
  {
    if i >= |f| then []
    else
      var q := PieceAt(f, i, args, k);
      q.text + FormatText(f, q.pos, args, q.next)
  }

  // ---------- __vprintf and vsnprintf ----------

  /** The switch of `__vprintf` for one conversion. */
  method PutConversion(out: Sink, ch: char, c: Conversion, kind: Kind, arg: Arg)
    requires out.Valid()
    modifies out, out.buffer
    ensures out.Valid() && out.text == old(out.text) + ConversionText(ch, c, kind, arg)
    ensures forall i :: out.p <= i < out.buffer.Length ==> out.buffer[i] == old(out.buffer[i])
  {
    match ch
    case 'd' => PutSigned(out, SignedArg(arg, kind), c);
    case 'i' => PutSigned(out, SignedArg(arg, kind), c);
    case 'o' => FormatInteger(out, UnsignedArg(arg, kind), false, false, BASE_O, c);
    case 'u' => FormatInteger(out, UnsignedArg(arg, kind), false, false, BASE_D, c);
    case 'x' => FormatInteger(out, UnsignedArg(arg, kind), false, false, BASE_X, c);
    case 'X' => FormatInteger(out, UnsignedArg(arg, kind), false, false, BASE_UPPER_X, c);
    case 'c' => FormatString(out, [(AsInt(arg) % 256) as char], c);
    case 's' => FormatString(out, StringArg(arg, c.precision), c);
    case 'p' => FormatInteger(out, UnsignedArg(arg, INT), false, false, BASE_X, PointerConversion(c));
    case _ =>
      out.PutAll(if ch in "feEgGn" then "<<no %" + [ch] + " in kernel>>" else "<<no %" + [ch] + " conversion>>");
  }

  method PutSigned(out: Sink, value: int, c: Conversion)
    requires out.Valid() && 0 <= 2 * value + TWO_64 && 2 * value < TWO_64
    modifies out, out.buffer
    ensures out.Valid() && out.text == old(out.text) + SignedText(value, c)
    ensures forall i :: out.p <= i < out.buffer.Length ==> out.buffer[i] == old(out.buffer[i])
  {
    FormatInteger(out, if value < 0 then -value else value, true, value < 0, BASE_D, c);
  }

  /** One round of the loop of `__vprintf`. */
  method PutNext(out: Sink, f: string, i: nat, args: seq<Arg>, k: nat) returns (i': nat, k': nat)
    requires out.Valid() && i < |f|
    modifies out, out.buffer
    ensures out.Valid() && out.text == old(out.text) + PieceAt(f, i, args, k).text
    ensures i' == PieceAt(f, i, args, k).pos && k' == PieceAt(f, i, args, k).next
    ensures forall i :: out.p <= i < out.buffer.Length ==> out.buffer[i] == old(out.buffer[i])
  {
    if f[i] != '%' {
      out.Put(f[i]);
      i', k' := i + 1, k;
    } else if CharAt(f, i + 1) == '%' {
      out.Put('%');
      i', k' := i + 2, k;
    } else {
      var p := ParseConversion(f, i + 1, args, k);
      var ch := CharAt(f, p.pos);
      PutConversion(out, ch, p.c, p.kind, ArgAt(args, p.next));
      i', k' := p.pos + 1, p.next + ArgsTaken(ch);
    }
  }

  /** `__vprintf` sends the text that the format string means. */
  method Vprintf(out: Sink, f: string, args: seq<Arg>)
    requires out.Valid()
    modifies out, out.buffer
    ensures out.Valid() && out.text == old(out.text) + FormatText(f, 0, args, 0)
    ensures forall i :: out.p <= i < out.buffer.Length ==> out.buffer[i] == old(out.buffer[i])
  {
    var i: nat, k: nat := 0, 0;
    while i < |f|
      invariant out.Valid() && out.text + FormatText(f, i, args, k) == old(out.text) + FormatText(f, 0, args, 0)
      invariant forall i :: out.p <= i < out.buffer.Length ==> out.buffer[i] == old(out.buffer[i])
      decreases |f| - i
    {
      ghost var q := PieceAt(f, i, args, k);
      Assoc(out.text, q.text, FormatText(f, q.pos, args, q.next));
      i, k := PutNext(out, f, i, args, k);
    }
    assert FormatText(f, i, args, k) == [];
  }

  lemma Assoc(a: string, b: string, c: string)
    ensures a + (b + c) == a + b + c
  {
  }

  /** `vsnprintf`: the whole length, the first characters that fit with a null after them, and the
      rest of the buffer as it was. */
  method Vsnprintf(buffer: array<char>, bufSize: nat, f: string, args: seq<Arg>) returns (length: nat)
    requires bufSize <= buffer.Length
    modifies buffer
    ensures length == |FormatText(f, 0, args, 0)|
    ensures bufSize > 0 ==>
              var stored := Min(length, bufSize - 1);
              && buffer[..stored] == FormatText(f, 0, args, 0)[..stored] && buffer[stored] == '\0'
              && forall i :: stored < i < buffer.Length ==> buffer[i] == old(buffer[i])
    ensures bufSize == 0 ==> buffer[..] == old(buffer[..])
  {
    var out := new Sink(buffer, if bufSize > 0 then bufSize - 1 else 0);
    Vprintf(out, f, args);
    assert out.text == [] + FormatText(f, 0, args, 0) == FormatText(f, 0, args, 0);
    length := Terminate(out, bufSize);
  }

  method Terminate(out: Sink, bufSize: nat) returns (length: nat)
    requires out.Valid() && bufSize <= out.buffer.Length && out.maxLength == if bufSize > 0 then bufSize - 1 else 0
    modifies out.buffer
    ensures length == |out.text|
    ensures bufSize > 0 ==> out.buffer[..Min(length, bufSize - 1)] == out.text[..Min(length, bufSize - 1)]
                            && out.buffer[Min(length, bufSize - 1)] == '\0'
    ensures forall i :: 0 <= i < out.buffer.Length && i > Min(length, bufSize - 1) ==>
              out.buffer[i] == old(out.buffer[i])
  {
    if bufSize > 0 { out.buffer[out.p] := '\0'; }
    length := out.length;
  }
}
