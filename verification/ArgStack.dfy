/** Laying out a program's arguments on its stack (pintos/src/userprog/process.c,
    pintos/src/lib/string.c), byte by byte in one flat memory that holds both the command line, which
    is cut up in place, and the stack. */
module ArgStack {
  import opened Bytes
  import opened Options

  const NUL: byte := 0
  const SPACE: byte := 32

  // ---------- Strings and words in memory ----------

  /** The null-terminated string at an address. */
  ghost predicate StringAt(m: seq<byte>, p: nat, s: seq<byte>) {
    && p + |s| < |m| && m[p + |s|] == NUL
    && forall i :: p <= i < p + |s| ==> m[i] == s[i - p] && m[i] != NUL
  }

  /** The 32-bit little-endian word at an address. */
  ghost predicate WordAt(m: seq<byte>, p: nat, v: nat) {
    p + 4 <= |m| && m[p] as int + 256 * (m[p + 1] as int + 256 * (m[p + 2] as int + 256 * m[p + 3] as int)) == v
  }

  lemma StringKept(m: seq<byte>, m': seq<byte>, lo: nat, hi: nat, p: nat, s: seq<byte>)
    requires StringAt(m, p, s) && ChangedWithin(m, m', lo, hi) && (p + |s| < lo || hi <= p)
    ensures StringAt(m', p, s)
  {
  }

  lemma WordKept(m: seq<byte>, m': seq<byte>, lo: nat, hi: nat, p: nat, v: nat)
    requires WordAt(m, p, v) && ChangedWithin(m, m', lo, hi) && (p + 4 <= lo || hi <= p)
    ensures WordAt(m', p, v)
  {
  }

  // ---------- Words of a line ----------

  /** How far the leading characters that are no delimiters go. */
  function WordLength(s: seq<byte>, d: seq<byte>): (n: nat)
    ensures n <= |s| && (n < |s| ==> s[n] in d) && forall i :: 0 <= i < n ==> s[i] !in d
  {
    if s == [] || s[0] in d then 0 else 1 + WordLength(s[1..], d)
  }

  /** The words of a string: its longest stretches without a delimiter. */
  function Words(s: seq<byte>, d: seq<byte>): seq<seq<byte>>
    decreases |s|
  {
    if s == [] then []
    else if s[0] in d then Words(s[1..], d)
    else [s[..WordLength(s, d)]] + Words(s[WordLength(s, d)..], d)
  }

  function Joined(words: seq<seq<byte>>): seq<byte> {
    if words == [] then [] else words[0] + Joined(words[1..])
  }

  function WithoutDelimiters(s: seq<byte>, d: seq<byte>): seq<byte> {
    if s == [] then [] else (if s[0] in d then [] else [s[0]]) + WithoutDelimiters(s[1..], d)
  }

  lemma {:induction false} WordLeads(s: seq<byte>, d: seq<byte>)
    ensures WithoutDelimiters(s, d) == s[..WordLength(s, d)] + WithoutDelimiters(s[WordLength(s, d)..], d)
  {
    if s != [] && s[0] !in d {
      WordLeads(s[1..], d);
      var n := WordLength(s[1..], d);
      assert s[1..][n..] == s[n + 1..] && [s[0]] + s[1..][..n] == s[..n + 1];
    }
  }

  /** The words are the line without its delimiters, cut into stretches that are not empty. */
  lemma {:induction false} WordsAreText(s: seq<byte>, d: seq<byte>)
    ensures Joined(Words(s, d)) == WithoutDelimiters(s, d)
    ensures forall i :: 0 <= i < |Words(s, d)| ==> Words(s, d)[i] != []
    decreases |s|
  {
    if s != [] {
      if s[0] in d {
        WordsAreText(s[1..], d);
      } else {
        var n := WordLength(s, d);
        WordsAreText(s[n..], d);
        WordLeads(s, d);
      }
    }
  }

  /** Room for the words up to the i-th, each with its null. */
  function Room(words: seq<seq<byte>>): nat {
    if words == [] then 0 else Room(words[..|words| - 1]) + |words[|words| - 1]| + 1
  }

  lemma {:induction false} RoomCons(w: seq<byte>, words: seq<seq<byte>>)
    ensures Room([w] + words) == |w| + 1 + Room(words)
  {
    if words == [] {
      assert [w] + words == [w] && [w][..0] == [];
    } else {
      var n := |words| - 1;
      RoomCons(w, words[..n]);
      assert ([w] + words)[..n + 1] == [w] + words[..n];
    }
  }

  /** The words, each with its null, fit where the line with its null did. */
  lemma {:induction false} WordsFit(s: seq<byte>, d: seq<byte>)
    ensures Room(Words(s, d)) <= |s| + 1
    decreases |s|
  {
    if s != [] {
      if s[0] in d {
        WordsFit(s[1..], d);
      } else {
        var n := WordLength(s, d);
        RoomCons(s[..n], Words(s[n..], d));
        if n < |s| { WordsFit(s[n + 1..], d); assert s[n..][1..] == s[n + 1..]; }
      }
    }
  }

  // ---------- Counting ----------

  /** Positions where a word starts, given whether a delimiter came before. */
  function Starts(s: seq<byte>, d: seq<byte>, delimiterBefore: bool): nat {
    if s == [] then 0
    else (if delimiterBefore && s[0] !in d then 1 else 0) + Starts(s[1..], d, s[0] in d)
  }

  lemma {:induction false} StartsInWord(s: seq<byte>, d: seq<byte>)
    ensures Starts(s, d, false) == Starts(s[WordLength(s, d)..], d, true)
  {
    if s != [] && s[0] !in d {
      StartsInWord(s[1..], d);
      assert s[1..][WordLength(s[1..], d)..] == s[WordLength(s, d)..];
    }
  }

  /** Every word has one start. */
  lemma {:induction false} StartsAreWords(s: seq<byte>, d: seq<byte>)
    ensures Starts(s, d, true) == |Words(s, d)|
    decreases |s|
  {
    if s != [] {
      if s[0] in d {
        StartsAreWords(s[1..], d);
      } else {
        var n := WordLength(s, d);
        StartsAreWords(s[n..], d);
        StartsInWord(s[1..], d);
        assert s[1..][WordLength(s[1..], d)..] == s[n..];
      }
    }
  }

  method ExistsIn(c: byte, d: seq<byte>) returns (r: bool)
    ensures r == (c in d)
  {
    var i := 0;
    while i < |d| && d[i] != c
      invariant 0 <= i <= |d| && c !in d[..i]
    {
      i := i + 1;
    }
    r := i < |d|;
  }

  /** `count_args` counts the words that `strtok_r` will find. */
  method CountArgs(mem: array<byte>, buf: nat, d: seq<byte>, ghost line: seq<byte>) returns (argc: nat)
    requires StringAt(mem[..], buf, line)
    ensures argc == |Words(line, d)|
  {
    var i := 0;
    var currentIsDelimiter := true;
    argc := 0;
    while mem[buf + i] != NUL
      invariant 0 <= i <= |line|
      invariant argc + Starts(line[i..], d, currentIsDelimiter) == Starts(line, d, true)
      decreases |line| - i
    {
      var previousWasDelimiter := currentIsDelimiter;
      currentIsDelimiter := ExistsIn(mem[buf + i], d);
      if previousWasDelimiter && !currentIsDelimiter { argc := argc + 1; }
      assert line[i..][1..] == line[i + 1..];
      i := i + 1;
    }
    StartsAreWords(line, d);
  }

  // ---------- Cutting up ----------

  lemma {:induction false} WordsSkip(s: seq<byte>, d: seq<byte>, n: nat)
    requires n <= |s| && forall i :: 0 <= i < n ==> s[i] in d
    ensures Words(s, d) == Words(s[n..], d)
  {
    if n > 0 {
      WordsSkip(s[1..], d, n - 1);
      assert s[1..][n - 1..] == s[n..];
    } else {
      assert s[n..] == s;
    }
  }

  lemma StringSuffix(m: seq<byte>, p: nat, s: seq<byte>, n: nat)
    requires StringAt(m, p, s) && n <= |s|
    ensures StringAt(m, p + n, s[n..])
  {
  }

  /** The next word, if any, and what is left after it. */
  ghost predicate IsToken(s: seq<byte>, d: seq<byte>, word: seq<byte>, rest: seq<byte>) {
    Words(s, d) != [] && word == Words(s, d)[0] && Words(rest, d) == Words(s, d)[1..]
  }

  lemma FirstWord(s: seq<byte>, d: seq<byte>, k: nat, n: nat)
    requires k < |s| && s[k] !in d && (forall i :: 0 <= i < k ==> s[i] in d) && n == WordLength(s[k..], d)
    ensures 0 < n && IsToken(s, d, s[k..][..n], if k + n < |s| then s[k + n + 1..] else [])
  {
    WordsSkip(s, d, k);
    var t := s[k..];
    assert t[0] == s[k];
    if n < |t| {
      assert t[n..][1..] == s[k + n + 1..];
    }
  }

  /** Where a word and the rest of the string after it lie. */
  ghost predicate Placed(m: seq<byte>, p: nat, s: seq<byte>, token: nat, word: seq<byte>, save: nat, rest: seq<byte>) {
    && p <= token && StringAt(m, token, word) && token + |word| <= save
    && StringAt(m, save, rest) && save + |rest| == p + |s|
  }

  /** Cutting a string after its word leaves two strings. */
  lemma Cut(m: seq<byte>, p: nat, s: seq<byte>, k: nat, n: nat)
    requires StringAt(m, p, s) && k + n < |s|
    ensures var m' := m[p + k + n := NUL];
            && ChangedWithin(m, m', p, p + |s|)
            && Placed(m', p, s, p + k, s[k..][..n], p + k + n + 1, s[k + n + 1..])
  {
  }

  lemma LastWord(m: seq<byte>, p: nat, s: seq<byte>, k: nat, n: nat)
    requires StringAt(m, p, s) && k + n == |s|
    ensures Placed(m, p, s, p + k, s[k..][..n], p + k + n, [])
  {
  }

  /** What `strtok_r` returns for a word of length n after k delimiters. */
  ghost predicate TokenResult(m: seq<byte>, p: nat, s: seq<byte>, d: seq<byte>, token: nat, save: nat,
                              rest: seq<byte>) {
    && Words(s, d) != [] && IsToken(s, d, Words(s, d)[0], rest) && Placed(m, p, s, token, Words(s, d)[0], save, rest)
  }

  /** What a call of `strtok_r` does: it finds a word exactly if there is one, and changes no memory but
      the string. */
  ghost predicate Tokenized(m: seq<byte>, m': seq<byte>, p: nat, s: seq<byte>, d: seq<byte>, token: Option<nat>,
                            save: nat, rest: seq<byte>) {
    && ChangedWithin(m, m', p, p + |s|)
    && (token.None? <==> Words(s, d) == [])
    && (token.Some? ==> TokenResult(m', p, s, d, token.value, save, rest))
  }

  lemma NoToken(m: seq<byte>, p: nat, d: seq<byte>, s: seq<byte>, save: nat)
    requires forall i :: 0 <= i < |s| ==> s[i] in d
    ensures Tokenized(m, m, p, s, d, None, save, [])
  {
    WordsSkip(s, d, |s|);
  }

  lemma CutToken(m: seq<byte>, p: nat, d: seq<byte>, s: seq<byte>, k: nat, n: nat)
    requires StringAt(m, p, s) && k + n < |s| && s[k] !in d && (forall i :: 0 <= i < k ==> s[i] in d)
    requires n == WordLength(s[k..], d)
    ensures Tokenized(m, m[p + k + n := NUL], p, s, d, Some(p + k), p + k + n + 1, s[k + n + 1..])
  {
    FirstWord(s, d, k, n);
    Cut(m, p, s, k, n);
  }

  lemma LastToken(m: seq<byte>, p: nat, d: seq<byte>, s: seq<byte>, k: nat, n: nat)
    requires StringAt(m, p, s) && k < |s| && k + n == |s| && s[k] !in d && (forall i :: 0 <= i < k ==> s[i] in d)
    requires n == WordLength(s[k..], d)
    ensures Tokenized(m, m, p, s, d, Some(p + k), p + k + n, [])
  {
    FirstWord(s, d, k, n);
    LastWord(m, p, s, k, n);
  }

  /** `strtok_r` from position p of a string, of which s is left: finds the next word, puts a null
      after it, and returns where to go on. */
  method Strtok(mem: array<byte>, p: nat, d: seq<byte>, ghost s: seq<byte>)
    returns (token: Option<nat>, save: nat, ghost rest: seq<byte>)
    requires StringAt(mem[..], p, s) && NUL !in d
    modifies mem
    ensures Tokenized(old(mem[..]), mem[..], p, s, d, token, save, rest)
  {
    ghost var m := mem[..];
    var k := SkipDelimiters(mem, p, d, s);
    if mem[p + k] == NUL {
      NoToken(m, p, d, s, p + k);
      return None, p + k, [];
    }
    StringSuffix(m, p, s, k);
    var n := SkipWord(mem, p + k, d, s[k..]);
    token := Some(p + k);
    save, rest := EndToken(mem, p, d, s, k, n);
  }

  /** The end of `strtok_r`: a delimiter after the word becomes a null. */
  method EndToken(mem: array<byte>, p: nat, d: seq<byte>, ghost s: seq<byte>, k: nat, n: nat)
    returns (save: nat, ghost rest: seq<byte>)
    requires StringAt(mem[..], p, s) && k < |s| && s[k] !in d && (forall i :: 0 <= i < k ==> s[i] in d)
    requires k + n <= |s| && n == WordLength(s[k..], d)
    modifies mem
    ensures Tokenized(old(mem[..]), mem[..], p, s, d, Some(p + k), save, rest)
  {
    ghost var m := mem[..];
    if mem[p + k + n] != NUL {
      CutToken(m, p, d, s, k, n);
      mem[p + k + n] := NUL;
      assert mem[..] == m[p + k + n := NUL];
      save := p + k + n + 1;
      rest := s[k + n + 1..];
    } else {
      LastToken(m, p, d, s, k, n);
      save := p + k + n;
      rest := [];
    }
  }

  /** `strchr` on the delimiters: the first place of the character, which for a null is the end. */
  method Strchr(d: seq<byte>, c: byte) returns (r: Option<nat>)
    requires NUL !in d
    ensures r.Some? <==> c in d || c == NUL
    ensures r.Some? ==> r.value <= |d| && c !in d[..r.value] && (if r.value < |d| then d[r.value] == c else c == NUL)
  {
    var i := 0;
    while i < |d|
      invariant 0 <= i <= |d| && c !in d[..i]
    {
      if d[i] == c { return Some(i); }
      i := i + 1;
    }
    r := if c == NUL then Some(i) else None;
  }

  /** The first loop of `strtok_r`. */
  method SkipDelimiters(mem: array<byte>, p: nat, d: seq<byte>, ghost s: seq<byte>) returns (k: nat)
    requires StringAt(mem[..], p, s) && NUL !in d
    ensures k <= |s| && (forall i :: 0 <= i < k ==> s[i] in d) && (k < |s| ==> s[k] !in d)
  {
    k := 0;
    var found := Strchr(d, mem[p]);
    while found != None && mem[p + k] != NUL
      invariant k <= |s| && forall i :: 0 <= i < k ==> s[i] in d
      invariant found.Some? <==> mem[p + k] in d || mem[p + k] == NUL
      decreases |s| - k
    {
      k := k + 1;
      found := Strchr(d, mem[p + k]);
    }
  }

  /** The second loop of `strtok_r`, which a null ends as a delimiter does. */
  method SkipWord(mem: array<byte>, p: nat, d: seq<byte>, ghost s: seq<byte>) returns (n: nat)
    requires StringAt(mem[..], p, s) && NUL !in d
    ensures n == WordLength(s, d)
  {
    n := 0;
    var found := Strchr(d, mem[p]);
    while found == None
      invariant n <= WordLength(s, d)
      invariant found.Some? <==> mem[p + n] in d || mem[p + n] == NUL
      decreases |s| - n
    {
      n := n + 1;
      found := Strchr(d, mem[p + n]);
    }
  }

  method Strlen(mem: array<byte>, p: nat, ghost s: seq<byte>) returns (n: nat)
    requires StringAt(mem[..], p, s)
    ensures n == |s|
  {
    n := 0;
    while mem[p + n] != NUL
      invariant n <= |s|
      decreases |s| - n
    {
      n := n + 1;
    }
  }

  /** `strlcpy`: copies as much of the string as fits in `size` bytes with its null. */
  method Strlcpy(mem: array<byte>, dst: nat, src: nat, size: nat, ghost s: seq<byte>) returns (n: nat)
    requires StringAt(mem[..], src, s) && dst + size <= mem.Length
    requires dst + size <= src || src + |s| < dst
    modifies mem
    ensures n == |s| && ChangedWithin(old(mem[..]), mem[..], dst, dst + size)
    ensures size > 0 ==> StringAt(mem[..], dst, if |s| < size then s else s[..size - 1])
  {
    n := Strlen(mem, src, s);
    if size > 0 {
      var dstLen := if n < size - 1 then n else size - 1;
      for k := 0 to dstLen
        invariant ChangedWithin(old(mem[..]), mem[..], dst, dst + size)
        invariant forall i :: dst <= i < dst + k ==> mem[i] == s[i - dst] && mem[i] != NUL
        invariant StringAt(mem[..], src, s)
      {
        mem[dst + k] := mem[src + k];
      }
      mem[dst + dstLen] := NUL;
    }
  }

  /** Stores a pointer or an int. */
  method StoreWord(mem: array<byte>, p: nat, v: nat)
    requires p + 4 <= mem.Length && v < 0x1_0000_0000
    modifies mem
    ensures WordAt(mem[..], p, v) && ChangedWithin(old(mem[..]), mem[..], p, p + 4)
  {
    mem[p] := v % 256;
    mem[p + 1] := v / 256 % 256;
    mem[p + 2] := v / 65536 % 256;
    mem[p + 3] := v / 16777216 % 256;
    WordBytes(v);
  }

  lemma WordBytes(v: nat)
    requires v < 0x1_0000_0000
    ensures v % 256 + 256 * (v / 256 % 256 + 256 * (v / 65536 % 256 + 256 * (v / 16777216 % 256))) == v
  {
  }

  // ---------- The frame ----------

  /** `struct main_args`: return address, argc, argv. */
  const HEADER: nat := 12

  function LineSize(line: seq<byte>): (n: nat)
    ensures |line| + 1 <= n && n % 4 == 0 && n < |line| + 5
  {
    (|line| + 1 + 3) / 4 * 4
  }

  function FrameSize(line: seq<byte>): (n: nat)
    ensures n % 4 == 0
  {
    LineSize(line) + HEADER + 4 * (|Words(line, [SPACE])| + 1)
  }

  /** The frame `main` finds: return address, argc and argv at esp, then the argv array, and the words
      it points to in the room of the line below the stack's top. */
  ghost predicate MainFrame(m: seq<byte>, esp: nat, strings: nat, words: seq<seq<byte>>) {
    Header(m, esp, |words|) && Args(m, esp + HEADER, strings, words, |words|)
  }

  lemma AlignedDifference(a: int, b: int)
    requires a % 4 == 0 && b % 4 == 0
    ensures (a - b) % 4 == 0
  {
  }

  ghost predicate Header(m: seq<byte>, esp: nat, argc: nat) {
    WordAt(m, esp, 0) && WordAt(m, esp + 4, argc) && WordAt(m, esp + 8, esp + HEADER)
  }

  /** Slot j points to word j, which lies after the words before it. */
  ghost predicate Arg(m: seq<byte>, argv: nat, strings: nat, words: seq<seq<byte>>, j: nat)
    requires j < |words|
  {
    WordAt(m, argv + 4 * j, strings + Room(words[..j])) && StringAt(m, strings + Room(words[..j]), words[j])
  }

  /** The first n argv slots point to the first n words, one after the other. */
  ghost predicate Args(m: seq<byte>, argv: nat, strings: nat, words: seq<seq<byte>>, n: nat)
    requires n <= |words|
  {
    forall j :: 0 <= j < n ==> Arg(m, argv, strings, words, j)
  }

  lemma {:induction false} RoomMono(words: seq<seq<byte>>, i: nat, j: nat)
    requires i < j <= |words|
    ensures Room(words[..i]) + |words[i]| + 1 <= Room(words[..j])
  {
    assert words[..j][..j - 1] == words[..j - 1];
    if i < j - 1 { RoomMono(words, i, j - 1); }
  }

  lemma ArgKept(m: seq<byte>, m': seq<byte>, lo: nat, hi: nat, argv: nat, strings: nat, words: seq<seq<byte>>, j: nat)
    requires j < |words| && Arg(m, argv, strings, words, j) && ChangedWithin(m, m', lo, hi)
    requires hi <= argv || argv + 4 * (j + 1) <= lo
    requires hi <= strings || strings + Room(words[..j]) + |words[j]| + 1 <= lo
    ensures Arg(m', argv, strings, words, j)
  {
    WordKept(m, m', lo, hi, argv + 4 * j, strings + Room(words[..j]));
    StringKept(m, m', lo, hi, strings + Room(words[..j]), words[j]);
  }

  /** Changes clear of the slots and words set up so far leave them. */
  lemma ArgsKept(m: seq<byte>, m': seq<byte>, lo: nat, hi: nat, argv: nat, strings: nat, words: seq<seq<byte>>, n: nat)
    requires n <= |words| && Args(m, argv, strings, words, n) && ChangedWithin(m, m', lo, hi)
    requires hi <= argv || argv + 4 * n <= lo
    requires hi <= strings || strings + Room(words[..n]) <= lo
    ensures Args(m', argv, strings, words, n)
  {
    forall j | 0 <= j < n ensures Arg(m', argv, strings, words, j) {
      RoomMono(words, j, n);
      ArgKept(m, m', lo, hi, argv, strings, words, j);
    }
  }

  ghost predicate ChangedTwice(m: seq<byte>, m': seq<byte>, a: nat, n: nat, b: nat, k: nat) {
    |m'| == |m| && forall i :: 0 <= i < |m| && !(a <= i < a + n) && !(b <= i < b + k) ==> m'[i] == m[i]
  }

  /** One argument: the word copied to where the words are collected, and its slot. */
  method PlaceArg(mem: array<byte>, token: nat, i: nat, pos: nat, argv: nat, ghost strings: nat,
                  ghost words: seq<seq<byte>>)
    returns (size: nat)
    requires i < |words| && mem.Length <= 0x1_0000_0000
    requires StringAt(mem[..], token, words[i]) && Args(mem[..], argv, strings, words, i)
    requires pos == strings + Room(words[..i]) && argv + 4 * (i + 1) <= strings && pos + |words[i]| + 1 <= mem.Length
    requires token + |words[i]| < argv || pos + |words[i]| + 1 <= token
    modifies mem
    ensures size == |words[i]| + 1
    ensures Args(mem[..], argv, strings, words, i + 1)
    ensures ChangedTwice(old(mem[..]), mem[..], argv + 4 * i, 4, pos, size)
  {
    ghost var m0 := mem[..];
    var n := Strlen(mem, token, words[i]);
    size := n + 1;
    var _ := Strlcpy(mem, pos, token, size, words[i]);
    ghost var m1 := mem[..];
    StoreWord(mem, argv + 4 * i, pos);
    ArgPlaced(m0, m1, mem[..], i, pos, argv, strings, words);
  }

  lemma ArgPlaced(m0: seq<byte>, m1: seq<byte>, m2: seq<byte>, i: nat, pos: nat, argv: nat, strings: nat,
                  words: seq<seq<byte>>)
    requires i < |words| && Args(m0, argv, strings, words, i)
    requires pos == strings + Room(words[..i]) && argv + 4 * (i + 1) <= strings
    requires ChangedWithin(m0, m1, pos, pos + |words[i]| + 1) && StringAt(m1, pos, words[i])
    requires ChangedWithin(m1, m2, argv + 4 * i, argv + 4 * i + 4) && WordAt(m2, argv + 4 * i, pos)
    ensures Args(m2, argv, strings, words, i + 1)
  {
    ArgsKept(m0, m1, pos, pos + |words[i]| + 1, argv, strings, words, i);
    ArgsKept(m1, m2, argv + 4 * i, argv + 4 * i + 4, argv, strings, words, i);
    StringKept(m1, m2, argv + 4 * i, argv + 4 * i + 4, pos, words[i]);
    assert Arg(m2, argv, strings, words, i);
  }

  /** Nothing changes but the command line, the memory from lo to hi, and that from strings to top. */
  ghost predicate FrameOnly(m: seq<byte>, m': seq<byte>, commandLine: nat, line: seq<byte>, lo: nat, hi: nat,
                            strings: nat, top: nat) {
    && |m'| == |m|
    && forall k :: (0 <= k < |m| && !(commandLine <= k < commandLine + |line|)
                    && !(lo <= k < hi) && !(strings <= k < top))
         ==> m'[k] == m[k]
  }

  /** The state of the loop of `setup_main_stack` before argument i: the current token is the i-th word
      and the line that is left has the others. */
  ghost predicate AtToken(m: seq<byte>, commandLine: nat, line: seq<byte>, words: seq<seq<byte>>, i: nat,
                          token: Option<nat>, save: nat, rest: seq<byte>) {
    && i <= |words|
    && (token.None? <==> i == |words|)
    && (token.Some? ==>
          && commandLine <= token.value && StringAt(m, token.value, words[i]) && token.value + |words[i]| <= save
          && StringAt(m, save, rest) && save + |rest| == commandLine + |line|
          && Words(rest, [SPACE]) == words[i + 1..])
  }

  /** Builds the frame that `main` expects below `stackTop`. The slot after the last argument, at
      esp + HEADER + 4 * argc, is among the memory that is left alone. */
  method SetupMainStack(mem: array<byte>, commandLine: nat, stackTop: nat, ghost line: seq<byte>) returns (esp: nat)
    requires StringAt(mem[..], commandLine, line) && mem.Length <= 0x1_0000_0000
    requires stackTop <= mem.Length && stackTop % 4 == 0 && FrameSize(line) <= stackTop
    requires commandLine + |line| < stackTop - FrameSize(line) || stackTop <= commandLine
    modifies mem
    ensures esp == stackTop - FrameSize(line) && esp % 4 == 0
    ensures MainFrame(mem[..], esp, stackTop - LineSize(line), Words(line, [SPACE]))
    ensures Room(Words(line, [SPACE])) <= LineSize(line)
    ensures FrameOnly(old(mem[..]), mem[..], commandLine, line,
                      esp, esp + HEADER + 4 * |Words(line, [SPACE])|, stackTop - LineSize(line), stackTop)
  {
    WordsFit(line, [SPACE]);
    var lineSize := AlignedSize(mem, commandLine, line);
    var argc := CountArgs(mem, commandLine, [SPACE], line);
    esp := stackTop - (lineSize + HEADER + 4 * (argc + 1));
    BuildFrame(mem, commandLine, esp, argc, stackTop - lineSize, stackTop, line);
    AlignedDifference(stackTop, FrameSize(line));
  }

  /** The header and the arguments, once their place is known. */
  method BuildFrame(mem: array<byte>, commandLine: nat, esp: nat, argc: nat, strings: nat, stackTop: nat,
                    ghost line: seq<byte>)
    requires StringAt(mem[..], commandLine, line) && stackTop <= mem.Length <= 0x1_0000_0000
    requires argc == |Words(line, [SPACE])| && esp + HEADER + 4 * (argc + 1) <= strings
    requires strings + Room(Words(line, [SPACE])) <= stackTop
    requires commandLine + |line| < esp || stackTop <= commandLine
    modifies mem
    ensures MainFrame(mem[..], esp, strings, Words(line, [SPACE]))
    ensures FrameOnly(old(mem[..]), mem[..], commandLine, line, esp, esp + HEADER + 4 * argc, strings, stackTop)
  {
    ghost var m, words := mem[..], Words(line, [SPACE]);
    StoreHeader(mem, esp, argc, commandLine, line);
    ghost var m1 := mem[..];
    FillArgs(mem, commandLine, esp + HEADER, strings, stackTop, line);
    FrameDone(m, m1, mem[..], commandLine, line, esp, words, strings, stackTop);
  }

  /** The line's size with its null, rounded up to words. */
  method AlignedSize(mem: array<byte>, commandLine: nat, ghost line: seq<byte>) returns (lineSize: nat)
    requires StringAt(mem[..], commandLine, line)
    ensures lineSize == LineSize(line)
  {
    lineSize := Strlen(mem, commandLine, line);
    lineSize := lineSize + 1;
    var alignment := lineSize % 4;
    if alignment > 0 { alignment := 4 - alignment; }
    lineSize := lineSize + alignment;
  }

  lemma FrameDone(m: seq<byte>, m1: seq<byte>, m2: seq<byte>, commandLine: nat, line: seq<byte>, esp: nat,
                  words: seq<seq<byte>>, strings: nat, top: nat)
    requires ChangedWithin(m, m1, esp, esp + HEADER) && Header(m1, esp, |words|)
    requires FrameOnly(m1, m2, commandLine, line, esp + HEADER, esp + HEADER + 4 * |words|, strings, top)
    requires Args(m2, esp + HEADER, strings, words, |words|)
    requires esp + HEADER <= strings && (commandLine + |line| < esp || esp + HEADER <= commandLine)
    ensures FrameOnly(m, m2, commandLine, line, esp, esp + HEADER + 4 * |words|, strings, top)
    ensures MainFrame(m2, esp, strings, words)
  {
    assert forall k :: esp <= k < esp + HEADER && k < |m1| ==> m2[k] == m1[k];
  }

  method StoreHeader(mem: array<byte>, esp: nat, argc: nat, ghost commandLine: nat, ghost line: seq<byte>)
    requires esp + HEADER < mem.Length <= 0x1_0000_0000 && argc < mem.Length
    requires StringAt(mem[..], commandLine, line) && (commandLine + |line| < esp || esp + HEADER <= commandLine)
    modifies mem
    ensures Header(mem[..], esp, argc) && ChangedWithin(old(mem[..]), mem[..], esp, esp + HEADER)
    ensures StringAt(mem[..], commandLine, line)
  {
    ghost var m0 := mem[..];
    StoreWord(mem, esp, 0);
    ghost var m1 := mem[..];
    StoreWord(mem, esp + 4, argc);
    WordKept(m1, mem[..], esp + 4, esp + 8, esp, 0);
    ghost var m2 := mem[..];
    StoreWord(mem, esp + 8, esp + HEADER);
    WordKept(m2, mem[..], esp + 8, esp + 12, esp, 0);
    WordKept(m2, mem[..], esp + 8, esp + 12, esp + 4, argc);
    StringKept(m0, mem[..], esp, esp + HEADER, commandLine, line);
  }

  /** The loop over the tokens. */
  method FillArgs(mem: array<byte>, commandLine: nat, argv: nat, strings: nat, stackTop: nat, ghost line: seq<byte>)
    requires StringAt(mem[..], commandLine, line) && stackTop <= mem.Length <= 0x1_0000_0000
    requires argv + 4 * (|Words(line, [SPACE])| + 1) <= strings && strings + Room(Words(line, [SPACE])) <= stackTop
    requires commandLine + |line| < argv || stackTop <= commandLine
    modifies mem
    ensures Args(mem[..], argv, strings, Words(line, [SPACE]), |Words(line, [SPACE])|)
    ensures FrameOnly(old(mem[..]), mem[..], commandLine, line,
                      argv, argv + 4 * |Words(line, [SPACE])|, strings, stackTop)
  {
    ghost var words := Words(line, [SPACE]);
    var i, pos := 0, strings;
    var token, save, rest := Strtok(mem, commandLine, [SPACE], line);
    while token.Some?
      invariant AtToken(mem[..], commandLine, line, words, i, token, save, rest)
      invariant pos == strings + Room(words[..i])
      invariant Args(mem[..], argv, strings, words, i)
      invariant FrameOnly(old(mem[..]), mem[..], commandLine, line, argv, argv + 4 * |words|, strings, stackTop)
      decreases |words| - i
    {
      RoomWithin(words, i);
      ghost var m, rest0 := mem[..], rest;
      var at, size := save, 0;
      size, token, save, rest := FillArg(mem, token.value, at, i, pos, argv, strings, words, rest0);
      FrameKept(old(mem[..]), m, mem[..], commandLine, line,
                argv, |words|, strings, stackTop, i, pos, size, at, |rest0|);
      pos := pos + size;
      i := i + 1;
    }
  }

  /** One turn of the loop: argument i is placed, and the next token is cut off what is left. */
  method FillArg(mem: array<byte>, token: nat, save: nat, i: nat, pos: nat, argv: nat,
                 ghost strings: nat, ghost words: seq<seq<byte>>, ghost rest: seq<byte>)
    returns (size: nat, token': Option<nat>, save': nat, ghost rest': seq<byte>)
    requires i < |words| && mem.Length <= 0x1_0000_0000 && Args(mem[..], argv, strings, words, i)
    requires StringAt(mem[..], token, words[i]) && token + |words[i]| <= save && StringAt(mem[..], save, rest)
    requires pos == strings + Room(words[..i]) && argv + 4 * (i + 1) <= strings
    requires pos + |words[i]| + 1 <= mem.Length && Room(words[..i + 1]) == Room(words[..i]) + |words[i]| + 1
    requires save + |rest| < argv || pos + |words[i]| + 1 <= token
    modifies mem
    ensures size == |words[i]| + 1 && Args(mem[..], argv, strings, words, i + 1)
    ensures Words(rest, [SPACE]) == [] <==> token'.None?
    ensures token'.Some? ==> TokenResult(mem[..], save, rest, [SPACE], token'.value, save', rest')
    ensures ChangedThrice(old(mem[..]), mem[..], argv + 4 * i, 4, pos, size, save, |rest|)
  {
    ghost var m0 := mem[..];
    size := PlaceArg(mem, token, i, pos, argv, strings, words);
    ghost var m1 := mem[..];
    RestKept(m0, m1, save, rest, argv + 4 * i, 4, pos, size);
    token', save', rest' := Strtok(mem, save, [SPACE], rest);
    ArgsKept(m1, mem[..], save, save + |rest|, argv, strings, words, i + 1);
  }

  ghost predicate ChangedThrice(m: seq<byte>, m': seq<byte>, a: nat, n: nat, b: nat, k: nat, c: nat, l: nat) {
    && |m'| == |m|
    && forall i :: (0 <= i < |m| && !(a <= i < a + n) && !(b <= i < b + k) && !(c <= i < c + l)) ==> m'[i] == m[i]
  }

  lemma FrameKept(m: seq<byte>, m0: seq<byte>, m2: seq<byte>, commandLine: nat, line: seq<byte>,
                  argv: nat, argc: nat, strings: nat, top: nat, i: nat, pos: nat, size: nat, at: nat, left: nat)
    requires FrameOnly(m, m0, commandLine, line, argv, argv + 4 * argc, strings, top)
    requires ChangedThrice(m0, m2, argv + 4 * i, 4, pos, size, at, left)
    requires i < argc && strings <= pos && pos + size <= top && commandLine <= at && at + left <= commandLine + |line|
    ensures FrameOnly(m, m2, commandLine, line, argv, argv + 4 * argc, strings, top)
  {
  }

  lemma RoomWithin(words: seq<seq<byte>>, i: nat)
    requires i < |words|
    ensures Room(words[..i + 1]) == Room(words[..i]) + |words[i]| + 1 <= Room(words)
  {
    assert words[..i + 1][..i] == words[..i];
    RoomMono(words, i, |words|);
    assert words[..|words|] == words;
  }

  lemma RestKept(m: seq<byte>, m': seq<byte>, save: nat, rest: seq<byte>, a: nat, n: nat, b: nat, k: nat)
    requires StringAt(m, save, rest) && ChangedTwice(m, m', a, n, b, k)
    requires save + |rest| < a || a + n <= save
    requires save + |rest| < b || b + k <= save
    ensures StringAt(m', save, rest)
  {
  }
}
