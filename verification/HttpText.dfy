/** Text as the HTTP coder reads and writes it: decimal numbers, stream extraction, lines. */
module HttpText {
  import opened Wrappers
  import opened S = SyncConnection

  const CRLF: string := "\r\n"
  const CRLF2: string := "\r\n\r\n"

  // ---- decimal numbers ----

  predicate IsDigit(c: char) {
    '0' <= c <= '9'
  }

  function DigitOf(n: nat): char
    requires n < 10
  {
    ("0123456789")[n]
  }

  function ValueOf(c: char): nat
    requires IsDigit(c)
  {
    c as int - '0' as int
  }

  /** A natural number as `operator<<` prints it. */
  function Decimal(n: nat): (s: string)
    ensures s != [] && forall i :: 0 <= i < |s| ==> IsDigit(s[i])
  {
    if n < 10 then [DigitOf(n)] else Decimal(n / 10) + [DigitOf(n % 10)]
  }

  function Number(s: string): nat
    requires forall i :: 0 <= i < |s| ==> IsDigit(s[i])
  {
    if s == [] then 0 else 10 * Number(s[..|s| - 1]) + ValueOf(s[|s| - 1])
  }

  lemma {:induction false} DecimalRoundTrip(n: nat)
    ensures Number(Decimal(n)) == n
  {
    if n < 10 {
      assert Number([]) == 0;
    } else {
      DecimalRoundTrip(n / 10);
      var s := Decimal(n);
      assert s[..|s| - 1] == Decimal(n / 10) && s[|s| - 1] == DigitOf(n % 10);
    }
  }

  /** A signed number as printed. */
  function Printed(n: int): string {
    if n < 0 then ['-'] + Decimal(-n) else Decimal(n)
  }

  // ---- stream extraction ----

  predicate IsSpace(c: char) {
    c == ' ' || c == '\t' || c == '\n' || c == '\r' || c == '\U{000B}' || c == '\U{000C}'
  }

  /** White space by code: horizontal tab to carriage return, and the space. */
  lemma SpaceCodes(c: char)
    ensures IsSpace(c) <==> 9 <= c as int <= 13 || c as int == 32
  {
  }

  function SkipSpace(s: string): (rest: string)
    ensures |rest| <= |s| && (rest != [] ==> !IsSpace(rest[0]))
  {
    if s != [] && IsSpace(s[0]) then SkipSpace(s[1..]) else s
  }

  /** The characters before the first space. */
  function Word(s: string): (w: string)
    ensures w <= s && forall i :: 0 <= i < |w| ==> !IsSpace(w[i])
  {
    if s == [] || IsSpace(s[0]) then []
    else
      var w := Word(s[1..]);
      assert [s[0]] + w <= s by { assert s == [s[0]] + s[1..]; }
      [s[0]] + w
  }

  function Digits(s: string): (d: string)
    ensures d <= s && forall i :: 0 <= i < |d| ==> IsDigit(d[i])
  {
    if s == [] || !IsDigit(s[0]) then []
    else
      var d := Digits(s[1..]);
      assert [s[0]] + d <= s by { assert s == [s[0]] + s[1..]; }
      [s[0]] + d
  }

  /** Extraction state: what is left, and whether an extraction has failed; then nothing more is read. */
  datatype Stream = Stream(rest: string, good: bool)

  /** `>> string`: without a word the target keeps its value. */
  function ExtractWord(s: Stream, before: string): (string, Stream) {
    var t := SkipSpace(s.rest);
    if !s.good then (before, s)
    else if t == [] then (before, Stream([], false))
    else (Word(t), Stream(t[|Word(t)|..], true))
  }

  const INT_MAX: int := 0x7fff_ffff
  const INT_MIN: int := -0x8000_0000

  /** `>> int`: nothing left keeps the value, no digits give 0, too many give the nearest limit; all
      three fail the stream. */
  function ExtractInt(s: Stream, before: int): (int, Stream) {
    var t := SkipSpace(s.rest);
    if !s.good then (before, s)
    else if t == [] then (before, Stream([], false))
    else if t[0] == '-' then ReadDigits(t[1..], true)
    else if t[0] == '+' then ReadDigits(t[1..], false)
    else ReadDigits(t, false)
  }

  function ReadDigits(u: string, negative: bool): (int, Stream) {
    var d := Digits(u);
    var magnitude: int := Number(d);
    var v := if negative then -magnitude else magnitude;
    if d == [] then (0, Stream(u, false))
    else if v > INT_MAX then (INT_MAX, Stream(u[|d|..], false))
    else if v < INT_MIN then (INT_MIN, Stream(u[|d|..], false))
    else (v, Stream(u[|d|..], true))
  }

  const SIZE_MODULUS: nat := 0x1_0000_0000_0000_0000

  /** stoul: None where it throws, a negative number wraps around. */
  function Stoul(s: string): Option<nat> {
    var t := SkipSpace(s);
    if t == [] then None
    else if t[0] == '-' then SizeOf(Digits(t[1..]), true)
    else if t[0] == '+' then SizeOf(Digits(t[1..]), false)
    else SizeOf(Digits(t), false)
  }

  function SizeOf(d: string, negative: bool): Option<nat>
    requires forall i :: 0 <= i < |d| ==> IsDigit(d[i])
  {
    var n := Number(d);
    if d == [] || n >= SIZE_MODULUS then None
    else if negative && n > 0 then Some(SIZE_MODULUS - n)
    else Some(n)
  }

  lemma StoulOfDecimal(n: nat)
    requires n < SIZE_MODULUS
    ensures Stoul(Decimal(n)) == Some(n)
  {
    DecimalRoundTrip(n);
    DigitsOf(Decimal(n), []);
    assert Decimal(n) + [] == Decimal(n);
  }

  /** A non-empty text without a space. */
  predicate IsToken(s: string) {
    s != [] && forall i :: 0 <= i < |s| ==> !IsSpace(s[i])
  }

  lemma {:induction false} WordOfToken(w: string, rest: string)
    requires (forall i :: 0 <= i < |w| ==> !IsSpace(w[i])) && (rest == [] || IsSpace(rest[0]))
    ensures Word(w + rest) == w
  {
    if w == [] {
      assert w + rest == rest;
    } else {
      assert (w + rest)[1..] == w[1..] + rest;
      WordOfToken(w[1..], rest);
    }
  }

  lemma {:induction false} DigitsOf(d: string, rest: string)
    requires (forall i :: 0 <= i < |d| ==> IsDigit(d[i])) && (rest == [] || !IsDigit(rest[0]))
    ensures Digits(d + rest) == d
  {
    if d == [] {
      assert d + rest == rest;
    } else {
      assert (d + rest)[1..] == d[1..] + rest;
      DigitsOf(d[1..], rest);
    }
  }

  /** Extracting a token leaves what comes after it. */
  lemma ExtractToken(w: string, rest: string, before: string)
    requires IsToken(w) && (rest == [] || IsSpace(rest[0]))
    ensures ExtractWord(Stream(w + rest, true), before) == (w, Stream(rest, true))
    ensures ExtractWord(Stream([' '] + (w + rest), true), before) == (w, Stream(rest, true))
  {
    WordOfToken(w, rest);
    assert (w + rest)[0] == w[0];
    assert SkipSpace(w + rest) == w + rest;
    SkipOne(w + rest);
    assert (w + rest)[|w|..] == rest;
  }

  lemma ReadBackDigits(n: int, rest: string)
    requires INT_MIN <= n <= INT_MAX && (rest == [] || !IsDigit(rest[0]))
    ensures ReadDigits(Decimal(if n < 0 then -n else n) + rest, n < 0) == (n, Stream(rest, true))
  {
    var d := Decimal(if n < 0 then -n else n);
    DecimalRoundTrip(if n < 0 then -n else n);
    DigitsOf(d, rest);
    assert (d + rest)[|d|..] == rest;
  }

  lemma SkipOne(t: string)
    requires t != [] && !IsSpace(t[0])
    ensures SkipSpace([' '] + t) == t
  {
    assert ([' '] + t)[1..] == t;
  }

  /** Extracting a printed int behind a space gives it back, up to what cannot belong to it. */
  lemma ExtractPrinted(n: int, rest: string, before: int)
    requires INT_MIN <= n <= INT_MAX && (rest == [] || !IsDigit(rest[0]))
    ensures ExtractInt(Stream([' '] + (Printed(n) + rest), true), before) == (n, Stream(rest, true))
  {
    ReadBackDigits(n, rest);
    if n < 0 {
      var d := Decimal(-n);
      SignRead(d + rest, before);
      SignInFront(d, rest);
    } else {
      NoSignRead(Decimal(n), rest, before);
    }
  }

  lemma SignInFront(d: string, rest: string)
    ensures ['-'] + d + rest == ['-'] + (d + rest)
  {
  }

  lemma SignRead(u: string, before: int)
    ensures ExtractInt(Stream([' '] + (['-'] + u), true), before) == ReadDigits(u, true)
  {
    var t := ['-'] + u;
    SkipOne(t);
    assert t[1..] == u;
  }

  lemma NoSignRead(d: string, rest: string, before: int)
    requires d != [] && IsDigit(d[0])
    ensures ExtractInt(Stream([' '] + (d + rest), true), before) == ReadDigits(d + rest, false)
  {
    assert (d + rest)[0] == d[0];
    SkipOne(d + rest);
  }

  lemma {:induction false} SkipSpaces(spaces: string, t: string)
    requires (forall i :: 0 <= i < |spaces| ==> IsSpace(spaces[i])) && (t == [] || !IsSpace(t[0]))
    ensures SkipSpace(spaces + t) == t
  {
    if spaces == [] {
      assert spaces + t == t;
    } else {
      assert (spaces + t)[1..] == spaces[1..] + t;
      SkipSpaces(spaces[1..], t);
    }
  }

  /** A text as stoul looks at it: white space, perhaps a sign, digits, and what cannot belong to them. */
  ghost predicate ReadsAs(s: string, spaces: string, sign: string, digits: string, rest: string) {
    && s == spaces + (sign + (digits + rest))
    && (forall i :: 0 <= i < |spaces| ==> IsSpace(spaces[i]))
    && (sign == [] || sign == ['-'] || sign == ['+'])
    && (forall i :: 0 <= i < |digits| ==> IsDigit(digits[i]))
    && (rest == [] || !IsDigit(rest[0]))
    && (sign == [] && digits == [] && rest != [] ==> !IsSpace(rest[0]) && rest[0] != '-' && rest[0] != '+')
  }

  /** stoul throws if and only if there are no digits or too many; otherwise it gives their number, which
      a minus sign takes off 2^64. */
  lemma StoulReads(s: string, spaces: string, sign: string, digits: string, rest: string)
    requires ReadsAs(s, spaces, sign, digits, rest)
    ensures Stoul(s).None? <==> digits == [] || Number(digits) >= 0x1_0000_0000_0000_0000
    ensures Stoul(s).Some? ==>
              Stoul(s).value == if sign == ['-'] && Number(digits) > 0 then 0x1_0000_0000_0000_0000 - Number(digits)
                                else Number(digits)
  {
    var t := sign + (digits + rest);
    DigitsOf(digits, rest);
    SignFirst(sign, digits, rest);
    SkipSpaces(spaces, t);
    if sign != [] {
      assert SkipSpace(t) == t;
    }
  }

  lemma SignFirst(sign: string, digits: string, rest: string)
    requires sign == [] || sign == ['-'] || sign == ['+']
    requires forall i :: 0 <= i < |digits| ==> IsDigit(digits[i])
    requires sign == [] && digits == [] && rest != [] ==> !IsSpace(rest[0]) && rest[0] != '-' && rest[0] != '+'
    ensures var t := sign + (digits + rest);
            && (t == [] || !IsSpace(t[0]))
            && (sign == [] ==> t == digits + rest && (t == [] || (t[0] != '-' && t[0] != '+')))
            && (sign != [] ==> t != [] && t[0] == sign[0] && t[1..] == digits + rest)
  {
    var u := digits + rest;
    if sign == [] {
      assert sign + u == u;
      assert u != [] ==> u[0] == if digits != [] then digits[0] else rest[0];
    }
  }

  // ---- lines ----

  predicate NoBreak(s: string) {
    forall i :: 0 <= i < |s| ==> s[i] != '\r' && s[i] != '\n'
  }

  /** The part before the first line feed. */
  function LineEnd(s: string): (n: nat)
    ensures n <= |s| && (n < |s| ==> s[n] == '\n') && forall i :: 0 <= i < n ==> s[i] != '\n'
  {
    if s == [] || s[0] == '\n' then 0 else 1 + LineEnd(s[1..])
  }

  /** What getline leaves for the next call; the caller has checked that something is left. */
  function AfterLine(s: string): (rest: string)
    requires s != []
    ensures |rest| < |s|
  {
    var n := LineEnd(s);
    if n < |s| then s[n + 1..] else []
  }

  /** A line without the carriage return that ended it. */
  function Chomp(line: string): string {
    if line != [] && line[|line| - 1] == '\r' then line[..|line| - 1] else line
  }

  function FirstLine(s: string): string {
    Chomp(s[..LineEnd(s)])
  }

  /** Lines joined by CRLF, the last one without. */
  function Joined(lines: seq<string>): string {
    if lines == [] then []
    else if |lines| == 1 then lines[0]
    else lines[0] + CRLF + Joined(lines[1..])
  }

  ghost predicate CleanLines(lines: seq<string>) {
    forall i :: 0 <= i < |lines| ==> lines[i] != [] && NoBreak(lines[i])
  }

  lemma LineEndIs(s: string, n: nat)
    requires n <= |s| && (n < |s| ==> s[n] == '\n') && forall i :: 0 <= i < n ==> s[i] != '\n'
    ensures LineEnd(s) == n
  {
  }

  /** Reading joined lines gives the first line and leaves the rest joined. */
  lemma FirstOfJoined(lines: seq<string>)
    requires CleanLines(lines) && lines != []
    ensures Joined(lines) != []
    ensures FirstLine(Joined(lines)) == lines[0] && AfterLine(Joined(lines)) == Joined(lines[1..])
  {
    var s := Joined(lines);
    var line := lines[0];
    if |lines| == 1 {
      LineEndIs(s, |s|);
      assert s[..|s|] == s && lines[1..] == [];
    } else {
      assert s == line + CRLF + Joined(lines[1..]);
      LineEndIs(s, |line| + 1);
      assert s[..|line| + 1] == line + "\r";
      assert s[|line| + 2..] == Joined(lines[1..]);
    }
  }

  /** Lines as getline finds them: each ended by a line feed but the last. */
  function Fed(lines: seq<string>): string {
    if lines == [] then [] else if |lines| == 1 then lines[0] else lines[0] + ['\n'] + Fed(lines[1..])
  }

  lemma FirstOfFed(lines: seq<string>)
    requires lines != [] && (forall i :: 0 <= i < |lines[0]| ==> lines[0][i] != '\n') && Fed(lines) != []
    ensures FirstLine(Fed(lines)) == Chomp(lines[0]) && AfterLine(Fed(lines)) == Fed(lines[1..])
  {
    var s, line := Fed(lines), lines[0];
    if |lines| == 1 {
      LineEndIs(s, |line|);
      assert s[..|line|] == line;
    } else {
      LineEndIs(s, |line|);
      assert s[..|line|] == line && s[|line| + 1..] == Fed(lines[1..]);
    }
  }

  /** Joined lines followed by an empty line: that is where the first CRLFCRLF is, whatever follows. */
  lemma {:induction false} HeadEnds(lines: seq<string>, behind: string)
    requires CleanLines(lines) && lines != []
    ensures forall i :: 0 <= i < |Joined(lines)| ==> !Occurs(Joined(lines) + CRLF2 + behind, CRLF2, i)
    decreases |lines|
  {
    var s := Joined(lines) + CRLF2 + behind;
    var line := lines[0];
    if |lines| > 1 {
      var t := Joined(lines[1..]) + CRLF2 + behind;
      HeadEnds(lines[1..], behind);
      assert s == line + CRLF + t;
      assert t[0] == lines[1][0] by {
        assert lines[1..][0] == lines[1] && Joined(lines[1..])[0] == lines[1][0];
      }
      forall i | 0 <= i < |Joined(lines)| ensures !Occurs(s, CRLF2, i) {
        NotEarlier(line, t, s, i);
      }
    } else {
      forall i | 0 <= i < |line| ensures !Occurs(s, CRLF2, i) {
        assert s[i] == line[i];
        assert i + 4 <= |s| && s[i..i + 4][0] == s[i];
      }
    }
  }

  lemma NotEarlier(line: string, t: string, s: string, i: nat)
    requires s == line + CRLF + t && NoBreak(line) && t != [] && t[0] != '\r' && i < |s|
    requires i >= |line| + 2 ==> !Occurs(t, CRLF2, i - |line| - 2)
    ensures !Occurs(s, CRLF2, i)
  {
    if i + 4 <= |s| {
      var w := s[i..i + 4];
      assert w[0] == s[i] && w[2] == s[i + 2];
      if i >= |line| + 2 {
        var j := i - |line| - 2;
        assert w == t[j..j + 4];
      }
    }
  }
}
