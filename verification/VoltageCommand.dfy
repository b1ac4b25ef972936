/**
 The text of a command: `extract_and_convert` on a NUL-terminated buffer, in place.
 Characters are bytes, as in the firmware.
 */
module VoltageCommand {
  import opened Bytes
  import opened Moves

  const NUL: byte := 0
  const COLON: byte := 58
  const SEMICOLON: byte := 59
  const CR: byte := 13
  const LF: byte := 10
  const PLUS: byte := 43
  const MINUS: byte := 45

  predicate IsSpace(c: byte) {
    c == 32 || 9 <= c <= 13
  }

  predicate IsDigit(c: byte) {
    48 <= c <= 57
  }

  // ---------------------------------------------------------------------------
  // What the text means
  // ---------------------------------------------------------------------------

  /** From `i` on the text is ended by a NUL inside the buffer. */
  ghost predicate Terminated(s: seq<byte>, i: nat) {
    exists k :: i <= k < |s| && s[k] == NUL
  }

  /** Where `strchr(s + i, c)` stops: at the first `c` or NUL. */
  ghost function Scan(s: seq<byte>, i: nat, c: byte): (k: nat)
    requires Terminated(s, i)
    ensures i <= k < |s| && (s[k] == c || s[k] == NUL)
    ensures forall j :: i <= j < k ==> s[j] != c && s[j] != NUL
    decreases |s| - i
  {
    if s[i] == c || s[i] == NUL then i else Scan(s, i + 1, c)
  }

  /** The end of the number: the first semicolon, or else carriage return, or else line feed, or else NUL. */
  ghost function EndOf(s: seq<byte>, start: nat): (k: nat)
    requires Terminated(s, start)
    ensures start <= k < |s| && Terminated(s, k)
    ensures forall j :: start <= j < k ==> s[j] != NUL
  {
    var semicolon := Scan(s, start, SEMICOLON);
    var cr := Scan(s, start, CR);
    if s[semicolon] == SEMICOLON then semicolon
    else if s[cr] == CR then cr
    else Scan(s, start, LF)
  }

  /** The decimal digits of the text at `i`, behind those that made `value`. */
  ghost function Digits(s: seq<byte>, i: nat, value: int): (n: int)
    requires Terminated(s, i)
    ensures value >= 0 ==> n >= 0
    decreases |s| - i
  {
    if IsDigit(s[i]) then Digits(s, i + 1, 10 * value + (s[i] - 48)) else value
  }

  /** `atoi` on the text at `i`: the number there, in the 16 bits of an `int`. */
  ghost function Atoi(s: seq<byte>, i: nat): int
    requires Terminated(s, i)
    decreases |s| - i
  {
    if IsSpace(s[i]) then Atoi(s, i + 1)
    else if s[i] == MINUS then ToInt16(-Digits(s, i + 1, 0))
    else if s[i] == PLUS then ToInt16(Digits(s, i + 1, 0))
    else ToInt16(Digits(s, i, 0))
  }

  /** The number in a command line: what follows the first colon, up to its end; 0 without a colon. */
  ghost function ValueOf(s: seq<byte>): int
    requires Terminated(s, 0)
  {
    var colon := Scan(s, 0, COLON);
    if s[colon] != COLON then 0
    else
      var end := EndOf(s, colon + 1);
      assert s[end := NUL][end] == NUL;
      Atoi(s[end := NUL], colon + 1)
  }

  predicate IsVoltageCommand(s: seq<byte>)
    requires |s| > 8
  {
    s[0] == 115 && s[4] == 80 && s[5] == 79 && s[8] == 86  // 's', 'P', 'O', 'V'
  }

  predicate IsStatusQuery(s: seq<byte>)
    requires |s| > 8
  {
    s[0] == 103 && s[4] == 83 && s[5] == 84  // 'g', 'S', 'T'
  }

  // ---------------------------------------------------------------------------
  // The code
  // ---------------------------------------------------------------------------

  method StrChr(s: array<byte>, i: nat, c: byte) returns (found: bool, k: nat)
    requires Terminated(s[..], i)
    ensures k == Scan(s[..], i, c) && found == (s[k] == c)
  {
    k := i;
    while s[k] != c && s[k] != NUL
      invariant i <= k < s.Length && Terminated(s[..], k)
      invariant Scan(s[..], i, c) == Scan(s[..], k, c)
      decreases s.Length - k
    {
      k := k + 1;
    }
    found := s[k] == c;
  }

  /** A number and its low 16 bits are the same 16-bit number, negated or not. */
  lemma SameInt16(m: int, w: word)
    requires m >= 0 && w == m % 0x1_0000
    ensures ToInt16(m) == ToInt16(w) && ToInt16(-m) == ToInt16(-(w as int))
  {
    assert w == m - 0x1_0000 * (m / 0x1_0000);
    MultipleOfWordDropsOut(-m, m / 0x1_0000);
  }

  method ConvertAt(s: array<byte>, i: nat) returns (value: int)
    requires Terminated(s[..], i)
    ensures value == Atoi(s[..], i)
  {
    var k := i;
    while IsSpace(s[k])
      invariant i <= k < s.Length && Terminated(s[..], k)
      invariant Atoi(s[..], i) == Atoi(s[..], k)
      decreases s.Length - k
    {
      k := k + 1;
    }
    var negative := s[k] == MINUS;
    if negative || s[k] == PLUS {
      k := k + 1;
    }
    var magnitude := ConvertDigits(s, k);
    value := ToInt16(if negative then -(magnitude as int) else magnitude);
    SameInt16(Digits(s[..], k, 0), magnitude);
  }

  method ConvertDigits(s: array<byte>, first: nat) returns (magnitude: word)
    requires Terminated(s[..], first)
    ensures magnitude == Digits(s[..], first, 0) % 0x1_0000
  {
    var k := first;
    magnitude := 0;
    ghost var number: nat := 0;
    while IsDigit(s[k])
      invariant first <= k < s.Length && Terminated(s[..], k)
      invariant Digits(s[..], first, 0) == Digits(s[..], k, number)
      invariant magnitude == number % 0x1_0000
      decreases s.Length - k
    {
      number := ShiftedDigit(number, magnitude, s[k] - 48);
      magnitude := WithDigit(magnitude, s[k] - 48);
      k := k + 1;
    }
  }

  /** One more decimal digit, in 16 bits. */
  function WithDigit(value: word, digit: nat): word {
    (10 * (value as int) + digit) % 0x1_0000
  }

  lemma ShiftedDigit(number: nat, value: word, digit: nat) returns (next: nat)
    requires value == number % 0x1_0000
    ensures next == 10 * number + digit && WithDigit(value, digit) == next % 0x1_0000
  {
    next := 10 * number + digit;
    var k := number / 0x1_0000;
    assert number == value + 0x1_0000 * k;
    MultipleOfWordDropsOut(10 * (value as int) + digit, 10 * k);
  }

  method FindEnd(s: array<byte>, start: nat) returns (end: nat)
    requires Terminated(s[..], start)
    ensures end == EndOf(s[..], start)
  {
    var found;
    found, end := StrChr(s, start, SEMICOLON);
    if !found {
      found, end := StrChr(s, start, CR);
      if !found {
        found, end := StrChr(s, start, LF);
        if !found {
          found, end := StrChr(s, start, NUL);
          ScanPastNothing(s[..], start, LF);
        }
      }
    }
  }

  method ExtractAndConvert(s: array<byte>) returns (value: int)
    requires Terminated(s[..], 0)
    modifies s
    ensures s[..] == old(s[..])
    ensures value == ValueOf(old(s[..]))
  {
    ghost var text := s[..];
    var found, colon := StrChr(s, 0, COLON);
    if !found {
      return 0;
    }
    var start := colon + 1;
    var end := FindEnd(s, start);
    var saved := s[end];
    s[end] := NUL;
    assert s[..] == text[end := NUL] && s[..][end] == NUL;
    value := ConvertAt(s, start);
    s[end] := saved;
    assert s[..] == text;
  }

  /** Where a character is missing, looking for it stops where the text ends. */
  lemma {:induction false} ScanPastNothing(s: seq<byte>, i: nat, c: byte)
    requires Terminated(s, i) && s[Scan(s, i, c)] == NUL
    ensures Scan(s, i, c) == Scan(s, i, NUL)
    decreases |s| - i
  {
    if s[i] != c && s[i] != NUL {
      ScanPastNothing(s, i + 1, c);
    }
  }

  // ---------------------------------------------------------------------------
  // What texts mean
  // ---------------------------------------------------------------------------

  /** What the comparisons see of a text. */
  lemma ComparedCharacters(s: seq<byte>)
    requires |s| > 8
    ensures IsStatusQuery(s) <==> s[0] == Code('g') && s[4] == Code('S') && s[5] == Code('T')
    ensures IsVoltageCommand(s) <==>
      s[0] == Code('s') && s[4] == Code('P') && s[5] == Code('O') && s[8] == Code('V')
  {
  }

  /** A text that starts with "get_ST" is a status query. */
  lemma StatusQueryText(s: seq<byte>)
    requires |s| > 8 && s[..6] == Ascii("get_ST")
    ensures IsStatusQuery(s) && !IsVoltageCommand(s)
  {
    var t := Ascii("get_ST");
    assert s[0] == t[0] && s[4] == t[4] && s[5] == t[5];
  }

  /** The text is ended by the NUL at `n`. */
  predicate EndsAt(s: seq<byte>, i: nat, n: nat) {
    i <= n < |s| && s[n] == 0 && forall j :: i <= j < n ==> s[j] != 0
  }

  /** `k` is the first place of the character within the text from `i` on. */
  predicate FirstAt(s: seq<byte>, i: nat, n: nat, c: char, k: nat) {
    i <= k < n < |s| && s[k] == Code(c) && forall j :: i <= j < k ==> s[j] != Code(c)
  }

  predicate Lacks(s: seq<byte>, i: nat, n: nat, c: char) {
    n <= |s| && forall j :: i <= j < n ==> s[j] != Code(c)
  }

  lemma ScanStops(s: seq<byte>, i: nat, n: nat, c: char)
    requires EndsAt(s, i, n) && Code(c) != 0
    ensures Terminated(s, i)
    ensures forall k :: FirstAt(s, i, n, c, k) ==> Scan(s, i, Code(c)) == k
    ensures Lacks(s, i, n, c) ==> Scan(s, i, Code(c)) == n
    ensures s[Scan(s, i, Code(c))] == Code(c) <==> !Lacks(s, i, n, c)
  {
    assert Terminated(s, i);
    var k := Scan(s, i, Code(c));
    assert k <= n;
    assert s[k] == Code(c) ==> k != n && FirstAt(s, i, n, c, k);
  }

  /** A semicolon ends the number wherever it stands; without one a carriage return does, and then a line feed. */
  lemma DelimiterPreference(s: seq<byte>, i: nat, n: nat, k: nat)
    requires EndsAt(s, i, n)
    ensures Terminated(s, i)
    ensures FirstAt(s, i, n, ';', k) ==> EndOf(s, i) == k
    ensures Lacks(s, i, n, ';') && FirstAt(s, i, n, '\r', k) ==> EndOf(s, i) == k
    ensures Lacks(s, i, n, ';') && Lacks(s, i, n, '\r') && FirstAt(s, i, n, '\n', k) ==> EndOf(s, i) == k
    ensures Lacks(s, i, n, ';') && Lacks(s, i, n, '\r') && Lacks(s, i, n, '\n') ==> EndOf(s, i) == n
  {
    ScanStops(s, i, n, ';');
    ScanStops(s, i, n, '\r');
    ScanStops(s, i, n, '\n');
  }

  /** A space, a tab, and the other characters up to the carriage return. */
  predicate IsBlank(c: byte) {
    c == Code(' ') || Code('\t') <= c <= Code('\r')
  }

  lemma {:induction false} BlanksAreSkipped(s: seq<byte>, i: nat, first: nat)
    requires i <= first && Terminated(s, first) && forall j :: i <= j < first ==> j < |s| && IsBlank(s[j])
    ensures Terminated(s, i) && Atoi(s, i) == Atoi(s, first)
    decreases first - i
  {
    if i < first {
      BlanksAreSkipped(s, i + 1, first);
    }
  }

  lemma NumberBehindSign(s: seq<byte>, first: nat, end: nat, sign: string, n: nat)
    requires first + |sign| <= end < |s| && sign in {"", "+", "-"}
    requires s[first..first + |sign|] == Ascii(sign) && s[first + |sign|..end] == Decimal(n)
    requires !(Code('0') <= s[end] <= Code('9')) && Terminated(s, end)
    ensures Terminated(s, first) && Atoi(s, first) == ToInt16(if sign == "-" then -(n as int) else n)
  {
    hide ToInt16;
    var digits := first + |sign|;
    assert end == digits + |Decimal(n)|;
    DigitsOfDecimal(s, digits, n);
    assert s[digits] == s[digits..end][0];
    assert Digits(s, digits, 0) == n;
    if sign != "" {
      assert s[first] == s[first..digits][0] == Code(sign[0]);
    }
  }

  /** What the number in a text is: blanks and a sign may stand before it, and anything but a digit behind it. */
  lemma NumberInText(s: seq<byte>, i: nat, first: nat, end: nat, sign: string, n: nat)
    requires i <= first <= first + |sign| <= end < |s| && sign in {"", "+", "-"}
    requires forall j :: i <= j < first ==> IsBlank(s[j])
    requires s[first..first + |sign|] == Ascii(sign) && s[first + |sign|..end] == Decimal(n)
    requires !(Code('0') <= s[end] <= Code('9')) && Terminated(s, end)
    ensures Terminated(s, i) && Atoi(s, i) == ToInt16(if sign == "-" then -(n as int) else n)
  {
    hide Atoi, ToInt16;
    NumberBehindSign(s, first, end, sign, n);
    BlanksAreSkipped(s, i, first);
  }

  // ---------------------------------------------------------------------------
  // Well-formed commands
  // ---------------------------------------------------------------------------

  /** "set_POE_VOLT:" */
  const PREFIX: seq<byte> := [115, 101, 116, 95, 80, 79, 69, 95, 86, 79, 76, 84, 58]

  function Decimal(n: nat): (s: seq<byte>)
    ensures s != [] && forall i :: 0 <= i < |s| ==> IsDigit(s[i])
  {
    if n < 10 then [48 + n] else Decimal(n / 10) + [48 + n % 10]
  }

  function SignedDecimal(n: int): seq<byte> {
    if n < 0 then [MINUS] + Decimal(-n) else Decimal(n)
  }

  function CommandLine(n: int, crlf: bool): seq<byte> {
    PREFIX + SignedDecimal(n) + [SEMICOLON] + (if crlf then [CR, LF] else [LF])
  }

  /** A command line as text. */
  lemma CommandLineText(n: int, digits: string)
    requires SignedDecimal(n) == Ascii(digits)
    ensures CommandLine(n, true) == Ascii("set_POE_VOLT:" + digits + ";\r\n")
    ensures CommandLine(n, false) == Ascii("set_POE_VOLT:" + digits + ";\n")
  {
    hide SignedDecimal;
    assert PREFIX == Ascii("set_POE_VOLT:");
    assert Ascii("set_POE_VOLT:" + digits + ";\r\n") == PREFIX + Ascii(digits) + [SEMICOLON, CR, LF];
    assert Ascii("set_POE_VOLT:" + digits + ";\n") == PREFIX + Ascii(digits) + [SEMICOLON, LF];
  }

  lemma TwoDigits(a: nat, b: nat)
    requires 0 < a < 10 && b < 10
    ensures Decimal(10 * a + b) == [Code('0') + a, Code('0') + b]
  {
    assert Decimal(a) == [48 + a];
  }

  /** The numbers of the five settings as text. */
  lemma SettingsText()
    ensures SignedDecimal(0) == Ascii("0") && SignedDecimal(24) == Ascii("24") && SignedDecimal(30) == Ascii("30")
    ensures SignedDecimal(48) == Ascii("48") && SignedDecimal(56) == Ascii("56") && SignedDecimal(-7) == Ascii("-7")
  {
    TwoDigits(2, 4);
    TwoDigits(3, 0);
    TwoDigits(4, 8);
    TwoDigits(5, 6);
  }

  /** Reading a number back digit by digit. */
  lemma {:induction false} DigitsOfDecimal(s: seq<byte>, i: nat, n: nat)
    requires Terminated(s, i) && i + |Decimal(n)| < |s| && s[i..i + |Decimal(n)|] == Decimal(n)
    ensures Terminated(s, i + |Decimal(n)|)
    ensures Digits(s, i, 0) == Digits(s, i + |Decimal(n)|, n)
  {
    var d := Decimal(n);
    assert forall k :: 0 <= k < |d| ==> s[i + k] == s[i..i + |d|][k] == d[k];
    if n >= 10 {
      var e := Decimal(n / 10);
      SliceOfSlice(s, i, i + |d|, 0, |e|);
      DigitsOfDecimal(s, i, n / 10);
      assert d[|e|] == 48 + n % 10 && s[i + |e|] == d[|e|];
      assert 10 * (n / 10) + n % 10 == n;
    }
  }

  lemma MagnitudeMeans(s: seq<byte>, first: nat, end: nat, n: nat)
    requires first <= end < |s| && s[first..end] == Decimal(n) && s[end] == NUL
    ensures Terminated(s, first) && IsDigit(s[first]) && Digits(s, first, 0) == n
  {
    assert s[first] == s[first..end][0];
    DigitsOfDecimal(s, first, n);
  }

  lemma NumberMeans(s: seq<byte>, start: nat, n: int)
    requires var number := SignedDecimal(n);
      start + |number| < |s| && s[start..start + |number|] == number && s[start + |number|] == NUL
    ensures Terminated(s, start) && Atoi(s, start) == ToInt16(n)
  {
    var end := start + |SignedDecimal(n)|;
    if n < 0 {
      assert s[start..end][0] == MINUS && s[start + 1..end] == s[start..end][1..] == Decimal(-n);
      MagnitudeMeans(s, start + 1, end, -n);
    } else {
      MagnitudeMeans(s, start, end, n);
    }
  }

  lemma ScanFinds(s: seq<byte>, i: nat, c: byte, k: nat)
    requires Terminated(s, i) && i <= k < |s| && s[k] == c
    requires forall j :: i <= j < k ==> s[j] != c && s[j] != NUL
    ensures Scan(s, i, c) == k
  {
    var found := Scan(s, i, c);
    assert !(found < k) && !(k < found);
  }

  lemma PrefixShape()
    ensures |PREFIX| == 13 && PREFIX[12] == COLON && IsVoltageCommand(PREFIX) && !IsStatusQuery(PREFIX)
    ensures forall j :: 0 <= j < 12 ==> PREFIX[j] != COLON && PREFIX[j] != NUL
  {
  }

  lemma LineShape(n: int, crlf: bool)
    ensures var line, end := CommandLine(n, crlf), |PREFIX| + |SignedDecimal(n)|;
      && end < |line|
      && line[..|PREFIX|] == PREFIX && line[|PREFIX|..end] == SignedDecimal(n) && line[end] == SEMICOLON
  {
    var rest := [SEMICOLON] + (if crlf then [CR, LF] else [LF]);
    assert CommandLine(n, crlf) == PREFIX + SignedDecimal(n) + rest;
  }

  /** Where the parts of a command line lie in a buffer that starts with it. */
  lemma LineInBuffer(s: seq<byte>, n: int, crlf: bool)
    requires var line := CommandLine(n, crlf); |line| < |s| && s[..|line|] == line
    ensures var start, number := |PREFIX|, SignedDecimal(n);
      && start + |number| < |s|
      && (forall k :: 0 <= k < start ==> s[k] == PREFIX[k])
      && s[start..start + |number|] == number && s[start + |number|] == SEMICOLON
  {
    var line, start, number := CommandLine(n, crlf), |PREFIX|, SignedDecimal(n);
    var end := start + |number|;
    LineShape(n, crlf);
    assert forall k :: 0 <= k < |line| ==> s[k] == s[..|line|][k];
    assert forall k :: 0 <= k < start ==> line[k] == line[..start][k];
    SliceOfSlice(s, 0, |line|, start, end);
  }

  /** The number in a buffer is what stands between the first colon and the first semicolon. */
  lemma NumberFound(s: seq<byte>, start: nat, end: nat, n: int)
    requires 0 < start <= end < |s| && s[start - 1] == COLON && s[end] == SEMICOLON
    requires forall k :: 0 <= k < start - 1 ==> s[k] != COLON && s[k] != NUL
    requires forall k :: start <= k < end ==> s[k] != SEMICOLON && s[k] != NUL
    requires Terminated(s, 0) && s[start..end] == SignedDecimal(n)
    ensures ValueOf(s) == ToInt16(n)
  {
    ScanFinds(s, 0, COLON, start - 1);
    var nul :| 0 <= nul < |s| && s[nul] == NUL;
    assert start <= nul && Terminated(s, start);
    ScanFinds(s, start, SEMICOLON, end);
    var t := s[end := NUL];
    assert t[start..end] == s[start..end];
    NumberMeans(t, start, n);
  }

  /** A buffer that starts with the command line for `n` and then a NUL is recognised and read as `n`, in 16 bits. */
  lemma CommandLineMeans(s: seq<byte>, n: int, crlf: bool)
    requires var line := CommandLine(n, crlf);
      |line| < |s| && s[..|line|] == line && s[|line|] == NUL
    ensures |s| > 8 && IsVoltageCommand(s) && !IsStatusQuery(s)
    ensures Terminated(s, 0) && ValueOf(s) == ToInt16(n)
  {
    var start, number := |PREFIX|, SignedDecimal(n);
    var end := start + |number|;
    PrefixShape();
    LineInBuffer(s, n, crlf);
    assert forall k :: start <= k < end ==> s[k] == s[start..end][k - start];
    NumberFound(s, start, end, n);
  }
}
