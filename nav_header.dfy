/** The leap-second scan of a RINEX 3 navigation file
    (`EphemerisManager.load_leapseconds`). A file is given as the sequence of
    all its lines, so a file without `END OF HEADER` is scanned into its
    records; opening and reading it is not modelled. */
module NavHeader {
  import opened Wrappers

  /** Header labels of the RINEX 3 navigation-file format. */
  const LEAP_SECONDS: string := "LEAP SECONDS"
  const END_OF_HEADER: string := "END OF HEADER"

  /** Python's `pat in line`. */
  predicate Contains(line: string, pat: string) {
    exists k | 0 <= k <= |line| - |pat| :: OccursAt(line, pat, k)
  }

  predicate OccursAt(line: string, pat: string, k: nat) {
    k + |pat| <= |line| && line[k..k + |pat|] == pat
  }

  /** The characters Python's `str.split()` treats as whitespace. */
  predicate IsSpace(c: char) {
    c == ' ' || ('\t' <= c <= '\r') || ('\U{1c}' <= c <= '\U{1f}')
    || c == '\U{85}' || c == '\U{a0}' || c == '\U{1680}'
    || ('\U{2000}' <= c <= '\U{200a}') || c == '\U{2028}' || c == '\U{2029}'
    || c == '\U{202f}' || c == '\U{205f}' || c == '\U{3000}'
  }

  /** `s` without its leading whitespace. */
  function TrimLeft(s: string): (r: string)
    ensures |r| <= |s| && r == s[|s| - |r|..]
    ensures r != [] ==> !IsSpace(r[0])
    ensures forall i | 0 <= i < |s| - |r| :: IsSpace(s[i])
  {
    if s != [] && IsSpace(s[0]) then TrimLeft(s[1..]) else s
  }

  /** The longest prefix of `s` without whitespace. */
  function Word(s: string): (r: string)
    ensures |r| <= |s| && r == s[..|r|]
    ensures forall i | 0 <= i < |r| :: !IsSpace(r[i])
    ensures |r| < |s| ==> IsSpace(s[|r|])
  {
    if s == [] || IsSpace(s[0]) then [] else [s[0]] + Word(s[1..])
  }

  /** `line.split()[0]`: the first whitespace-separated token; IndexError when
      the line is blank. */
  function FirstToken(line: string): Result<string> {
    var w := Word(TrimLeft(line));
    if w == [] then Failure(IndexError) else Success(w)
  }

  /** What `line.split()[0]` means: IndexError exactly on a blank line, and
      otherwise the first whitespace-delimited field of the line. */
  lemma FirstTokenIsField(line: string)
    ensures FirstToken(line).Failure? <==> forall i | 0 <= i < |line| :: IsSpace(line[i])
    ensures FirstToken(line).Failure? ==> FirstToken(line).error == IndexError
    ensures FirstToken(line).Success? ==> exists k | 0 <= k <= |line| :: FieldAt(line, FirstToken(line).value, k)
  {
    var t := TrimLeft(line);
    var k := |line| - |t|;
    if t != [] {
      assert line[k] == t[0];
      assert Word(t) != [];
      var w := Word(t);
      assert line[k..k + |w|] == t[..|w|];
      assert FieldAt(line, w, k);
    }
  }

  /** `w` is the first field of `line`, starting at column `k`: only
      whitespace before it, no whitespace in it, and whitespace or the end of
      the line after it. */
  predicate FieldAt(line: string, w: string, k: nat) {
    && w != []
    && k + |w| <= |line|
    && (forall i | 0 <= i < k :: IsSpace(line[i]))
    && line[k..k + |w|] == w
    && (forall i | 0 <= i < |w| :: !IsSpace(w[i]))
    && (k + |w| == |line| || IsSpace(line[k + |w|]))
  }

  predicate IsDigit(c: char) { '0' <= c <= '9' }

  predicate AllDigits(s: string) {
    |s| > 0 && forall i | 0 <= i < |s| :: IsDigit(s[i])
  }

  /** The value of a string of decimal digits. */
  function DigitsValue(s: string): nat
    requires forall i | 0 <= i < |s| :: IsDigit(s[i])
  {
    if s == [] then 0
    else DigitsValue(s[..|s| - 1]) * 10 + DigitValue(s[|s| - 1])
  }

  function DigitValue(c: char): nat
    requires IsDigit(c)
  {
    c as int - '0' as int
  }

  /** Python's `int(token)` on a token without whitespace: an optional sign
      and decimal digits, ValueError otherwise. */
  function ParseInt(token: string): (r: Result<int>)
    ensures r.Success? <==> AllDigits(token) || (|token| > 0 && (token[0] == '-' || token[0] == '+') && AllDigits(token[1..]))
    ensures r.Failure? ==> r.error == ValueError
    ensures r.Success? && r.value < 0 ==> token[0] == '-'
  {
    if |token| > 0 && (token[0] == '-' || token[0] == '+') then
      if AllDigits(token[1..]) then
        var magnitude: int := DigitsValue(token[1..]);
        Success(if token[0] == '-' then -magnitude else magnitude)
      else Failure(ValueError)
    else if AllDigits(token) then Success(DigitsValue(token))
    else Failure(ValueError)
  }

  /** `int(line.split()[0])`, wrapped as a found leap-second count. */
  function LeapField(line: string): Result<Option<int>> {
    match FirstToken(line)
    case Failure(e) => Failure(e)
    case Success(token) =>
      match ParseInt(token)
      case Failure(e) => Failure(e)
      case Success(n) => Success(Some(n))
  }

  /** What `load_leapseconds` returns for a file with these lines: the first
      line holding a label decides. */
  function HeaderLeapSeconds(lines: seq<string>): Result<Option<int>> {
    if lines == [] then Success(None)
    else if Contains(lines[0], LEAP_SECONDS) then LeapField(lines[0])
    else if Contains(lines[0], END_OF_HEADER) then Success(None)
    else HeaderLeapSeconds(lines[1..])
  }

  /** The line loop of `load_leapseconds`, with its two early returns. */
  method LoadLeapSeconds(lines: seq<string>) returns (r: Result<Option<int>>)
    ensures r == HeaderLeapSeconds(lines)
  {
    var i := 0;
    while i < |lines|
      invariant 0 <= i <= |lines|
      invariant HeaderLeapSeconds(lines[i..]) == HeaderLeapSeconds(lines)
    {
      var line := lines[i];
      if Contains(line, LEAP_SECONDS) {
        return LeapField(line);
      }
      if Contains(line, END_OF_HEADER) {
        return Success(None);
      }
      assert lines[i..][1..] == lines[i + 1..];
      i := i + 1;
    }
    return Success(None);
  }

  predicate Labelled(line: string) {
    Contains(line, LEAP_SECONDS) || Contains(line, END_OF_HEADER)
  }

  /** Index of the first line carrying either label, or |lines| if none does. */
  function FirstLabel(lines: seq<string>): (k: nat)
    ensures k <= |lines|
    ensures forall j | 0 <= j < k :: !Labelled(lines[j])
    ensures k < |lines| ==> Labelled(lines[k])
  {
    if lines == [] then 0
    else if Labelled(lines[0]) then 0
    else 1 + FirstLabel(lines[1..])
  }

  /** The scan's result in closed form: the leap-second field of the first
      labelled line if LEAP SECONDS is on it (so LEAP SECONDS wins over
      END OF HEADER on the same line); unknown if END OF HEADER comes first
      or no line is labelled. */
  lemma {:induction false} HeaderLeapSecondsAtFirstLabel(lines: seq<string>)
    ensures var k := FirstLabel(lines);
      HeaderLeapSeconds(lines) ==
        if k < |lines| && Contains(lines[k], LEAP_SECONDS) then LeapField(lines[k])
        else Success(None)
  {
    if lines != [] && !Labelled(lines[0]) {
      HeaderLeapSecondsAtFirstLabel(lines[1..]);
    }
  }

  /** Decimal rendering of an integer, as a RINEX writer prints it. */
  function Decimal(n: nat): (s: string)
    ensures AllDigits(s)
  {
    if n < 10 then ['0' + n as char]
    else Decimal(n / 10) + ['0' + (n % 10) as char]
  }

  function FormatInt(n: int): string {
    if n < 0 then "-" + Decimal(-n) else Decimal(n)
  }

  function Spaces(n: nat): (s: string)
    ensures |s| == n && forall i | 0 <= i < n :: s[i] == ' '
  {
    if n == 0 then [] else [' '] + Spaces(n - 1)
  }

  lemma {:induction false} DecimalValue(n: nat)
    ensures DigitsValue(Decimal(n)) == n
  {
    if n >= 10 {
      var s := Decimal(n);
      assert s[..|s| - 1] == Decimal(n / 10);
      DecimalValue(n / 10);
    }
  }

  /** Parsing a printed integer gives it back. */
  lemma ParseFormatInt(n: int)
    ensures ParseInt(FormatInt(n)) == Success(n)
  {
    if n < 0 {
      assert FormatInt(n)[1..] == Decimal(-n);
      DecimalValue(-n);
    } else {
      DecimalValue(n);
    }
  }

  lemma {:induction false} TrimSpaces(pad: nat, s: string)
    requires s != [] && !IsSpace(s[0])
    ensures TrimLeft(Spaces(pad) + s) == s
  {
    if pad > 0 {
      assert (Spaces(pad) + s)[1..] == Spaces(pad - 1) + s;
      TrimSpaces(pad - 1, s);
    }
  }

  lemma {:induction false} WordBeforeSpace(w: string, rest: string)
    requires forall i | 0 <= i < |w| :: !IsSpace(w[i])
    requires rest != [] && IsSpace(rest[0])
    ensures Word(w + rest) == w
  {
    if w != [] {
      assert (w + rest)[1..] == w[1..] + rest;
      WordBeforeSpace(w[1..], rest);
    }
  }

  /** A RINEX 3 LEAP SECONDS header line for `n` leap seconds: the count
      right-aligned in the first six columns, the label from column 61. */
  function LeapSecondsLine(n: int): string {
    var count := FormatInt(n);
    var pad := if |count| < 6 then 6 - |count| else 0;
    Spaces(pad) + count + Spaces(54) + LEAP_SECONDS + Spaces(8)
  }

  /** A line made of padding, a token and a tail that starts with whitespace
      has that token as its first field. */
  lemma FirstTokenOfField(pad: nat, token: string, tail: string)
    requires token != [] && forall i | 0 <= i < |token| :: !IsSpace(token[i])
    requires tail != [] && IsSpace(tail[0])
    ensures FirstToken(Spaces(pad) + token + tail) == Success(token)
  {
    assert Spaces(pad) + token + tail == Spaces(pad) + (token + tail);
    TrimSpaces(pad, token + tail);
    WordBeforeSpace(token, tail);
  }

  lemma LeapSecondsLineHasLabel(n: int)
    ensures Contains(LeapSecondsLine(n), LEAP_SECONDS)
  {
    var count := FormatInt(n);
    var pad := if |count| < 6 then 6 - |count| else 0;
    var head := Spaces(pad) + count + Spaces(54);
    assert LeapSecondsLine(n) == head + LEAP_SECONDS + Spaces(8);
    assert OccursAt(LeapSecondsLine(n), LEAP_SECONDS, |head|);
  }

  /** The line carries the label, and its leading field parses back to `n`. */
  lemma LeapSecondsLineParses(n: int)
    ensures Contains(LeapSecondsLine(n), LEAP_SECONDS)
    ensures LeapField(LeapSecondsLine(n)) == Success(Some(n))
  {
    LeapSecondsLineHasLabel(n);
    var count := FormatInt(n);
    var pad := if |count| < 6 then 6 - |count| else 0;
    var tail := Spaces(54) + LEAP_SECONDS + Spaces(8);
    assert LeapSecondsLine(n) == Spaces(pad) + count + tail;
    assert tail[0] == ' ';
    FirstTokenOfField(pad, count, tail);
    ParseFormatInt(n);
  }

  /** Round trip: a header whose first labelled line is a LEAP SECONDS line
      written for `n` yields `n`. */
  lemma LeapSecondsLineRoundTrip(preamble: seq<string>, n: int, rest: seq<string>)
    requires forall j | 0 <= j < |preamble| :: !Labelled(preamble[j])
    ensures HeaderLeapSeconds(preamble + [LeapSecondsLine(n)] + rest) == Success(Some(n))
  {
    var line := LeapSecondsLine(n);
    var lines := preamble + [line] + rest;
    LeapSecondsLineParses(n);
    assert lines == preamble + ([line] + rest);
    FirstLabelAfter(preamble, [line] + rest);
    HeaderLeapSecondsAtFirstLabel(lines);
    assert lines[|preamble|] == line;
  }

  lemma {:induction false} FirstLabelAfter(preamble: seq<string>, rest: seq<string>)
    requires forall j | 0 <= j < |preamble| :: !Labelled(preamble[j])
    requires rest != [] && Labelled(rest[0])
    ensures FirstLabel(preamble + rest) == |preamble|
  {
    var lines := preamble + rest;
    assert lines[|preamble|] == rest[0];
  }
}
