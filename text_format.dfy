/**
 * The serialised form and the library routines the codec leans on: printing and parsing
 * decimal numbers, the In reader's isEmpty and readLine, and the split of a "c|count" line.
 */
module TextFormat {
  import opened Wrappers

  const MagicNumber: int := 13101424
  const StartOfData: string := "13106"
  const Eof: char := '#'

  const IntMin: int := -0x8000_0000
  const IntMax: int := 0x7fff_ffff
  const LongMin: int := -0x8000_0000_0000_0000
  const LongMax: int := 0x7fff_ffff_ffff_ffff

  predicate IsDigit(ch: char) {
    '0' <= ch <= '9'
  }

  predicate AllDigits(s: string) {
    forall i :: 0 <= i < |s| ==> IsDigit(s[i])
  }

  function DigitChar(d: nat): (ch: char)
    requires d < 10
    ensures IsDigit(ch) && ch as int - '0' as int == d
  {
    (d + '0' as int) as char
  }

  /** The decimal digits of n, most significant first, without leading zeros. */
  function NatToString(n: nat): (s: string)
    ensures |s| >= 1 && AllDigits(s)
    decreases n
  {
    if n < 10 then [DigitChar(n)] else NatToString(n / 10) + [DigitChar(n % 10)]
  }

  /** Integer.toString and Long.toString, as used by println and string concatenation. */
  function IntToString(n: int): (s: string)
    ensures |s| >= 1 && (forall i :: 0 <= i < |s| ==> IsDigit(s[i]) || s[i] == '-')
    ensures IsDigit(s[0]) <==> n >= 0
  {
    if n < 0 then "-" + NatToString(-n) else NatToString(n)
  }

  /** The value of a string of decimal digits. */
  function DigitsValue(s: string): nat
    requires AllDigits(s)
  {
    if s == [] then 0 else DigitsValue(s[..|s| - 1]) * 10 + (s[|s| - 1] as int - '0' as int)
  }

  /**
   * Long.parseLong (bounds LongMin..LongMax) and Integer.parseInt (IntMin..IntMax): an
   * optional sign, one or more decimal digits, and a value within bounds; None stands for the
   * NumberFormatException.
   */
  function ParseSigned(s: string, lo: int, hi: int): (r: Option<int>)
    ensures r.Some? ==> lo <= r.value <= hi
    ensures r.Some? ==> |s| >= 1 && (IsDigit(s[0]) || s[0] == '-' || s[0] == '+')
    ensures r.Some? ==> forall i :: 1 <= i < |s| ==> IsDigit(s[i])
    ensures r.Some? && IsDigit(s[0]) ==> AllDigits(s) && r.value == DigitsValue(s)
    ensures r.Some? && s[0] == '+' ==> AllDigits(s[1..]) && r.value == DigitsValue(s[1..])
    ensures r.Some? && s[0] == '-' ==> AllDigits(s[1..]) && r.value == -(DigitsValue(s[1..]) as int)
    ensures r.Some? && (s[0] == '+' || s[0] == '-') ==> |s| >= 2
    ensures |s| >= 1 && AllDigits(s) && lo <= DigitsValue(s) <= hi ==> r == Some(DigitsValue(s))
    ensures |s| >= 2 && s[0] == '+' && AllDigits(s[1..]) && lo <= DigitsValue(s[1..]) <= hi ==>
      r == Some(DigitsValue(s[1..]))
    ensures |s| >= 2 && s[0] == '-' && AllDigits(s[1..]) && lo <= -(DigitsValue(s[1..]) as int) <= hi ==>
      r == Some(-(DigitsValue(s[1..]) as int))
  {
    var signed := |s| > 0 && (s[0] == '-' || s[0] == '+');
    var digits := if signed then s[1..] else s;
    if digits == [] || !AllDigits(digits) then None
    else
      var v: int := if |s| > 0 && s[0] == '-' then 0 - DigitsValue(digits) else DigitsValue(digits);
      if lo <= v <= hi then Some(v) else None
  }

  lemma {:induction false} NatToStringValue(n: nat)
    ensures DigitsValue(NatToString(n)) == n
    decreases n
  {
    if n >= 10 {
      var s := NatToString(n);
      NatToStringValue(n / 10);
      assert s[..|s| - 1] == NatToString(n / 10);
    }
  }

  /** Parsing what toString printed gives back the number, for every number within bounds. */
  lemma ParseIntToString(n: int, lo: int, hi: int)
    requires lo <= n <= hi
    ensures ParseSigned(IntToString(n), lo, hi) == Some(n)
  {
    var s := IntToString(n);
    if n < 0 {
      NatToStringValue(-n);
      assert s[1..] == NatToString(-n);
    } else {
      NatToStringValue(n);
    }
  }

  /** Character.isWhitespace, the test behind In.isEmpty. */
  predicate IsWhitespace(ch: char) {
    || ch == ' ' || ch == '\t' || ch == '\n' || ch == '\U{000B}' || ch == '\U{000C}' || ch == '\r'
    || ('\U{001C}' <= ch <= '\U{001F}')
    || ch == '\U{1680}' || ('\U{2000}' <= ch <= '\U{2006}') || ('\U{2008}' <= ch <= '\U{200A}')
    || ch == '\U{2028}' || ch == '\U{2029}' || ch == '\U{205F}' || ch == '\U{3000}'
  }

  /** In.isEmpty: no token is left, i.e. the input holds nothing but whitespace. */
  predicate IsBlank(s: string) {
    forall i :: 0 <= i < |s| ==> IsWhitespace(s[i])
  }

  /** The characters the reader treats as the end of a line ("\r\n" counts as one). */
  predicate IsLineBreak(ch: char) {
    ch == '\n' || ch == '\r' || ch == '\U{0085}' || ch == '\U{2028}' || ch == '\U{2029}'
  }

  /** The first line break at or after pos, or the end of s. */
  function LineEnd(s: string, pos: nat): (j: nat)
    requires pos <= |s|
    ensures pos <= j <= |s|
    ensures j < |s| ==> IsLineBreak(s[j])
    ensures forall k :: pos <= k < j ==> !IsLineBreak(s[k])
    decreases |s| - pos
  {
    if pos == |s| || IsLineBreak(s[pos]) then pos else LineEnd(s, pos + 1)
  }

  /**
   * In.readLine at position pos: the text up to the next line break and the position after
   * that break; None (the source's null) once the input is used up.
   */
  function ReadLine(s: string, pos: nat): (r: Option<(string, nat)>)
    requires pos <= |s|
    ensures r.None? <==> pos == |s|
    ensures r.Some? ==> pos < r.value.1 <= |s|
  {
    if pos == |s| then None
    else
      var j := LineEnd(s, pos);
      var next := if j == |s| then j
                  else if s[j] == '\r' && j + 1 < |s| && s[j + 1] == '\n' then j + 2
                  else j + 1;
      Some((s[pos..j], next))
  }

  /** A line followed by '\n' is read back whole, provided it holds no line break itself. */
  lemma ReadLineOf(s: string, pos: nat, line: string)
    requires pos + |line| < |s| && s[pos..pos + |line|] == line && s[pos + |line|] == '\n'
    requires forall i :: 0 <= i < |line| ==> !IsLineBreak(line[i])
    ensures ReadLine(s, pos) == Some((line, pos + |line| + 1))
  {
  }

  /** The first position at or after from holding '|', or the end of s. */
  function IndexOfBar(s: string, from: nat): (k: nat)
    requires from <= |s|
    ensures from <= k <= |s|
    ensures k < |s| ==> s[k] == '|'
    ensures forall i :: from <= i < k ==> s[i] != '|'
    decreases |s| - from
  {
    if from == |s| || s[from] == '|' then from else IndexOfBar(s, from + 1)
  }

  /**
   * parseHuffmanCode on one line: split("[|]") cuts the line at every '|' and drops trailing
   * empty pieces; the key is the first character of the first piece and the count the second
   * piece, read by Integer.parseInt. A missing first character or second piece is an index
   * exception, an unreadable count a NumberFormatException.
   */
  function ParseEntry(line: string): (r: Result<(char, int), Failure>)
    ensures r.Ok? ==> |line| > 0 && r.value.0 == line[0] && r.value.0 != '|' && IntMin <= r.value.1 <= IntMax
  {
    var k := IndexOfBar(line, 0);
    if k == 0 || k == |line| then Err(MalformedEntry)
    else if forall i :: k < i < |line| ==> line[i] == '|' then Err(MalformedEntry)
    else
      var e := IndexOfBar(line, k + 1);
      match ParseSigned(line[k + 1..e], IntMin, IntMax)
      case None => Err(NumberFormat)
      case Some(n) => Ok((line[0], n))
  }

  /** The line encode writes for one table entry: c + "|" + count. */
  function EntryLine(c: char, n: int): string {
    [c] + "|" + IntToString(n)
  }

  /** A line written for an entry is read back as that entry, unless the character is '|'. */
  lemma ParseEntryLine(c: char, n: int)
    requires c != '|' && IntMin <= n <= IntMax
    ensures ParseEntry(EntryLine(c, n)) == Ok((c, n))
  {
    var line := EntryLine(c, n);
    var digits := IntToString(n);
    assert line == [c, '|'] + digits;
    assert IndexOfBar(line, 1) == 1;
    assert IndexOfBar(line, 0) == 1;
    assert forall i :: 2 <= i < |line| ==> line[i] == digits[i - 2];
    assert line[2] != '|';
    var e := IndexOfBar(line, 2);
    assert e == |line|;
    assert line[2..e] == digits;
    ParseIntToString(n, IntMin, IntMax);
    assert ParseSigned(digits, IntMin, IntMax) == Some(n);
    assert ParseSigned(line[2..e], IntMin, IntMax) == Some(n);
  }
}
