/** Python's `int(s)` on a string, base 10: surrounding whitespace is
    ignored, then one optional sign, then ASCII digits that may be grouped
    by single underscores. */
module PyInt {
  import opened Outcomes
  import opened PyText

  predicate IsDigit(c: char) {
    '0' <= c <= '9'
  }

  function DigitValue(c: char): (d: nat)
    requires IsDigit(c)
    ensures d < 10
  {
    (c as int) - ('0' as int)
  }

  function DigitChar(d: nat): (c: char)
    requires d < 10
    ensures IsDigit(c) && DigitValue(c) == d
  {
    (('0' as int) + d) as char
  }

  predicate AllDigits(s: string) {
    forall k :: 0 <= k < |s| ==> IsDigit(s[k])
  }

  /** The digits of an integer literal body: digits, with an underscore
      allowed only between two digits. */
  predicate IsDigitGroup(s: string) {
    && |s| > 0
    && IsDigit(s[0])
    && IsDigit(s[|s| - 1])
    && (forall k :: 0 <= k < |s| ==> IsDigit(s[k]) || s[k] == '_')
    && (forall i, j :: 0 <= i < |s| && 0 <= j < |s| && j == i + 1 ==> IsDigit(s[i]) || IsDigit(s[j]))
  }

  function DropUnderscores(s: string): (r: string)
    ensures (forall k :: 0 <= k < |s| ==> IsDigit(s[k]) || s[k] == '_') ==> AllDigits(r)
  {
    if s == [] then []
    else if s[0] == '_' then DropUnderscores(s[1..])
    else [s[0]] + DropUnderscores(s[1..])
  }

  /** The value of a string of decimal digits, most significant first. */
  function DecimalValue(s: string): nat
    requires AllDigits(s)
  {
    if s == [] then 0 else DecimalValue(s[..|s| - 1]) * 10 + DigitValue(s[|s| - 1])
  }

  /** The characters `int()` skips around a literal. CPython first turns
      every non-ASCII whitespace character into a space, then skips only
      the ASCII whitespace `\t \n \v \f \r` and space. The separators
      U+001C to U+001F, which `str.strip()` does remove, are therefore not
      skipped, and `int("\x1c1999")` raises `ValueError`. */
  const IntSpace: set<char> := Whitespace - {'\U{1C}', '\U{1D}', '\U{1E}', '\U{1F}'}

  /** CPython's default limit on the number of digits `int()` converts
      from decimal text (`sys.get_int_max_str_digits()`). */
  const MaxStrDigits: nat := 4300

  /** The number of digit characters in `s`. */
  function CountDigits(s: string): (n: nat)
    ensures n <= |s|
  {
    if s == [] then 0 else (if IsDigit(s[0]) then 1 else 0) + CountDigits(s[1..])
  }

  /** `int(s)`: the integer `s` spells, or `None` where Python raises
      `ValueError`, which it does for malformed text and for a literal of
      more than `MaxStrDigits` digits (underscores and sign not counted). */
  function ParseIntLiteral(s: string): (r: Option<int>)
    ensures r.Some? ==>
              var t := StripChars(s, IntSpace);
              && |t| > 0
              && (IsDigit(t[0]) || t[0] == '+' || t[0] == '-')
              && IsDigit(t[|t| - 1])
              && CountDigits(t) <= MaxStrDigits
              && (r.value < 0 ==> t[0] == '-')
  {
    var t := StripChars(s, IntSpace);
    match LiteralValue(t)
    case None => None
    case Some(n) => if CountDigits(t) > MaxStrDigits then None else Some(n)
  }

  /** The value of stripped text: one optional sign, then a literal body. */
  function LiteralValue(t: string): Option<int> {
    if |t| > 0 && (t[0] == '+' || t[0] == '-') then
      if IsDigitGroup(t[1..]) then
        var n: int := DecimalValue(DropUnderscores(t[1..]));
        Some(if t[0] == '-' then -n else n)
      else None
    else if IsDigitGroup(t) then Some(DecimalValue(DropUnderscores(t)))
    else None
  }

  /** `str(n)` for a natural number. */
  function NatToDecimal(n: nat): (s: string)
    ensures |s| > 0 && AllDigits(s)
  {
    if n < 10 then [DigitChar(n)] else NatToDecimal(n / 10) + [DigitChar(n % 10)]
  }

  /** `str(n)` */
  function IntToDecimal(n: int): string {
    if n < 0 then "-" + NatToDecimal(-n) else NatToDecimal(n)
  }

  /** The number of digits in `str(n)`, the sign not counted. */
  function DigitCount(n: int): nat {
    |NatToDecimal(if n < 0 then -n else n)|
  }

  /** A number has no more digits than one more than itself. */
  lemma {:induction false} NatToDecimalLength(m: nat)
    ensures |NatToDecimal(m)| <= m + 1
  {
    if m >= 10 {
      NatToDecimalLength(m / 10);
    }
  }

  lemma {:induction false} NatToDecimalValue(n: nat)
    ensures DecimalValue(NatToDecimal(n)) == n
  {
    if n >= 10 {
      var s := NatToDecimal(n);
      assert s[..|s| - 1] == NatToDecimal(n / 10);
      NatToDecimalValue(n / 10);
    }
  }

  lemma {:induction false} DropUnderscoresOfDigits(s: string)
    requires AllDigits(s)
    ensures DropUnderscores(s) == s
  {
    if s != [] {
      DropUnderscoresOfDigits(s[1..]);
    }
  }

  lemma {:induction false} CountAllDigits(s: string)
    requires AllDigits(s)
    ensures CountDigits(s) == |s|
  {
    if s != [] {
      CountAllDigits(s[1..]);
    }
  }

  /** Round trip: `int(str(n)) == n` for every integer `n` of at most
      `MaxStrDigits` digits; a longer one raises `ValueError`. */
  lemma ParseIntOfDecimal(n: int)
    ensures ParseIntLiteral(IntToDecimal(n)) == if DigitCount(n) <= MaxStrDigits then Some(n) else None
  {
    var m: nat := if n < 0 then -n else n;
    var d := NatToDecimal(m);
    NatToDecimalValue(m);
    if n < 0 {
      ParseMinusDigits(d);
    } else {
      ParseDigits(d);
    }
  }

  /** Text made of digits parses to its value, unless it is too long. */
  lemma ParseDigits(d: string)
    requires |d| > 0 && AllDigits(d)
    ensures ParseIntLiteral(d) == if |d| <= MaxStrDigits then Some(DecimalValue(d) as int) else None
  {
    DigitsTrimmed(d);
    DigitsValue(d);
    CountAllDigits(d);
  }

  /** A minus sign followed by digits parses to minus their value, unless
      there are too many digits. */
  lemma ParseMinusDigits(d: string)
    requires |d| > 0 && AllDigits(d)
    ensures ParseIntLiteral("-" + d) == if |d| <= MaxStrDigits then Some(-(DecimalValue(d) as int)) else None
  {
    MinusDigitsTrimmed(d);
    MinusDigitsValue(d);
    MinusDigitsCount(d);
  }

  lemma DigitsTrimmed(d: string)
    requires |d| > 0 && AllDigits(d)
    ensures StripChars(d, IntSpace) == d
  {
    VisibleIsNotSpace(d[0]);
    VisibleIsNotSpace(d[|d| - 1]);
    StripTrimmed(d, IntSpace);
  }

  lemma DigitsValue(d: string)
    requires |d| > 0 && AllDigits(d)
    ensures LiteralValue(d) == Some(DecimalValue(d) as int)
  {
    DropUnderscoresOfDigits(d);
  }

  lemma MinusDigitsTrimmed(d: string)
    requires |d| > 0 && AllDigits(d)
    ensures StripChars("-" + d, IntSpace) == "-" + d
  {
    var s := "-" + d;
    assert s[0] == '-' && s[|s| - 1] == d[|d| - 1];
    VisibleIsNotSpace('-');
    VisibleIsNotSpace(d[|d| - 1]);
    StripTrimmed(s, IntSpace);
  }

  lemma MinusDigitsValue(d: string)
    requires |d| > 0 && AllDigits(d)
    ensures LiteralValue("-" + d) == Some(-(DecimalValue(d) as int))
  {
    var s := "-" + d;
    assert s[0] == '-' && s[1..] == d;
    NegatedValue(d, s);
  }

  lemma NegatedValue(d: string, s: string)
    requires |d| > 0 && AllDigits(d)
    requires |s| > 0 && s[0] == '-' && s[1..] == d
    ensures LiteralValue(s) == Some(-(DecimalValue(d) as int))
  {
    DropUnderscoresOfDigits(d);
  }

  lemma MinusDigitsCount(d: string)
    requires AllDigits(d)
    ensures CountDigits("-" + d) == |d|
  {
    var s := "-" + d;
    assert s[0] == '-' && s[1..] == d;
    CountAllDigits(d);
  }

  /** `int()` ignores the whitespace it skips around the literal:
      `int(" 1999 ") == 1999`. */
  lemma ParseIntIgnoresPadding(pre: string, s: string, post: string)
    requires AllIn(pre, IntSpace) && AllIn(post, IntSpace) && TrimmedOf(s, IntSpace)
    ensures ParseIntLiteral(pre + s + post) == ParseIntLiteral(s)
  {
    PaddedStrip(pre, s, post, IntSpace);
    StripTrimmed(s, IntSpace);
  }

  /** An information separator in front of the digits is removed by
      `str.strip()` but makes `int()` raise: `int("\x1c1999")` fails. */
  lemma SeparatorIsNotPadding(d: string)
    requires |d| > 0 && AllDigits(d)
    ensures Strip("\U{1C}" + d) == d
    ensures ParseIntLiteral("\U{1C}" + d) == None
  {
    var s := "\U{1C}" + d;
    assert s[0] == '\U{1C}' && s[1..] == d;
    SeparatorStrip(d, s);
    SeparatorKept(d, s);
  }

  lemma SeparatorStrip(d: string, s: string)
    requires |d| > 0 && AllDigits(d)
    requires |s| > 0 && s[0] == '\U{1C}' && s[1..] == d
    ensures Strip(s) == d
  {
    VisibleIsNotSpace(d[0]);
    VisibleIsNotSpace(d[|d| - 1]);
    assert s[..1] == ['\U{1C}'] && s[|s|..] == [] && s[1..|s|] == d;
    StripWitness(d, s, 1, |s|, Whitespace);
  }

  lemma SeparatorKept(d: string, s: string)
    requires |d| > 0 && AllDigits(d)
    requires |s| > 0 && s[0] == '\U{1C}' && s[1..] == d
    ensures ParseIntLiteral(s) == None
  {
    VisibleIsNotSpace(d[|d| - 1]);
    assert s[|s| - 1] == d[|d| - 1];
    StripTrimmed(s, IntSpace);
  }
}
