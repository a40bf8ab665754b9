/** Python's `int(x)` for the values the search API sends: a JSON number is
    taken as it is, a string is parsed as a base-10 integer literal. */
module Numbers {
  import opened Wrappers
  import opened Strings

  predicate IsDigit(c: char) { '0' <= c <= '9' }

  function DigitValue(c: char): (d: nat)
    requires IsDigit(c)
    ensures d < 10
  {
    c as int - '0' as int
  }

  function DigitChar(d: nat): (c: char)
    requires d < 10
    ensures IsDigit(c) && DigitValue(c) == d
  {
    ('0' as int + d) as char
  }

  /** What `int()` accepts after the sign: ASCII digits, with single
      underscores allowed between two digits. */
  predicate WellFormedDigits(t: string)
  {
    && |t| > 0 && IsDigit(t[0]) && IsDigit(t[|t| - 1])
    && (forall k :: 0 <= k < |t| ==> IsDigit(t[k]) || t[k] == '_')
    && (forall k :: 0 <= k < |t| - 1 ==> t[k] == '_' ==> t[k + 1] != '_')
  }

  /** The value of a digit string, underscores skipped. */
  function DigitsValue(t: string): nat
    requires forall k :: 0 <= k < |t| ==> IsDigit(t[k]) || t[k] == '_'
  {
    if t == [] then 0
    else if t[|t| - 1] == '_' then DigitsValue(t[..|t| - 1])
    else 10 * DigitsValue(t[..|t| - 1]) + DigitValue(t[|t| - 1])
  }

  /** CPython's default `sys.get_int_max_str_digits()`: decimal text with
      more digits than this raises ValueError. */
  const MaxStrDigits: nat := 4300

  /** The number of digits of a digit string, underscores not counted. */
  function DigitCount(t: string): (n: nat)
    ensures n <= |t|
  {
    if t == [] then 0
    else if IsDigit(t[|t| - 1]) then DigitCount(t[..|t| - 1]) + 1
    else DigitCount(t[..|t| - 1])
  }

  lemma {:induction false} DigitCountAll(d: string)
    requires forall k :: 0 <= k < |d| ==> IsDigit(d[k])
    ensures DigitCount(d) == |d|
  {
    if d != [] {
      DigitCountAll(d[..|d| - 1]);
    }
  }

  /** What `int()` accepts after the sign, within the digit limit. */
  predicate Accepted(t: string)
  {
    WellFormedDigits(t) && DigitCount(t) <= MaxStrDigits
  }

  /** `int(s)` for a string: surrounding whitespace is ignored, then a
      literal follows; anything else raises ValueError, modelled as None. */
  function ParseInt(s: string): Option<int>
  {
    ParseLiteral(Strip(s))
  }

  /** One optional sign, then a well-formed digit string of at most
      `MaxStrDigits` digits. */
  function ParseLiteral(t: string): Option<int>
  {
    if |t| > 0 && (t[0] == '+' || t[0] == '-') then
      if !Accepted(t[1..]) then None
      else if t[0] == '-' then Some(-(DigitsValue(t[1..]) as int))
      else Some(DigitsValue(t[1..]) as int)
    else if Accepted(t) then Some(DigitsValue(t) as int)
    else None
  }

  /** Blank input (including the empty string) raises. */
  lemma ParseIntBlank(s: string)
    requires forall k :: 0 <= k < |s| ==> IsSpace(s[k])
    ensures ParseInt(s) == None
  {
    assert Strip(s) == [];
  }

  /** A successful parse saw at least one digit. */
  lemma ParseIntHasDigit(s: string)
    requires ParseInt(s).Some?
    ensures exists k :: 0 <= k < |s| && IsDigit(s[k])
  {
    var t := Strip(s);
    var i := Indent(s);
    var last := |t| - 1;
    assert WellFormedDigits(t) || WellFormedDigits(t[1..]);
    assert IsDigit(t[last]);
    assert s[i + last] == t[last];
  }

  predicate AllDigits(d: string)
  {
    |d| > 0 && forall k :: 0 <= k < |d| ==> IsDigit(d[k])
  }

  /** `str(n)` for n >= 0. */
  function NatToString(n: nat): (s: string)
    ensures |s| > 0
  {
    if n < 10 then [DigitChar(n)] else NatToString(n / 10) + [DigitChar(n % 10)]
  }

  lemma {:induction false} NatToStringDigits(n: nat)
    ensures AllDigits(NatToString(n))
  {
    if n >= 10 {
      NatToStringDigits(n / 10);
    }
  }

  /** `str(n)` */
  function IntToString(n: int): string
  {
    if n < 0 then "-" + NatToString(-n) else NatToString(n)
  }

  lemma {:induction false} DigitsValueOfNat(n: nat)
    ensures AllDigits(NatToString(n)) && DigitsValue(NatToString(n)) == n
  {
    NatToStringDigits(n);
    if n >= 10 {
      var s := NatToString(n);
      assert s[..|s| - 1] == NatToString(n / 10);
      DigitsValueOfNat(n / 10);
    }
  }

  lemma ParseNat(n: nat)
    requires |NatToString(n)| <= MaxStrDigits
    ensures ParseInt(NatToString(n)) == Some(n)
  {
    var d := NatToString(n);
    DigitsValueOfNat(n);
    StripUnchanged(d);
    DigitCountAll(d);
    assert WellFormedDigits(d);
  }

  lemma LiteralNegated(d: string)
    requires AllDigits(d) && |d| <= MaxStrDigits
    ensures ParseLiteral("-" + d) == Some(-(DigitsValue(d) as int))
  {
    var t := "-" + d;
    assert t[0] == '-' && t[1..] == d;
    assert Accepted(d) by {
      DigitCountAll(d);
      assert WellFormedDigits(d);
    }
  }

  lemma ParseNegatedNat(n: nat)
    requires |NatToString(n)| <= MaxStrDigits
    ensures ParseInt("-" + NatToString(n)) == Some(-(n as int))
  {
    var d := NatToString(n);
    DigitsValueOfNat(n);
    var s := "-" + d;
    assert s[|s| - 1] == d[|d| - 1];
    StripUnchanged(s);
    LiteralNegated(d);
  }

  /** `n` is written with at most `MaxStrDigits` digits. */
  predicate WithinDigitLimit(n: int)
  {
    |NatToString(if n < 0 then -n else n)| <= MaxStrDigits
  }

  /** `int(str(n)) == n` for every `n` within the digit limit: the numbers
      the API sends as strings come back exactly. */
  lemma ParseIntRoundTrip(n: int)
    requires WithinDigitLimit(n)
    ensures ParseInt(IntToString(n)) == Some(n)
  {
    if n < 0 {
      ParseNegatedNat(-n);
    } else {
      ParseNat(n);
    }
  }

  /** Decimal text of more than `MaxStrDigits` digits raises, whatever its
      value: past the limit the round trip does not hold. */
  lemma ParseIntTooManyDigits(d: string)
    requires AllDigits(d) && |d| > MaxStrDigits
    ensures ParseInt(d) == None && ParseInt("-" + d) == None
  {
    DigitCountAll(d);
    StripUnchanged(d);
    var s := "-" + d;
    assert s[1..] == d;
    assert s[|s| - 1] == d[|d| - 1];
    StripUnchanged(s);
  }

  /** `int(" 42\n") == 42`: surrounding whitespace is ignored. */
  lemma ParseIntIgnoresSpace()
    ensures ParseInt(" 42\n") == Some(42)
  {
    assert Indent(" 42\n") == 1;
    assert Trailing(" 42\n") == 1;
    assert Strip(" 42\n") == "42";
    assert "42"[..1] == "4" && "4"[..0] == "";
    assert DigitsValue("4") == 4;
    assert DigitsValue("42") == 42;
    assert WellFormedDigits("42");
  }

  /** `int("1_000") == 1000`: single underscores between digits are skipped. */
  lemma ParseIntUnderscore()
    ensures ParseInt("1_000") == Some(1000)
  {
    StripUnchanged("1_000");
    assert "1_000"[..4] == "1_00";
    assert "1_00"[..3] == "1_0";
    assert "1_0"[..2] == "1_";
    assert "1_"[..1] == "1" && "1"[..0] == "";
    assert DigitsValue("1") == 1;
    assert DigitsValue("1_") == 1;
    assert DigitsValue("1_0") == 10;
    assert DigitsValue("1_00") == 100;
    assert DigitsValue("1_000") == 1000;
    assert WellFormedDigits("1_000");
  }

  /** `int("1__0")` raises: two underscores in a row are not allowed. */
  lemma ParseIntDoubleUnderscore()
    ensures ParseInt("1__0") == None
  {
    StripUnchanged("1__0");
    assert "1__0"[1] == '_' && "1__0"[2] == '_';
  }

  /** `int("12a")` raises. */
  lemma ParseIntRejectsLetters()
    ensures ParseInt("12a") == None
  {
    StripUnchanged("12a");
    assert !IsDigit("12a"[2]);
  }
}
