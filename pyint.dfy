/**
  Python's `int(s)` on a string that holds no whitespace, base 10: an
  optional sign, then ASCII decimal digits, where single underscores may
  separate groups of digits (`int("1_0") == 10`). Leading zeros are
  accepted. A numeral of more than `MaxStrDigits` digits (underscores not
  counted, leading zeros counted) is refused too, as CPython 3.11 and later
  do by default. Anything else raises `ValueError`, modelled as `None`.
 */
module PyInt {
  import opened Text
  import opened Wrappers

  /** `sys.int_info.default_max_str_digits`: the most digits `int()` converts
      from a decimal string. */
  const MaxStrDigits: nat := 4300

  predicate IsDigit(c: char) {
    '0' <= c <= '9'
  }

  predicate AllDigits(s: string) {
    forall i :: 0 <= i < |s| ==> IsDigit(s[i])
  }

  function DigitValue(c: char): (d: nat)
    requires IsDigit(c)
    ensures d < 10
  {
    (c - '0') as nat
  }

  function DigitChar(d: nat): (c: char)
    requires d < 10
    ensures IsDigit(c) && DigitValue(c) == d
  {
    '0' + d as char
  }

  /** The number a string of decimal digits denotes, most significant first. */
  function Value(s: string): nat
    requires AllDigits(s)
  {
    if s == [] then 0 else Value(s[..|s| - 1]) * 10 + DigitValue(s[|s| - 1])
  }

  /** Digits, possibly in groups joined by single underscores: it starts and
      ends with a digit and has no two underscores in a row. */
  predicate IsNumeral(s: string) {
    |s| > 0 && IsDigit(s[0]) && IsDigit(s[|s| - 1])
    && (forall i :: 0 <= i < |s| ==> IsDigit(s[i]) || s[i] == '_')
    && (forall i :: 0 <= i < |s| - 1 && s[i] == '_' ==> s[i + 1] != '_')
  }

  /** Removing the underscores of a numeral leaves a non-empty digit string. */
  lemma NumeralDigits(s: string)
    requires IsNumeral(s)
    ensures AllDigits(Without(s, '_')) && |Without(s, '_')| > 0
  {
    WithoutCounts(s, '_');
    assert s[0] in multiset(s);
    assert s[0] in multiset(Without(s, '_'));
    forall i | 0 <= i < |Without(s, '_')| ensures IsDigit(Without(s, '_')[i]) {
      var c := Without(s, '_')[i];
      assert c in multiset(Without(s, '_'));
      assert c in multiset(s);
      assert c != '_';
    }
  }

  /** A numeral `int()` converts: well-formed and within the digit limit. */
  predicate Convertible(s: string) {
    IsNumeral(s) && |Without(s, '_')| <= MaxStrDigits
  }

  /** `int(s)` without the sign. */
  function ParseUnsigned(s: string): (r: Option<nat>)
    ensures r.Some? <==> Convertible(s)
  {
    if Convertible(s) then
      NumeralDigits(s);
      Some(Value(Without(s, '_')))
    else None
  }

  /** `int(s)` for a string `s` without whitespace. */
  function ParseInt(s: string): (r: Option<int>)
    ensures r.Some? <==> (Convertible(s) || (|s| > 0 && (s[0] == '-' || s[0] == '+') && Convertible(s[1..])))
    ensures r.Some? && IsNumeral(s) ==> r.value >= 0
  {
    if |s| > 0 && s[0] == '-' then
      match ParseUnsigned(s[1..])
      case Some(n) => Some(-(n as int))
      case None => None
    else if |s| > 0 && s[0] == '+' then
      match ParseUnsigned(s[1..])
      case Some(n) => Some(n as int)
      case None => None
    else
      match ParseUnsigned(s)
      case Some(n) => Some(n as int)
      case None => None
  }

  /** Decimal digits of a natural number, without leading zeros. */
  function ShowNat(n: nat): (s: string)
    ensures |s| > 0 && AllDigits(s)
  {
    if n < 10 then [DigitChar(n)] else ShowNat(n / 10) + [DigitChar(n % 10)]
  }

  /** `str(n)`: the decimal form of an integer, with `-` for negatives. */
  function Show(n: int): string {
    if n < 0 then "-" + ShowNat(-n) else ShowNat(n)
  }

  lemma {:induction false} ValueShowNat(n: nat)
    ensures Value(ShowNat(n)) == n
    decreases n
  {
    var s := ShowNat(n);
    if n >= 10 {
      ValueShowNat(n / 10);
      assert s[..|s| - 1] == ShowNat(n / 10);
    }
  }

  /** Whether the decimal form of `n` has at most `MaxStrDigits` digits. */
  predicate WithinDigitLimit(n: int) {
    |ShowNat(if n < 0 then -n else n)| <= MaxStrDigits
  }

  /** The digits of `m` read back as `m` when there are few enough of them. */
  lemma ParseShowNat(m: nat)
    ensures ParseUnsigned(ShowNat(m)) == if |ShowNat(m)| <= MaxStrDigits then Some(m) else None
  {
    var s := ShowNat(m);
    assert IsNumeral(s);
    assert Without(s, '_') == s by {
      assert forall i :: 0 <= i < |s| ==> s[i] != '_';
    }
    ValueShowNat(m);
  }

  /** `int(str(n)) == n` for every integer whose decimal form is within the
      digit limit; a longer one is refused. */
  lemma ParseShow(n: int)
    ensures ParseInt(Show(n)) == if WithinDigitLimit(n) then Some(n) else None
  {
    var m: nat := if n < 0 then -n else n;
    ParseShowNat(m);
    if n < 0 {
      assert Show(n)[0] == '-' && Show(n)[1..] == ShowNat(m);
    } else {
      assert Show(n) == ShowNat(m) && Show(n)[0] != '-' && Show(n)[0] != '+';
    }
  }

  /** The characters `str(n)` can hold: digits and a leading minus sign. */
  lemma ShowChars(n: int)
    ensures forall i :: 0 <= i < |Show(n)| ==> IsDigit(Show(n)[i]) || (i == 0 && Show(n)[i] == '-')
    ensures |Show(n)| > 0
  {
  }

  /** Worked value: `int("1_0") == 10`. */
  lemma ExampleUnderscoreInt()
    ensures ParseInt("1_0") == Some(10)
  {
    assert IsNumeral("1_0");
    assert Without("1_0", '_') == "10";
    assert Value("10") == 10 by {
      assert "10"[..1] == "1";
    }
  }

  /** Worked value: 4301 ones are one digit too many for `int()`. */
  lemma ExampleTooManyDigits()
    ensures ParseInt(seq(MaxStrDigits + 1, _ => '1')) == None
  {
    var s := seq(MaxStrDigits + 1, _ => '1');
    assert '_' !in s;
  }
}
