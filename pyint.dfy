/**
 * The conversion `int(self.headers["Content-Length"])` applies to the header text:
 * Python's `int()` on a string in base 10.  It strips surrounding whitespace,
 * accepts one optional sign, and then one or more decimal digits in which single
 * underscores may separate two digits; more than 4300 digits (the default of
 * `sys.get_int_max_str_digits()`) raise ValueError, and `str()` refuses to write
 * such an integer too.
 */
module PyInt {
  import opened Wrappers

  /**
   * The characters `int()` strips around the digits: the ASCII whitespace of
   * the C locale (tab, LF, VT, FF, CR and space), and the non-ASCII characters
   * for which `str.isspace()` holds, which `int()` maps to a space first. ASCII
   * U+001C to U+001F are not among them, although `str.isspace()` holds for them.
   */
  predicate IsSpace(c: char) {
    || c == ' ' || 0x09 <= c as int <= 0x0D
    || c as int == 0x85 || c as int == 0xA0 || c as int == 0x1680
    || 0x2000 <= c as int <= 0x200A || c as int == 0x2028 || c as int == 0x2029
    || c as int == 0x202F || c as int == 0x205F || c as int == 0x3000
  }

  /** The default limit on the number of digits `int()` reads and `str()` writes. */
  const MAX_STR_DIGITS: nat := 4300

  predicate IsDigit(c: char) {
    '0' <= c <= '9'
  }

  function TrimStart(s: string): string
    decreases |s|
  {
    if |s| > 0 && IsSpace(s[0]) then TrimStart(s[1..]) else s
  }

  function TrimEnd(s: string): string
    decreases |s|
  {
    if |s| > 0 && IsSpace(s[|s| - 1]) then TrimEnd(s[..|s| - 1]) else s
  }

  function Strip(s: string): string {
    TrimEnd(TrimStart(s))
  }

  /** Digits with underscores allowed only singly and between two digits. */
  predicate IsDigitGroup(t: string) {
    && |t| > 0
    && IsDigit(t[0])
    && IsDigit(t[|t| - 1])
    && (forall i | 0 <= i < |t| :: IsDigit(t[i]) || t[i] == '_')
    && (forall i | 0 <= i < |t| - 1 :: t[i] == '_' ==> t[i + 1] != '_')
  }

  function DigitValue(c: char): nat
    requires IsDigit(c)
  {
    c as int - '0' as int
  }

  /** The value of the digits of `t` read in base 10, underscores skipped. */
  function DigitsValue(t: string): nat
    requires forall i | 0 <= i < |t| :: IsDigit(t[i]) || t[i] == '_'
    decreases |t|
  {
    if t == [] then 0
    else if t[|t| - 1] == '_' then DigitsValue(t[..|t| - 1])
    else DigitsValue(t[..|t| - 1]) * 10 + DigitValue(t[|t| - 1])
  }

  /** The number of digits in `t`, underscores not counted. */
  function DigitCount(t: string): nat
    decreases |t|
  {
    if t == [] then 0
    else DigitCount(t[..|t| - 1]) + (if t[|t| - 1] == '_' then 0 else 1)
  }

  /** Digits `int()` accepts: a digit group no longer than the digit limit. */
  predicate IsNumeral(t: string) {
    IsDigitGroup(t) && DigitCount(t) <= MAX_STR_DIGITS
  }

  /** `int(text)`: None where Python raises ValueError. */
  function ParseInt(text: string): Option<int> {
    var t := Strip(text);
    if |t| > 0 && (t[0] == '+' || t[0] == '-') then
      if IsNumeral(t[1..]) then
        var n: int := DigitsValue(t[1..]);
        Some(if t[0] == '-' then -n else n)
      else None
    else if IsNumeral(t) then Some(DigitsValue(t))
    else None
  }

  function DigitChar(d: nat): char
    requires d < 10
  {
    ('0' as int + d) as char
  }

  /** Decimal rendering of a natural number, most significant digit first. */
  function ShowNat(n: nat): string
    decreases n
  {
    if n < 10 then [DigitChar(n)] else ShowNat(n / 10) + [DigitChar(n % 10)]
  }

  /** Decimal rendering of an integer, as `str(n)` writes it. */
  function ShowInt(n: int): string {
    if n < 0 then "-" + ShowNat(-n) else ShowNat(n)
  }

  lemma {:induction false} ShowNatIsDigits(n: nat)
    ensures |ShowNat(n)| > 0
    ensures forall i | 0 <= i < |ShowNat(n)| :: IsDigit(ShowNat(n)[i])
    decreases n
  {
    if n >= 10 {
      ShowNatIsDigits(n / 10);
    }
  }

  lemma {:induction false} DigitsValueOfShowNat(n: nat)
    ensures forall i | 0 <= i < |ShowNat(n)| :: IsDigit(ShowNat(n)[i])
    ensures DigitsValue(ShowNat(n)) == n
    decreases n
  {
    ShowNatIsDigits(n);
    var t := ShowNat(n);
    if n < 10 {
      assert t[..|t| - 1] == [];
    } else {
      var front := ShowNat(n / 10);
      ShowNatIsDigits(n / 10);
      DigitsValueOfShowNat(n / 10);
      assert t[..|t| - 1] == front;
    }
  }

  /** A string of digits alone has as many digits as characters. */
  lemma {:induction false} DigitCountOfDigits(t: string)
    requires forall i | 0 <= i < |t| :: IsDigit(t[i])
    ensures DigitCount(t) == |t|
    decreases |t|
  {
    if t != [] {
      var front := t[..|t| - 1];
      assert forall i | 0 <= i < |front| :: front[i] == t[i];
      DigitCountOfDigits(front);
    }
  }

  /** `int("\x1c5")` raises ValueError while `int(" 5\t")` is 5: only `int()`'s own whitespace is stripped. */
  lemma SeparatorIsNotStripped()
    ensures ParseInt([0x1C as char, '5']).None?
    ensures ParseInt([' ', '5', '\t']) == Some(5)
  {
    assert Strip([' ', '5', '\t']) == ['5'] by {
      assert TrimStart([' ', '5', '\t']) == TrimStart(['5', '\t']);
      assert TrimEnd(['5', '\t']) == TrimEnd(['5']);
    }
    assert DigitsValue(['5']) == DigitsValue([]) * 10 + 5 by {
      assert ['5'][..0] == [];
    }
  }

  /** The digits of a stripped numeral, after its sign if it has one. */
  function Unsigned(t: string): string {
    if |t| > 0 && (t[0] == '+' || t[0] == '-') then t[1..] else t
  }

  /** `int()` raises on a numeral, signed or not, of more than MAX_STR_DIGITS digits, whatever their value. */
  lemma TooManyDigitsRaise(text: string)
    requires IsDigitGroup(Unsigned(Strip(text))) && DigitCount(Unsigned(Strip(text))) > MAX_STR_DIGITS
    ensures ParseInt(text).None?
  {
  }

  /** Whatever integer `str()` writes (at most MAX_STR_DIGITS digits), `int()` reads back. */
  lemma ParseShowRoundTrip(n: int)
    requires |ShowNat(if n < 0 then -n else n)| <= MAX_STR_DIGITS
    ensures ParseInt(ShowInt(n)) == Some(n)
  {
    var m := if n < 0 then -n else n;
    DigitsValueOfShowNat(m);
    ShowNatIsDigits(m);
    DigitCountOfDigits(ShowNat(m));
    var t := ShowInt(n);
    assert !IsSpace(t[0]) && !IsSpace(t[|t| - 1]);
    assert Strip(t) == t;
    if n < 0 {
      assert t[1..] == ShowNat(m);
    }
  }
}
