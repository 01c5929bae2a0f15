/** Decimal digit strings: the `str.isdigit` test and the `int(...)`
    conversion the scraper applies to every numeric field, together with the
    decimal renderings (plain and with thousands separators) that the
    listing page shows and that the parsing rules must undo. */
module Numbers {
  import opened Wrappers

  /** An ASCII decimal digit. */
  predicate IsDigit(c: char) {
    '0' <= c <= '9'
  }

  /** Every character is a digit (true of the empty string). */
  predicate AllDigits(s: string) {
    forall i :: 0 <= i < |s| ==> IsDigit(s[i])
  }

  /** Python's `s.isdigit()` over ASCII: non-empty and all digits. */
  predicate IsDigits(s: string) {
    |s| > 0 && AllDigits(s)
  }

  function DigitValue(c: char): (d: nat)
    requires IsDigit(c)
    ensures d < 10
  {
    c as int - '0' as int
  }

  function DigitChar(d: nat): (c: char)
    requires d < 10
    ensures IsDigit(c) && DigitValue(c) == d
  {
    ('0' as int + d) as char
  }

  function Pow10(n: nat): (p: nat)
    ensures p >= 1
  {
    if n == 0 then 1 else 10 * Pow10(n - 1)
  }

  /** The value of a digit string read in base ten (leading zeros allowed). */
  function DigitsValue(s: string): (n: nat)
    requires AllDigits(s)
    ensures n < Pow10(|s|)
  {
    if s == [] then 0
    else
      var v := DigitsValue(s[..|s| - 1]);
      assert v <= Pow10(|s| - 1) - 1;
      v * 10 + DigitValue(s[|s| - 1])
  }

  /** Reads a decimal digit string from left to right; `None` for the
      empty string or as soon as a character is not a digit. */
  function ParseDecimal(s: string): Option<nat> {
    if s == [] || !IsDigit(s[|s| - 1]) then None
    else if |s| == 1 then Some(DigitValue(s[0]))
    else
      match ParseDecimal(s[..|s| - 1])
      case None => None
      case Some(v) => Some(v * 10 + DigitValue(s[|s| - 1]))
  }

  /** `int(s) if s.isdigit() else 0`: the parse-or-zero rule of every
      integer field. */
  function ParseIntOrZero(s: string): nat {
    ParseDecimal(s).GetOr(0)
  }

  /** The parser accepts exactly the strings `isdigit` accepts, and reads
      them as their base-ten value. */
  lemma {:induction false} ParseDecimalMeaning(s: string)
    ensures ParseDecimal(s) == if IsDigits(s) then Some(DigitsValue(s)) else None
  {
    if s != [] && IsDigit(s[|s| - 1]) && |s| > 1 {
      var init := s[..|s| - 1];
      ParseDecimalMeaning(init);
      assert AllDigits(s) ==> AllDigits(init);
      if IsDigits(init) {
        assert AllDigits(s) by {
          forall i | 0 <= i < |s| ensures IsDigit(s[i]) {
            if i < |init| { assert s[i] == init[i]; }
          }
        }
      }
    } else if |s| == 1 && IsDigit(s[0]) {
      assert s[..0] == [];
    }
  }

  /** The value `int(s) if s.isdigit() else 0` stands for: the decimal
      value of a non-empty run of digits, 0 for any other text. */
  function CleanValue(s: string): nat {
    if IsDigits(s) then DigitsValue(s) else 0
  }

  /** The parse-or-zero rule computes that value. */
  lemma ParseIntOrZeroMeaning(s: string)
    ensures ParseIntOrZero(s) == CleanValue(s)
  {
    ParseDecimalMeaning(s);
  }

  /** The shortest decimal rendering of `n`. */
  function ShowNat(n: nat): (s: string)
    ensures IsDigits(s)
  {
    if n < 10 then [DigitChar(n)] else ShowNat(n / 10) + [DigitChar(n % 10)]
  }

  /** Exactly three digits, with leading zeros: one group after a thousands
      separator. */
  function Pad3(m: nat): (s: string)
    requires m < 1000
    ensures |s| == 3 && AllDigits(s)
  {
    [DigitChar(m / 100), DigitChar(m / 10 % 10), DigitChar(m % 10)]
  }

  /** The rendering with a ',' between groups of three digits, as the
      listing page prints prices and sales indices ("12,600"). */
  function ShowGrouped(n: nat): (s: string)
    ensures |s| > 0
  {
    if n < 1000 then ShowNat(n) else ShowGrouped(n / 1000) + "," + Pad3(n % 1000)
  }

  /** Reading digits after other digits shifts the first part left. */
  lemma {:induction false} DigitsValueAppend(a: string, b: string)
    requires AllDigits(a) && AllDigits(b)
    ensures AllDigits(a + b)
    ensures DigitsValue(a + b) == DigitsValue(a) * Pow10(|b|) + DigitsValue(b)
  {
    var ab := a + b;
    AllDigitsAppend(a, b);
    if b == [] {
      assert ab == a;
    } else {
      var b' := b[..|b| - 1];
      assert ab[..|ab| - 1] == a + b';
      assert ab[|ab| - 1] == b[|b| - 1];
      DigitsValueAppend(a, b');
      ShiftStep(DigitsValue(a), Pow10(|b'|), DigitsValue(b'), DigitValue(b[|b| - 1]));
    }
  }

  lemma AllDigitsAppend(a: string, b: string)
    requires AllDigits(a) && AllDigits(b)
    ensures AllDigits(a + b)
  {
    var ab := a + b;
    forall i | 0 <= i < |ab| ensures IsDigit(ab[i]) {
      if i < |a| { assert ab[i] == a[i]; } else { assert ab[i] == b[i - |a|]; }
    }
  }

  lemma ShiftStep(x: int, p: int, y: int, d: int)
    ensures (x * p + y) * 10 + d == x * (p * 10) + (y * 10 + d)
  {
  }

  /** `int(str(n)) == n`: parsing undoes the plain rendering. */
  lemma {:induction false} ParseShowNat(n: nat)
    ensures ParseIntOrZero(ShowNat(n)) == n
  {
    ShowNatValue(n);
    ParseIntOrZeroMeaning(ShowNat(n));
  }

  lemma {:induction false} ShowNatValue(n: nat)
    ensures DigitsValue(ShowNat(n)) == n
  {
    if n >= 10 {
      ShowNatValue(n / 10);
      var s := ShowNat(n);
      assert s[..|s| - 1] == ShowNat(n / 10);
    }
  }

  /** The three digits of a group read back as the group's value. */
  lemma Pad3Value(m: nat)
    requires m < 1000
    ensures DigitsValue(Pad3(m)) == m
  {
    var s := Pad3(m);
    var q := m / 10;
    assert m / 100 == q / 10;
    assert s[..2][..1] == [DigitChar(q / 10)];
    assert s[..2] == s[..2][..1] + [DigitChar(q % 10)];
    assert DigitsValue(s[..2]) == q / 10 * 10 + q % 10 == q;
    assert s[..|s| - 1] == s[..2];
    assert DigitsValue(s) == q * 10 + m % 10 == m;
  }
}
