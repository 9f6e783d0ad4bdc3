/** `parse_date` (`datetime.strptime(text, '%Y-%m-%d').date()`) and the
    `date.isoformat()` encoder, for the extended-format calendar dates of
    section 4.1.2.2 of ISO 8601:2004 (`YYYY-MM-DD`). */
module Dates {
  import opened Wrappers
  import opened Values
  import opened PyStr

  predicate IsDigit(c: char)
  {
    '0' <= c <= '9'
  }

  predicate AllDigits(s: string)
  {
    forall i | 0 <= i < |s| :: IsDigit(s[i])
  }

  function DigitValue(c: char): int
  {
    c as int - '0' as int
  }

  function Digit(n: int): (c: char)
    requires 0 <= n <= 9
    ensures IsDigit(c) && DigitValue(c) == n
  {
    (n + '0' as int) as char
  }

  /** `10` to the power `k`. */
  function Pow10(k: nat): (p: nat)
    ensures p >= 1
  {
    if k == 0 then 1 else 10 * Pow10(k - 1)
  }

  /** Decimal value of a string of digits, as `int()` reads it: below
      `10` to the power of its length. */
  function DigitsValue(s: string): (n: int)
    requires AllDigits(s)
    ensures 0 <= n < Pow10(|s|)
  {
    if s == [] then 0 else DigitsValue(s[..|s| - 1]) * 10 + DigitValue(s[|s| - 1])
  }

  /** What the `%m` directive of `strptime` accepts: `1`..`9`, `01`..`09`, `10`..`12`. */
  predicate MonthField(t: string)
  {
    || (|t| == 1 && '1' <= t[0] <= '9')
    || (|t| == 2 && ((t[0] == '1' && '0' <= t[1] <= '2') || (t[0] == '0' && '1' <= t[1] <= '9')))
  }

  /** What the `%d` directive of `strptime` accepts when it must reach the end
      of the text: `1`..`9`, `01`..`31`, and a space followed by `1`..`9`. */
  predicate DayField(t: string)
  {
    || (|t| == 1 && '1' <= t[0] <= '9')
    || (|t| == 2 && (|| (t[0] == '3' && '0' <= t[1] <= '1')
                     || ('1' <= t[0] <= '2' && IsDigit(t[1]))
                     || (t[0] == '0' && '1' <= t[1] <= '9')
                     || (t[0] == ' ' && '1' <= t[1] <= '9')))
  }

  function DayValue(t: string): int
    requires DayField(t)
  {
    if t[0] == ' ' then DigitValue(t[1]) else DigitsValue(t)
  }

  /** `parse_date`: `None` stands for the `ValueError` strptime raises on a
      text that does not match the format or names no real date. */
  function ParseDate(text: string): (r: Option<Date>)
    ensures r.Some? ==> 8 <= |text| <= 10 && text[4] == '-'
    ensures r.Some? ==> AllDigits(text[..4]) && r.value.year == DigitsValue(text[..4])
  {
    if |text| < 5 || !AllDigits(text[..4]) || text[4] != '-' then None
    else
      var rest := text[5..];
      match IndexOf(rest, '-')
      case None => None
      case Some(m) =>
        if !MonthField(rest[..m]) || !DayField(rest[m + 1..]) then None
        else
          var d := YMD(DigitsValue(text[..4]), DigitsValue(rest[..m]), DayValue(rest[m + 1..]));
          if ValidDate(d) then Some(d) else None
  }

  function Pad2(n: int): (s: string)
    requires 0 <= n <= 99
    ensures |s| == 2 && AllDigits(s)
  {
    [Digit(n / 10), Digit(n % 10)]
  }

  function Pad4(n: int): (s: string)
    requires 0 <= n <= 9999
    ensures |s| == 4 && AllDigits(s)
  {
    [Digit(n / 1000), Digit(n / 100 % 10), Digit(n / 10 % 10), Digit(n % 10)]
  }

  /** `date.isoformat()`: `YYYY-MM-DD` with zero padding. */
  function IsoFormat(d: Date): (s: string)
    ensures |s| == 10 && s[4] == '-' && s[7] == '-'
  {
    Pad4(d.year) + "-" + Pad2(d.month) + "-" + Pad2(d.day)
  }

  lemma Pad2Value(n: int)
    requires 0 <= n <= 99
    ensures DigitsValue(Pad2(n)) == n
  {
    var s := Pad2(n);
    assert s[..1][..0] == [];
    assert DigitsValue(s[..1]) == n / 10;
  }

  lemma Pad4Value(n: int)
    requires 0 <= n <= 9999
    ensures DigitsValue(Pad4(n)) == n
  {
    var s := Pad4(n);
    assert s[..1][..0] == [];
    assert s[..2][..1] == s[..1];
    assert s[..3][..2] == s[..2];
    DivTenTwice(n);
    assert DigitsValue(s[..1]) == n / 1000;
    assert DigitsValue(s[..2]) == n / 100 / 10 * 10 + n / 100 % 10;
    assert DigitsValue(s[..3]) == n / 10 / 10 * 10 + n / 10 % 10;
  }

  lemma DivTenTwice(a: int)
    requires a >= 0
    ensures a / 10 / 10 == a / 100 && a / 100 / 10 == a / 1000
  {
  }

  /** A month as `isoformat` writes it is a month field of the same value. */
  lemma MonthFieldPad2(n: int)
    requires 1 <= n <= 12
    ensures MonthField(Pad2(n)) && DigitsValue(Pad2(n)) == n
  {
    Pad2Value(n);
  }

  /** A day as `isoformat` writes it is a day field of the same value. */
  lemma DayFieldPad2(n: int)
    requires 1 <= n <= 31
    ensures DayField(Pad2(n)) && DayValue(Pad2(n)) == n
  {
    Pad2Value(n);
  }

  /** Every date `isoformat` writes is read back by `parse_date` as the same date. */
  lemma ParseIsoFormat(d: Date)
    ensures ParseDate(IsoFormat(d)) == Some(d)
  {
    var text := IsoFormat(d);
    var rest := text[5..];
    assert text[..4] == Pad4(d.year);
    Pad4Value(d.year);
    assert rest == Pad2(d.month) + "-" + Pad2(d.day);
    assert IndexOf(rest, '-') == Some(2) by {
      assert rest[..2] == Pad2(d.month);
    }
    assert rest[..2] == Pad2(d.month);
    assert rest[3..] == Pad2(d.day);
    MonthFieldPad2(d.month);
    DayFieldPad2(d.day);
    assert YMD(DigitsValue(text[..4]), DigitsValue(rest[..2]), DayValue(rest[3..])) == d;
  }

  lemma DigitOf(c: char)
    requires IsDigit(c)
    ensures 0 <= DigitValue(c) <= 9 && Digit(DigitValue(c)) == c
  {
  }

  lemma Pad2Digits(t: string)
    requires |t| == 2 && AllDigits(t)
    ensures DigitsValue(t) <= 99 && Pad2(DigitsValue(t)) == t
  {
    assert t[..1][..0] == [];
    var a, b := DigitValue(t[0]), DigitValue(t[1]);
    DigitOf(t[0]);
    DigitOf(t[1]);
    assert DigitsValue(t[..1]) == a;
    DivMod10(a, b);
  }

  lemma DivMod10(q: int, r: int)
    requires 0 <= r < 10
    ensures (q * 10 + r) / 10 == q && (q * 10 + r) % 10 == r
  {
  }

  lemma Pad4Digits(t: string)
    requires |t| == 4 && AllDigits(t)
    ensures DigitsValue(t) <= 9999 && Pad4(DigitsValue(t)) == t
  {
    assert t[..1][..0] == [];
    assert t[..2][..1] == t[..1];
    assert t[..3][..2] == t[..2];
    var a, b, c, e := DigitValue(t[0]), DigitValue(t[1]), DigitValue(t[2]), DigitValue(t[3]);
    DigitOf(t[0]);
    DigitOf(t[1]);
    DigitOf(t[2]);
    DigitOf(t[3]);
    var ab := a * 10 + b;
    var abc := ab * 10 + c;
    var n := abc * 10 + e;
    assert DigitsValue(t[..1]) == a;
    assert DigitsValue(t[..2]) == ab;
    assert DigitsValue(t[..3]) == abc;
    assert DigitsValue(t) == n;
    DivMod10(abc, e);
    DivMod10(ab, c);
    DivMod10(a, b);
    assert n / 10 == abc;
    assert n / 100 == abc / 10;
    assert n / 1000 == ab / 10;
  }

  /** Conversely, a ten-character text that `parse_date` accepts and whose day
      does not start with a space is exactly what `isoformat` writes for the
      parsed date. */
  lemma IsoFormatParse(text: string)
    requires |text| == 10 && text[8] != ' ' && ParseDate(text).Some?
    ensures IsoFormat(ParseDate(text).value) == text
  {
    var rest := text[5..];
    var m := IndexOf(rest, '-').value;
    assert m == 2 by {
      assert MonthField(rest[..m]) && DayField(rest[m + 1..]);
    }
    var month, day := rest[..2], rest[3..];
    assert |day| == 2 && day[0] == text[8];
    assert AllDigits(month) by {
      assert MonthField(month);
    }
    assert AllDigits(day) && DayValue(day) == DigitsValue(day) by {
      assert DayField(day);
    }
    Pad4Digits(text[..4]);
    Pad2Digits(month);
    Pad2Digits(day);
    assert text == text[..4] + "-" + month + "-" + day;
  }
}
