/** Exact amounts as decimal text (src/api.rs:1785-1836): one view computed from
    an integer, one from the text of an integer of any size. */
module Amounts {
  import opened Wrappers
  import opened Bytes

  datatype AmountView = AmountView(zatoshi: string, decimal: string)

  function Power10(n: nat): (r: nat)
    ensures r > 0
  {
    if n == 0 then 1 else 10 * Power10(n - 1)
  }

  // Whole units and the fraction of `n` at `decimals` decimals.
  function Whole(n: nat, decimals: nat): nat {
    Quotient(n, Power10(decimals))
  }

  function Fraction(n: nat, decimals: nat): (r: nat)
    ensures r < Power10(decimals)
  {
    n % Power10(decimals)
  }

  function DigitOf(n: nat): char
    requires n < 10
  {
    '0' + n as char
  }

  predicate IsDigit(c: char) {
    '0' <= c <= '9'
  }

  // Decimal digits without leading zeros.
  function Digits(n: nat): (r: string)
    ensures r != []
  {
    if n < 10 then [DigitOf(n)] else Digits(n / 10) + [DigitOf(n % 10)]
  }

  function IntText(z: int): string {
    if z < 0 then "-" + Digits(-z) else Digits(z)
  }

  // Left padding with zeros to at least `width` characters.
  function Pad(text: string, width: nat): string {
    if |text| >= width then text else seq(width - |text|, _ => '0') + text
  }

  // ---- the view of an integer ----

  function Amount(z: int, decimals: nat): AmountView {
    var absolute := if z < 0 then -z else z;
    AmountView(IntText(z),
               (if z < 0 then "-" else "") + Digits(Whole(absolute, decimals)) + "." +
               Pad(Digits(Fraction(absolute, decimals)), decimals))
  }

  // ---- the view of a text ----

  function TrimZeros(digits: string): string {
    if digits != [] && digits[0] == '0' then TrimZeros(digits[1..]) else digits
  }

  function StripSign(text: string): string {
    if text != [] && text[0] == '-' then text[1..] else text
  }

  predicate HasSign(text: string) {
    text != [] && text[0] == '-'
  }

  predicate AllDigits(text: string) {
    forall i :: 0 <= i < |text| ==> IsDigit(text[i])
  }

  // The view of a sign and digits without leading zeros.
  function Format(negative: bool, digits: string, decimals: nat): AmountView {
    var whole :=
      if decimals == 0 then digits
      else if |digits| <= decimals then "0"
      else digits[..|digits| - decimals];
    var fractional :=
      if decimals == 0 then ""
      else if |digits| <= decimals then Pad(digits, decimals)
      else digits[|digits| - decimals..];
    var sign := if negative && digits != "0" then "-" else "";
    var decimal := if decimals == 0 then sign + whole else sign + whole + "." + fractional;
    AmountView(sign + digits, decimal)
  }

  function AmountFromText(text: string, decimals: nat): Option<AmountView> {
    var raw := StripSign(text);
    if raw == [] || !AllDigits(raw) then None
    else
      var trimmed := TrimZeros(raw);
      Some(Format(HasSign(text), if trimmed == [] then "0" else trimmed, decimals))
  }

  // ---- what the texts mean ----

  function NatValue(digits: string): nat
    requires AllDigits(digits)
  {
    if digits == [] then 0
    else 10 * NatValue(digits[..|digits| - 1]) + (digits[|digits| - 1] - '0') as nat
  }

  function IntValue(text: string): int
    requires AllDigits(StripSign(text))
  {
    if HasSign(text) then -(NatValue(StripSign(text)) as int) else NatValue(text)
  }

  lemma {:induction false} DigitsMean(n: nat)
    ensures AllDigits(Digits(n)) && NatValue(Digits(n)) == n
    ensures n > 0 ==> Digits(n)[0] != '0'
    decreases n
  {
    if n < 10 {
      assert [DigitOf(n)][..0] == [];
    } else {
      DigitsMean(n / 10);
      assert Digits(n)[..|Digits(n)| - 1] == Digits(n / 10);
    }
  }

  // Digits without a leading zero are the digits of their value.
  lemma {:induction false} MeaningDigits(digits: string)
    requires AllDigits(digits) && digits != [] && digits[0] != '0'
    ensures NatValue(digits) > 0 && Digits(NatValue(digits)) == digits
    decreases |digits|
  {
    var n := |digits| - 1;
    var init, last := digits[..n], digits[n];
    if n == 0 {
      assert NatValue(init) == 0;
      assert digits == [last];
    } else {
      MeaningDigits(init);
      assert NatValue(digits) / 10 == NatValue(init);
      assert digits == init + [last];
    }
  }

  lemma {:induction false} TrimKeepsValue(digits: string)
    requires AllDigits(digits)
    ensures AllDigits(TrimZeros(digits)) && NatValue(TrimZeros(digits)) == NatValue(digits)
    ensures TrimZeros(digits) != [] ==> TrimZeros(digits)[0] != '0'
    decreases |digits|
  {
    if digits != [] && digits[0] == '0' {
      TrimKeepsValue(digits[1..]);
      ZeroFirst(digits);
    }
  }

  lemma {:induction false} ZeroFirst(digits: string)
    requires AllDigits(digits) && digits != [] && digits[0] == '0'
    ensures NatValue(digits) == NatValue(digits[1..])
    decreases |digits|
  {
    var n := |digits| - 1;
    if n > 0 {
      ZeroFirst(digits[..n]);
      assert digits[..n][1..] == digits[1..][..n - 1];
    } else {
      assert digits[..0] == [];
    }
  }

  lemma CanonicalDigits(raw: string)
    requires AllDigits(raw)
    ensures var trimmed := TrimZeros(raw);
            (if trimmed == [] then "0" else trimmed) == Digits(NatValue(raw))
    ensures TrimZeros(raw) == [] <==> NatValue(raw) == 0
  {
    TrimKeepsValue(raw);
    if TrimZeros(raw) != [] {
      MeaningDigits(TrimZeros(raw));
    }
  }

  // ---- splitting off the fraction ----

  // Exactly `width` digits.
  function Fixed(n: nat, width: nat): (r: string)
    ensures |r| == width
  {
    if width == 0 then "" else Fixed(n / 10, width - 1) + [DigitOf(n % 10)]
  }

  lemma {:induction false} FixedZero(width: nat)
    ensures Fixed(0, width) == seq(width, _ => '0')
  {
    if width > 0 {
      FixedZero(width - 1);
    }
  }

  lemma {:induction false} PadIsFixed(n: nat, width: nat)
    requires n < Power10(width) && width > 0
    ensures |Digits(n)| <= width && Pad(Digits(n), width) == Fixed(n, width)
    decreases width
  {
    if n < 10 {
      FixedZero(width - 1);
    } else {
      PadIsFixed(n / 10, width - 1);
    }
  }

  lemma AtLeast(x: int, d: nat)
    requires x >= 1
    ensures x * d >= d
  {
    assert x * d == d + (x - 1) * d;
  }

  lemma UniqueQuotient(a: nat, r: nat, b: nat, t: nat, d: nat)
    requires a * d + r == b * d + t && r < d && t < d
    ensures a == b && r == t
  {
    assert (a - b) * d == a * d - b * d;
    assert (b - a) * d == b * d - a * d;
    if a > b {
      AtLeast(a - b, d);
    } else if b > a {
      AtLeast(b - a, d);
    }
  }

  lemma Divides(n: nat, d: nat)
    requires d > 0
    ensures n == n / d * d + n % d && n % d < d
  {
  }

  lemma WholeAndFraction(n: nat, decimals: nat)
    ensures n == Whole(n, decimals) * Power10(decimals) + Fraction(n, decimals)
    ensures n < Power10(decimals) ==> Whole(n, decimals) == 0 && Fraction(n, decimals) == n
    ensures decimals == 0 ==> Whole(n, decimals) == n && Fraction(n, decimals) == 0
  {
    var p := Power10(decimals);
    Divides(n, p);
    if n < p {
      UniqueQuotient(Whole(n, decimals), Fraction(n, decimals), 0, n, p);
    }
  }

  lemma Regroup(q: nat, p: nat, r: nat, m: nat)
    ensures 10 * (q * p + r) + m == q * (10 * p) + (10 * r + m)
  {
  }

  // Splitting one digit off first.
  lemma SplitStep(n: nat, decimals: nat)
    requires decimals > 0
    ensures Whole(n, decimals) == Whole(n / 10, decimals - 1)
    ensures Fraction(n, decimals) == 10 * Fraction(n / 10, decimals - 1) + n % 10
    ensures n >= Power10(decimals) ==> n / 10 >= Power10(decimals - 1)
  {
    var q, r, p := Whole(n / 10, decimals - 1), Fraction(n / 10, decimals - 1), Power10(decimals - 1);
    WholeAndFraction(n / 10, decimals - 1);
    WholeAndFraction(n, decimals);
    Regroup(q, p, r, n % 10);
    UniqueQuotient(Whole(n, decimals), Fraction(n, decimals), q, 10 * r + n % 10, 10 * p);
  }

  lemma LastDigit(tens: string, last: char, k: nat)
    requires k <= |tens|
    ensures var text := tens + [last];
            && text[..|text| - k - 1] == tens[..|tens| - k]
            && text[|text| - k - 1..] == tens[|tens| - k..] + [last]
  {
  }

  lemma FixedStep(n: nat, decimals: nat)
    requires decimals > 0
    ensures Fixed(Fraction(n, decimals), decimals) ==
            Fixed(Fraction(n / 10, decimals - 1), decimals - 1) + [DigitOf(n % 10)]
  {
    SplitStep(n, decimals);
    assert (10 * Fraction(n / 10, decimals - 1) + n % 10) / 10 == Fraction(n / 10, decimals - 1);
  }

  lemma {:induction false} DigitsSplit(n: nat, decimals: nat)
    requires n >= Power10(decimals)
    ensures |Digits(n)| > decimals
    ensures Digits(n)[..|Digits(n)| - decimals] == Digits(Whole(n, decimals))
    ensures Digits(n)[|Digits(n)| - decimals..] == Fixed(Fraction(n, decimals), decimals)
    decreases decimals
  {
    if decimals > 0 {
      SplitStep(n, decimals);
      DigitsSplit(n / 10, decimals - 1);
      LastDigit(Digits(n / 10), DigitOf(n % 10), decimals - 1);
      FixedStep(n, decimals);
    } else {
      WholeAndFraction(n, 0);
      assert Digits(n)[..|Digits(n)|] == Digits(n);
    }
  }

  // ---- the two views agree ----

  lemma DecimalParts(n: nat, decimals: nat)
    requires decimals > 0
    ensures var digits := Digits(n);
            && Digits(Whole(n, decimals)) ==
                 (if |digits| <= decimals then "0" else digits[..|digits| - decimals])
            && Pad(Digits(Fraction(n, decimals)), decimals) ==
                 (if |digits| <= decimals then Pad(digits, decimals) else digits[|digits| - decimals..])
  {
    PadIsFixed(Fraction(n, decimals), decimals);
    if n >= Power10(decimals) {
      DigitsSplit(n, decimals);
    } else {
      PadIsFixed(n, decimals);
      WholeAndFraction(n, decimals);
    }
  }

  lemma ZeroDigits(n: nat)
    ensures Digits(n) == "0" <==> n == 0
  {
    DigitsMean(n);
  }

  function Signed(negative: bool, n: nat): int {
    if negative then -(n as int) else n
  }

  function Sign(negative: bool): string {
    if negative then "-" else ""
  }

  // An integer that is not negative zero.
  lemma AmountParts(negative: bool, n: nat, decimals: nat)
    ensures Amount(Signed(negative, n), decimals) ==
            AmountView(Sign(negative && n != 0) + Digits(n),
                       Sign(negative && n != 0) + Digits(Whole(n, decimals)) + "." +
                       Pad(Digits(Fraction(n, decimals)), decimals))
  {
  }

  lemma FormatParts(negative: bool, n: nat, decimals: nat)
    requires decimals > 0
    ensures Format(negative, Digits(n), decimals) ==
            AmountView(Sign(negative && n != 0) + Digits(n),
                       Sign(negative && n != 0) + Digits(Whole(n, decimals)) + "." +
                       Pad(Digits(Fraction(n, decimals)), decimals))
  {
    ZeroDigits(n);
    DecimalParts(n, decimals);
  }

  lemma FormatWithoutDecimals(negative: bool, n: nat)
    ensures |Format(negative, Digits(n), 0).decimal| < |Amount(Signed(negative, n), 0).decimal|
  {
    ZeroDigits(n);
    WholeAndFraction(n, 0);
    AmountParts(negative, n, 0);
  }

  lemma FormatIsAmount(negative: bool, n: nat, decimals: nat)
    ensures Format(negative, Digits(n), decimals) == Amount(Signed(negative, n), decimals)
            <==> decimals > 0
  {
    if decimals > 0 {
      AmountParts(negative, n, decimals);
      FormatParts(negative, n, decimals);
    } else {
      FormatWithoutDecimals(negative, n);
    }
  }

  /** A text has a view exactly when it is an optionally signed integer; with at
      least one decimal that is the view of the integer, of whatever size, and
      with none it lacks the fraction the other one shows. */
  lemma TextViewExact(text: string, decimals: nat)
    ensures AmountFromText(text, decimals).Some? <==> StripSign(text) != [] && AllDigits(StripSign(text))
    ensures AmountFromText(text, decimals).Some? ==>
              (AmountFromText(text, decimals).value == Amount(IntValue(text), decimals) <==> decimals > 0)
  {
    if StripSign(text) != [] && AllDigits(StripSign(text)) {
      CanonicalDigits(StripSign(text));
      FormatIsAmount(HasSign(text), NatValue(StripSign(text)), decimals);
    }
  }

  lemma TextMeans(z: int)
    ensures StripSign(IntText(z)) != [] && AllDigits(StripSign(IntText(z))) && IntValue(IntText(z)) == z
  {
    DigitsMean(if z < 0 then -z else z);
  }

  /** The text of an integer and the integer itself have the same view. */
  lemma ViewsAgree(z: int, decimals: nat)
    requires decimals > 0
    ensures AmountFromText(IntText(z), decimals) == Some(Amount(z, decimals))
  {
    TextMeans(z);
    TextViewExact(IntText(z), decimals);
  }

  // ---- reading a view back ----

  // The decimal text without its point.
  function Unpointed(decimal: string, decimals: nat): string
    requires |decimal| > decimals
  {
    decimal[..|decimal| - decimals - 1] + decimal[|decimal| - decimals..]
  }

  lemma {:induction false} ValueOfConcat(a: string, b: string)
    requires AllDigits(a) && AllDigits(b)
    ensures AllDigits(a + b) && NatValue(a + b) == NatValue(a) * Power10(|b|) + NatValue(b)
    decreases |b|
  {
    if b == [] {
      assert a + b == a;
    } else {
      var init := b[..|b| - 1];
      ValueOfConcat(a, init);
      assert (a + b)[..|a + b| - 1] == a + init;
      assert 10 * (NatValue(a) * Power10(|init|)) == NatValue(a) * (10 * Power10(|init|));
    }
  }

  lemma {:induction false} FixedMeans(n: nat, width: nat)
    requires n < Power10(width)
    ensures AllDigits(Fixed(n, width)) && NatValue(Fixed(n, width)) == n
    decreases width
  {
    if width > 0 {
      FixedMeans(n / 10, width - 1);
      assert Fixed(n, width)[..width - 1] == Fixed(n / 10, width - 1);
    }
  }

  lemma UnpointedIs(sign: string, whole: string, fractional: string)
    ensures var decimal := sign + whole + "." + fractional;
            && decimal[|decimal| - |fractional| - 1] == '.'
            && Unpointed(decimal, |fractional|) == sign + (whole + fractional)
  {
    var decimal := sign + whole + "." + fractional;
    assert decimal[|decimal| - |fractional|..] == fractional;
    assert decimal[..|decimal| - |fractional| - 1] == sign + whole;
    assert (sign + whole) + fractional == sign + (whole + fractional);
  }

  lemma SignedMeans(negative: bool, digits: string)
    requires digits != [] && AllDigits(digits)
    ensures var text := (if negative then "-" else "") + digits;
            && AllDigits(StripSign(text))
            && IntValue(text) == if negative then -(NatValue(digits) as int) else NatValue(digits)
  {
    if negative {
      assert ("-" + digits)[1..] == digits;
    } else {
      assert "" + digits == digits && IsDigit(digits[0]);
    }
  }

  /** Both texts of a view read back to the exact integer. */
  lemma ViewReadsBack(z: int, decimals: nat)
    requires decimals > 0
    ensures var view := Amount(z, decimals);
            && AllDigits(StripSign(view.zatoshi)) && IntValue(view.zatoshi) == z
            && |view.decimal| > decimals
            && view.decimal[|view.decimal| - decimals - 1] == '.'
            && AllDigits(StripSign(Unpointed(view.decimal, decimals)))
            && IntValue(Unpointed(view.decimal, decimals)) == z
  {
    TextMeans(z);
    var n := if z < 0 then -z else z;
    PadIsFixed(Fraction(n, decimals), decimals);
    PartsMean(n, decimals);
    UnpointedIs(if z < 0 then "-" else "", Digits(Whole(n, decimals)), Fixed(Fraction(n, decimals), decimals));
    SignedMeans(z < 0, Digits(Whole(n, decimals)) + Fixed(Fraction(n, decimals), decimals));
  }

  lemma PartsMean(n: nat, decimals: nat)
    ensures var text := Digits(Whole(n, decimals)) + Fixed(Fraction(n, decimals), decimals);
            AllDigits(text) && NatValue(text) == n
  {
    DigitsMean(Whole(n, decimals));
    FixedMeans(Fraction(n, decimals), decimals);
    ValueOfConcat(Digits(Whole(n, decimals)), Fixed(Fraction(n, decimals), decimals));
    WholeAndFraction(n, decimals);
  }
}
