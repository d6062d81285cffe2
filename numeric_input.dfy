/**
 * `validateInput` of Table.js: the raw text of a value input becomes the
 * number handed to `updateCategoryValue`. Text that JavaScript's
 * `parseFloat` cannot read, or reads as negative, becomes 0; otherwise the
 * text is cut two characters after its first '.' and read again.
 *
 * `parseFloat` is modelled on decimal numerals: an optional sign, digits,
 * an optional '.' and more digits, read from the start of the text for as
 * long as they continue (what follows is ignored).
 */
module NumericInput {
  import opened Wrappers

  predicate IsDigit(c: char)
  {
    '0' <= c <= '9'
  }

  predicate AllDigits(s: string)
  {
    forall k :: 0 <= k < |s| ==> IsDigit(s[k])
  }

  function DigitsValue(ds: string): nat
    requires AllDigits(ds)
  {
    if ds == [] then 0 else DigitsValue(ds[..|ds| - 1]) * 10 + (ds[|ds| - 1] as int - '0' as int)
  }

  function Pow10(n: nat): (p: nat)
    ensures 1 <= p
  {
    if n == 0 then 1 else 10 * Pow10(n - 1)
  }

  /** The value of the digits after a decimal point. */
  function Fraction(ds: string): real
    requires AllDigits(ds)
  {
    DigitsValue(ds) as real / Pow10(|ds|) as real
  }

  /** The length of the run of digits that starts at i: all of it digits,
      and it stops at the end of s or at a character that is not a digit. */
  function DigitRun(s: string, i: nat): (n: nat)
    requires i <= |s|
    ensures i + n <= |s|
    ensures forall k :: i <= k < i + n ==> IsDigit(s[k])
    ensures i + n == |s| || !IsDigit(s[i + n])
    decreases |s| - i
  {
    if i < |s| && IsDigit(s[i]) then 1 + DigitRun(s, i + 1) else 0
  }

  /** A numeral as `parseFloat` reads it. */
  datatype Numeral = Numeral(negative: bool, whole: string, fraction: string)
  {
    predicate HasDigits()
    {
      whole != [] || fraction != []
    }

    predicate WellFormed()
    {
      AllDigits(whole) && AllDigits(fraction)
    }

    function Magnitude(): real
      requires WellFormed()
    {
      DigitsValue(whole) as real + Fraction(fraction)
    }

    function Value(): real
      requires WellFormed()
    {
      if negative then -Magnitude() else Magnitude()
    }
  }

  // Where the numeral at the start of a text begins and ends: an optional
  // sign, a run of digits, and, when a '.' follows, a second run of digits.

  function SignLength(s: string): nat
  {
    if 0 < |s| && (s[0] == '-' || s[0] == '+') then 1 else 0
  }

  function WholeEnd(s: string): (e: nat)
    ensures SignLength(s) <= e <= |s|
  {
    SignLength(s) + DigitRun(s, SignLength(s))
  }

  predicate HasPoint(s: string)
  {
    WholeEnd(s) < |s| && s[WholeEnd(s)] == '.'
  }

  function NumeralEnd(s: string): (f: nat)
    ensures WholeEnd(s) <= f <= |s|
    ensures HasPoint(s) ==> WholeEnd(s) < f
  {
    if HasPoint(s) then WholeEnd(s) + 1 + DigitRun(s, WholeEnd(s) + 1) else WholeEnd(s)
  }

  /** The longest numeral at the start of s. */
  function LeadingNumeral(s: string): (n: Numeral)
    ensures n.WellFormed()
  {
    Numeral(
      SignLength(s) == 1 && s[0] == '-',
      s[SignLength(s)..WholeEnd(s)],
      if HasPoint(s) then s[WholeEnd(s) + 1 .. NumeralEnd(s)] else "")
  }

  /** JavaScript's `parseFloat` on the modelled numerals: NaN (None) unless
      the text starts, after an optional sign, with a digit or with a '.'
      and a digit; only a leading '-' gives a negative number. */
  function ParseFloat(s: string): (r: Option<real>)
    ensures r.Some? <==>
              || (SignLength(s) < |s| && IsDigit(s[SignLength(s)]))
              || (SignLength(s) + 1 < |s| && s[SignLength(s)] == '.' && IsDigit(s[SignLength(s) + 1]))
    ensures r.Some? && r.value < 0.0 ==> s[0] == '-'
  {
    var n := LeadingNumeral(s);
    NumeralHasDigitsExactly(s);
    NegativeNumeralHasMinus(n);
    if n.HasDigits() then Some(n.Value()) else None
  }

  lemma NumeralHasDigitsExactly(s: string)
    ensures LeadingNumeral(s).HasDigits() <==>
              || (SignLength(s) < |s| && IsDigit(s[SignLength(s)]))
              || (SignLength(s) + 1 < |s| && s[SignLength(s)] == '.' && IsDigit(s[SignLength(s) + 1]))
  {
  }

  lemma NegativeNumeralHasMinus(n: Numeral)
    requires n.WellFormed()
    ensures n.Value() < 0.0 ==> n.negative
  {
    assert 0.0 <= Fraction(n.fraction);
  }

  /** JavaScript's `indexOf` for one character: the first position holding
      c, or -1 when there is none. */
  function IndexOf(s: string, c: char): (r: int)
    ensures -1 <= r < |s|
    ensures r == -1 ==> forall k :: 0 <= k < |s| ==> s[k] != c
    ensures 0 <= r ==> s[r] == c && forall k :: 0 <= k < r ==> s[k] != c
  {
    if s == [] then -1
    else if s[0] == c then 0
    else
      var r := IndexOf(s[1..], c);
      if r == -1 then -1 else r + 1
  }

  /** The cut of lines 25 to 30: when the first '.' is followed by more than
      two characters, keep the text up to two characters after it. */
  function CutAfterCents(s: string): (r: string)
    ensures r <= s
    ensures IndexOf(r, '.') == IndexOf(s, '.')
    ensures IndexOf(r, '.') != -1 ==> |r| <= IndexOf(r, '.') + 3
    ensures IndexOf(s, '.') != -1 && IndexOf(s, '.') + 3 < |s| ==> |r| == IndexOf(s, '.') + 3
    ensures IndexOf(s, '.') == -1 || |s| <= IndexOf(s, '.') + 3 ==> r == s
  {
    var d := IndexOf(s, '.');
    if d != -1 && d + 3 < |s| then
      assert s[..d + 3][d] == '.';
      s[..d + 3]
    else s
  }

  /** The reference meaning of the cut: truncation toward zero to a whole
      number of cents. */
  function TruncateToCents(x: real): real
  {
    (x * 100.0).Floor as real / 100.0
  }

  /** `validateInput`: the value passed on to `updateCategoryValue`. It is
      never negative; it is 0 when `parseFloat` fails or reads a negative
      number, and otherwise the number read, truncated (not rounded) to
      cents. */
  function ValidateInput(raw: string): (r: real)
    ensures 0.0 <= r
    ensures r == match ParseFloat(raw)
                 case None => 0.0
                 case Some(v) => if v < 0.0 then 0.0 else TruncateToCents(v)
  {
    match ParseFloat(raw)
    case None => 0.0
    case Some(v) =>
      if v < 0.0 then 0.0
      else
        CutReadsTruncatedCents(raw);
        SignedCentsOfNonNegative(LeadingNumeral(raw));
        ParseFloat(CutAfterCents(raw)).value
  }

  // ---------------------------------------------------------------------
  // Digits and powers of ten

  lemma {:induction false} Pow10Add(a: nat, b: nat)
    ensures Pow10(a + b) == Pow10(a) * Pow10(b)
    decreases b
  {
    if b > 0 {
      Pow10Add(a, b - 1);
    }
  }

  lemma {:induction false} DigitsValueConcat(a: string, b: string)
    requires AllDigits(a) && AllDigits(b)
    ensures AllDigits(a + b)
    ensures DigitsValue(a + b) == DigitsValue(a) * Pow10(|b|) + DigitsValue(b)
    decreases |b|
  {
    if b == [] {
      assert a + b == a;
    } else {
      var n := |b| - 1;
      var c := a + b;
      assert c[..|c| - 1] == a + b[..n];
      assert c[|c| - 1] == b[n];
      DigitsValueConcat(a, b[..n]);
      var d := b[n] as int - '0' as int;
      assert DigitsValue(c) == DigitsValue(a + b[..n]) * 10 + d;
      assert DigitsValue(b) == DigitsValue(b[..n]) * 10 + d;
      ShiftOneDigit(DigitsValue(a), DigitsValue(b[..n]), Pow10(n), d);
    }
  }

  /** Appending one digit d to the second part of a split numeral. */
  lemma ShiftOneDigit(va: int, vb: int, p: int, d: int)
    ensures (va * p + vb) * 10 + d == va * (p * 10) + (vb * 10 + d)
  {
  }

  lemma {:induction false} DigitsValueBound(ds: string)
    requires AllDigits(ds)
    ensures DigitsValue(ds) < Pow10(|ds|)
    decreases |ds|
  {
    if ds != [] {
      DigitsValueBound(ds[..|ds| - 1]);
    }
  }

  // ---------------------------------------------------------------------
  // Reading a prefix of the text

  /** Cutting the text at k shortens the run of digits from i to at most
      k - i characters and otherwise leaves it alone. */
  lemma {:induction false} DigitRunPrefix(s: string, i: nat, k: nat)
    requires i <= k <= |s|
    ensures DigitRun(s[..k], i) == if DigitRun(s, i) <= k - i then DigitRun(s, i) else k - i
    decreases |s| - i
  {
    if i < k && IsDigit(s[i]) {
      DigitRunPrefix(s, i + 1, k);
    }
  }

  /** A cut at or past the end of the whole part keeps the sign and the
      whole part where they were. */
  lemma PrefixKeepsWholePart(s: string, k: nat)
    requires WholeEnd(s) <= k <= |s|
    ensures SignLength(s[..k]) == SignLength(s) && WholeEnd(s[..k]) == WholeEnd(s)
    ensures 0 < k ==> s[..k][0] == s[0]
    ensures s[..k][SignLength(s)..WholeEnd(s)] == s[SignLength(s)..WholeEnd(s)]
  {
    DigitRunPrefix(s, SignLength(s), k);
  }

  /** A cut at or past the end of the numeral keeps the numeral's end. */
  lemma PrefixKeepsNumeralEnd(s: string, k: nat)
    requires NumeralEnd(s) <= k <= |s|
    ensures HasPoint(s[..k]) == HasPoint(s) && NumeralEnd(s[..k]) == NumeralEnd(s)
  {
    var e := WholeEnd(s);
    PrefixKeepsWholePart(s, k);
    if HasPoint(s) {
      DigitRunPrefix(s, e + 1, k);
    }
  }

  /** Cutting the text at or past the end of its numeral reads the same
      numeral. */
  lemma PrefixReadsSameNumeral(s: string, k: nat)
    requires NumeralEnd(s) <= k <= |s|
    ensures LeadingNumeral(s[..k]) == LeadingNumeral(s)
  {
    var t := s[..k];
    PrefixKeepsWholePart(s, k);
    PrefixKeepsNumeralEnd(s, k);
    if HasPoint(s) {
      var a, b := WholeEnd(s) + 1, NumeralEnd(s);
      assert a <= b <= k;
      assert t[a..b] == s[a..b];
    }
  }

  /** Cutting the text two places after its decimal point, inside a longer
      run of fractional digits, reads the same numeral with only the first
      two of them. */
  lemma CutReadsTwoFractionDigits(s: string)
    requires HasPoint(s) && WholeEnd(s) + 3 < NumeralEnd(s)
    ensures var n := LeadingNumeral(s);
            LeadingNumeral(s[..WholeEnd(s) + 3]) == n.(fraction := n.fraction[..2])
  {
    var n := LeadingNumeral(s);
    var e := WholeEnd(s);
    var k := e + 3;
    var t := s[..k];
    PrefixKeepsWholePart(s, k);
    assert HasPoint(t);
    DigitRunPrefix(s, e + 1, k);
    assert NumeralEnd(t) == k;
    SliceOfPrefix(s, e + 1, k, k);
    PrefixOfSlice(s, e + 1, NumeralEnd(s), 2);
  }

  lemma SliceOfPrefix<T>(s: seq<T>, a: nat, b: nat, k: nat)
    requires a <= b <= k <= |s|
    ensures s[..k][a..b] == s[a..b]
  {
  }

  lemma PrefixOfSlice<T>(s: seq<T>, a: nat, f: nat, m: nat)
    requires a + m <= f <= |s|
    ensures s[a..f][..m] == s[a..a + m]
  {
  }

  /** The first '.' of the text is the numeral's decimal point when it has
      one, and lies past the numeral when it has none. */
  lemma FirstPointOfText(s: string)
    ensures HasPoint(s) ==> IndexOf(s, '.') == WholeEnd(s)
    ensures !HasPoint(s) ==> IndexOf(s, '.') == -1 || NumeralEnd(s) < IndexOf(s, '.')
  {
    var a, e := SignLength(s), WholeEnd(s);
    assert forall k :: a <= k < e ==> IsDigit(s[k]);
    assert forall k :: 0 <= k < e ==> s[k] != '.';
  }

  // ---------------------------------------------------------------------
  // Truncation to cents

  lemma FloorOfWholeAndPart(w: int, x: real)
    requires 0.0 <= x < 1.0
    ensures (w as real + x).Floor == w
  {
  }

  lemma DivideByHundredths(x: real, p: real)
    requires 0.0 < p
    ensures x / (100.0 * p) * 100.0 == x / p
  {
  }

  lemma DivideSplits(h: real, r: real, p: real)
    requires 0.0 < p
    ensures (h * p + r) / p == h + r / p
  {
  }

  lemma DivideBelowOne(r: real, p: real)
    requires 0.0 <= r < p
    ensures 0.0 <= r / p < 1.0
  {
  }

  lemma ScaleToCents(f: real, a: real, q: real)
    requires 0.0 < a && a * q == 100.0
    ensures f / a * 100.0 == f * q
  {
  }

  /** A numeral with at most two fractional digits is a whole number of
      cents already. */
  lemma CentsAreExact(n: Numeral)
    requires n.WellFormed() && |n.fraction| <= 2
    ensures TruncateToCents(n.Magnitude()) == n.Magnitude()
  {
    var m := |n.fraction|;
    var w, f := DigitsValue(n.whole), DigitsValue(n.fraction);
    var q := Pow10(2 - m);
    Pow10Add(m, 2 - m);
    assert Pow10(m) * q == 100;
    var cents: int := w * 100 + f * q;
    assert Fraction(n.fraction) * 100.0 == (f * q) as real by {
      ScaleToCents(f as real, Pow10(m) as real, q as real);
    }
    assert n.Magnitude() * 100.0 == cents as real;
    FloorOfWholeAndPart(cents, 0.0);
  }

  /** Fractional digits are worth less than one. */
  lemma FractionBelowOne(ds: string)
    requires AllDigits(ds)
    ensures 0.0 <= Fraction(ds) < 1.0
  {
    DigitsValueBound(ds);
    DivideBelowOne(DigitsValue(ds) as real, Pow10(|ds|) as real);
  }

  /** Shifting a fraction two places left brings its first two digits
      before the point and leaves the rest as a fraction. */
  lemma FractionShift(ds: string)
    requires AllDigits(ds) && 2 < |ds|
    ensures Fraction(ds) * 100.0 == DigitsValue(ds[..2]) as real + Fraction(ds[2..])
  {
    SplitAfterTwoDigits(ds);
    ShiftByHundred(DigitsValue(ds), Pow10(|ds|), DigitsValue(ds[..2]), DigitsValue(ds[2..]), Pow10(|ds| - 2));
  }

  /** The digits of ds are its first two digits followed by the rest. */
  lemma SplitAfterTwoDigits(ds: string)
    requires AllDigits(ds) && 2 < |ds|
    ensures DigitsValue(ds) == DigitsValue(ds[..2]) * Pow10(|ds| - 2) + DigitsValue(ds[2..])
    ensures Pow10(|ds|) == 100 * Pow10(|ds| - 2)
  {
    assert ds == ds[..2] + ds[2..];
    DigitsValueConcat(ds[..2], ds[2..]);
    Pow10Add(2, |ds| - 2);
    assert Pow10(2) == 100;
  }

  /** A value d = h p + r over q = 100 p, scaled by 100, is h + r / p. */
  lemma ShiftByHundred(d: int, q: int, h: int, r: int, p: int)
    requires 0 < p && d == h * p + r && q == 100 * p
    ensures d as real / q as real * 100.0 == h as real + r as real / p as real
  {
    var hr, rr, pr := h as real, r as real, p as real;
    assert d as real == hr * pr + rr;
    assert q as real == 100.0 * pr;
    DivideByHundredths(hr * pr + rr, pr);
    DivideSplits(hr, rr, pr);
  }

  /** Truncating a numeral with more than two fractional digits to cents
      keeps exactly its first two fractional digits. */
  lemma CentsDropLaterDigits(n: Numeral)
    requires n.WellFormed() && 2 < |n.fraction|
    ensures TruncateToCents(n.Magnitude()) == n.(fraction := n.fraction[..2]).Magnitude()
  {
    var head, rest := n.fraction[..2], n.fraction[2..];
    FractionShift(n.fraction);
    FractionBelowOne(rest);
    var cents := DigitsValue(n.whole) * 100 + DigitsValue(head);
    assert n.Magnitude() * 100.0 == cents as real + Fraction(rest);
    FloorOfWholeAndPart(cents, Fraction(rest));
    assert Pow10(2) == 100;
    assert n.(fraction := head).Magnitude() == cents as real / 100.0;
  }

  /** Where the fraction runs past two digits, the cut text holds the
      numeral with its first two fractional digits only. */
  lemma CutShortensLongFraction(s: string)
    requires HasPoint(s) && WholeEnd(s) + 3 < NumeralEnd(s)
    ensures var n := LeadingNumeral(s);
            LeadingNumeral(CutAfterCents(s)) == n.(fraction := n.fraction[..2])
  {
    FirstPointOfText(s);
    assert CutAfterCents(s) == s[..WholeEnd(s) + 3];
    CutReadsTwoFractionDigits(s);
  }

  /** Otherwise the cut, if it happens at all, falls past the numeral. */
  lemma CutKeepsShortNumeral(s: string)
    requires !(HasPoint(s) && WholeEnd(s) + 3 < NumeralEnd(s))
    ensures LeadingNumeral(CutAfterCents(s)) == LeadingNumeral(s)
  {
    var d := IndexOf(s, '.');
    FirstPointOfText(s);
    if CutAfterCents(s) != s {
      assert d != -1 && d + 3 < |s| && CutAfterCents(s) == s[..d + 3];
      assert NumeralEnd(s) <= d + 3;
      PrefixReadsSameNumeral(s, d + 3);
    }
  }

  /** A numeral read as a number that is not negative has the same
      truncation with or without its sign: "-0.001" is excluded by the
      caller, "-0.00" truncates to 0 either way. */
  lemma SignedCentsOfNonNegative(n: Numeral)
    requires n.WellFormed() && 0.0 <= n.Value()
    ensures var t := TruncateToCents(n.Magnitude());
            (if n.negative then -t else t) == TruncateToCents(n.Value())
    ensures 0.0 <= TruncateToCents(n.Value())
  {
    assert 0.0 <= Fraction(n.fraction);
  }

  /** Reading the cut text gives the numeral's sign and its magnitude
      truncated to cents. */
  lemma CutReadsTruncatedCents(s: string)
    requires ParseFloat(s).Some?
    ensures var n := LeadingNumeral(s);
            var t := TruncateToCents(n.Magnitude());
            ParseFloat(CutAfterCents(s)) == Some(if n.negative then -t else t)
  {
    var n := LeadingNumeral(s);
    var m := LeadingNumeral(CutAfterCents(s));
    if HasPoint(s) && WholeEnd(s) + 3 < NumeralEnd(s) {
      CutShortensLongFraction(s);
      CentsDropLaterDigits(n);
      assert m.HasDigits();
    } else {
      CutKeepsShortNumeral(s);
      CentsAreExact(n);
    }
    assert m.negative == n.negative && m.Magnitude() == TruncateToCents(n.Magnitude());
    assert ParseFloat(CutAfterCents(s)) == Some(m.Value());
  }

  /** Text with no '.', or with at most two digits after it, is passed on
      as the number it reads. */
  lemma ValidateInputKeepsCents(raw: string)
    requires ParseFloat(raw).Some? && 0.0 <= ParseFloat(raw).value
    requires |LeadingNumeral(raw).fraction| <= 2
    ensures ValidateInput(raw) == ParseFloat(raw).value
  {
    var n := LeadingNumeral(raw);
    CentsAreExact(n);
    SignedCentsOfNonNegative(n);
  }

  /** The value passed on is never more than the number read, and less
      than one cent below it. */
  lemma ValidateInputWithinACent(raw: string)
    requires ParseFloat(raw).Some? && 0.0 <= ParseFloat(raw).value
    ensures ValidateInput(raw) <= ParseFloat(raw).value < ValidateInput(raw) + 0.01
  {
    var v := ParseFloat(raw).value;
    var c := (v * 100.0).Floor;
    assert c as real <= v * 100.0 < c as real + 1.0;
  }

  // ---------------------------------------------------------------------
  // Examples

  /** "12.345" is cut to 12.34: truncated, not rounded to 12.35. */
  lemma TruncationExample()
    ensures ValidateInput("12.345") == 12.34
  {
    ReadsExampleNumeral();
    assert DigitsValue("12") == 12;
    assert DigitsValue("345") == 345;
    assert Pow10(3) == 1000;
    assert ParseFloat("12.345") == Some(12.345);
    assert (12.345 * 100.0).Floor == 1234;
  }

  lemma ReadsExampleNumeral()
    ensures LeadingNumeral("12.345") == Numeral(false, "12", "345")
  {
    var s := "12.345";
    assert DigitRun(s, 6) == 0;
    assert DigitRun(s, 3) == 3;
    assert DigitRun(s, 2) == 0;
    assert DigitRun(s, 0) == 2;
  }

  /** "250.999" becomes 250.99. */
  lemma SecondTruncationExample()
    ensures ValidateInput("250.999") == 250.99
  {
    ReadsSecondExampleNumeral();
    assert DigitsValue("25") == 25;
    assert DigitsValue("250") == 250;
    assert DigitsValue("99") == 99;
    assert DigitsValue("999") == 999;
    assert Pow10(3) == 1000;
    assert ParseFloat("250.999") == Some(250.999);
    assert (250.999 * 100.0).Floor == 25099;
  }

  lemma ReadsSecondExampleNumeral()
    ensures LeadingNumeral("250.999") == Numeral(false, "250", "999")
  {
    var s := "250.999";
    assert DigitRun(s, 7) == 0;
    assert DigitRun(s, 6) == 1;
    assert DigitRun(s, 5) == 2;
    assert DigitRun(s, 4) == 3;
    assert DigitRun(s, 3) == 0;
    assert DigitRun(s, 2) == 1;
    assert DigitRun(s, 1) == 2;
    assert DigitRun(s, 0) == 3;
  }

  /** An exponent after a '.' does not survive the cut: "1.5e3" is cut to
      "1.5e", which reads as 1.5. */
  lemma ExponentCutExample()
    ensures CutAfterCents("1.5e3") == "1.5e"
    ensures ValidateInput("1.5e3") == 1.5
  {
    assert IndexOf("1.5e3", '.') == 1;
    ReadsExponentNumeral();
    assert DigitsValue("1") == 1;
    assert DigitsValue("5") == 5;
    assert Pow10(1) == 10;
    assert ParseFloat("1.5e3") == Some(1.5);
    assert (1.5 * 100.0).Floor == 150;
  }

  lemma ReadsExponentNumeral()
    ensures LeadingNumeral("1.5e3") == Numeral(false, "1", "5")
  {
    var s := "1.5e3";
    assert DigitRun(s, 3) == 0;
    assert DigitRun(s, 2) == 1;
    assert DigitRun(s, 1) == 0;
    assert DigitRun(s, 0) == 1;
  }

  /** A negative number and text with no number both become 0. */
  lemma CoercionExamples()
    ensures ValidateInput("-5") == 0.0
    ensures ValidateInput("abc") == 0.0
    ensures ValidateInput("") == 0.0
  {
    assert LeadingNumeral("-5") == Numeral(true, "5", "");
    assert LeadingNumeral("abc") == Numeral(false, "", "");
  }
}
