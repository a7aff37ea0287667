/** Numerals: what `strtod` converts, as far as the double is an exact integer, and what `is_decimal` lets pass. */
module Numerals {
  import opened Arithmetic
  import opened Bytes
  import opened Json

  const PLUS: byte := 0x2B
  const POINT: byte := 0x2E
  const ZERO: byte := 0x30

  predicate IsDigit(c: byte) {
    0x30 <= c <= 0x39
  }

  /** `c` is the lower-case `letter`, or the upper-case form of it. */
  predicate IsLetter(c: byte, letter: byte) {
    c == letter || c + 0x20 == letter
  }

  predicate IsHexDigit(c: byte) {
    IsDigit(c) || 0x41 <= c <= 0x46 || 0x61 <= c <= 0x66
  }

  predicate AllDigits(d: seq<byte>) {
    forall k :: 0 <= k < |d| ==> IsDigit(d[k])
  }

  function DigitsEnd(s: CString, i: nat): (e: nat)
    requires i <= |s|
    ensures i <= e <= |s| && !IsDigit(At(s, e)) && forall k :: i <= k < e ==> IsDigit(s[k])
    decreases |s| - i
  {
    if IsDigit(At(s, i)) then DigitsEnd(s, i + 1) else i
  }

  function DigitsValue(d: seq<byte>): nat
    requires AllDigits(d)
  {
    if d == [] then 0 else assert IsDigit(d[|d| - 1]); DigitsValue(d[..|d| - 1]) * 10 + (d[|d| - 1] as int - 0x30)
  }

  // --- Numerals, and the numbers they stand for ---

  /** A decimal numeral; without a point `frac` is `None`. */
  datatype Figures = Figures(neg: bool, whole: seq<byte>, frac: Option<seq<byte>>, exp: Option<Exponent>)

  datatype Exponent = Exponent(letter: byte, sign: seq<byte>, digits: seq<byte>)

  function Sign(neg: bool): seq<byte> {
    if neg then [MINUS] else []
  }

  function FractionText(frac: Option<seq<byte>>): seq<byte> {
    if frac.None? then [] else [POINT] + frac.value
  }

  function ExponentText(exp: Option<Exponent>): seq<byte> {
    if exp.None? then [] else [exp.value.letter] + exp.value.sign + exp.value.digits
  }

  function FiguresText(f: Figures): seq<byte> {
    Sign(f.neg) + f.whole + FractionText(f.frac) + ExponentText(f.exp)
  }

  /** The syntax of a decimal numeral: digits on some side of the point, digits in the exponent. */
  predicate Shaped(f: Figures) {
    && AllDigits(f.whole) && (f.frac.Some? ==> AllDigits(f.frac.value)) && (f.exp.Some? ==> ShapedExponent(f.exp.value))
    && (f.whole == [] ==> f.frac.Some? && f.frac.value != [])
  }

  predicate ShapedExponent(x: Exponent) {
    IsLetter(x.letter, 0x65) && (x.sign == [] || x.sign == [PLUS] || x.sign == [MINUS]) && x.digits != [] && AllDigits(x.digits)
  }

  function PowerOfTen(k: nat): (p: nat)
    ensures p > 0
  {
    if k == 0 then 1 else 10 * PowerOfTen(k - 1)
  }

  /** `m * 10^k`, if that is an integer. */
  function Scaled(m: nat, k: int): Option<nat> {
    if k >= 0 then Some(m * PowerOfTen(k))
    else if m % PowerOfTen(-k) == 0 then Some(m / PowerOfTen(-k))
    else None
  }

  /** All digits of a numeral, without the point. */
  function Mantissa(f: Figures): nat
    requires Shaped(f)
  {
    DigitsValue(f.whole + if f.frac.None? then [] else f.frac.value)
  }

  /** The power of ten by which the mantissa counts. */
  function Power(f: Figures): int
    requires Shaped(f)
  {
    ExponentValue(f.exp) - if f.frac.None? then 0 else |f.frac.value|
  }

  function ExponentValue(exp: Option<Exponent>): int
    requires exp.Some? ==> AllDigits(exp.value.digits)
  {
    if exp.None? then 0
    else
      var n: int := DigitsValue(exp.value.digits);
      if exp.value.sign == [MINUS] then -n else n
  }

  function Signed(neg: bool, n: int): int {
    if neg then -n else n
  }

  /** The double a conversion gives: an integer that is exact, an infinity or a NaN, or any other. */
  datatype Double = Whole(n: int) | NotFinite | Other

  function DoubleOf(f: Figures): Double
    requires Shaped(f)
  {
    match Scaled(Mantissa(f), Power(f))
    case Some(n) => if n < EXACT then Whole(Signed(f.neg, n)) else Other
    case None => Other
  }

  lemma {:induction false} PowersMultiply(a: nat, b: nat)
    ensures PowerOfTen(a + b) == PowerOfTen(a) * PowerOfTen(b)
    decreases a
  {
    if a > 0 {
      PowersMultiply(a - 1, b);
      assert 10 * PowerOfTen(a - 1) * PowerOfTen(b) == 10 * (PowerOfTen(a - 1) * PowerOfTen(b));
    }
  }

  lemma AppendDigit(a: seq<byte>, c: byte)
    requires AllDigits(a) && IsDigit(c)
    ensures AllDigits(a + [c]) && DigitsValue(a + [c]) == DigitsValue(a) * 10 + (c as int - 0x30)
  {
    assert (a + [c])[..|a|] == a;
  }

  /** Each digit behind them counts ten times less. */
  lemma {:induction false} DigitsJoin(a: seq<byte>, b: seq<byte>)
    requires AllDigits(a) && AllDigits(b)
    ensures AllDigits(a + b) && DigitsValue(a + b) == DigitsValue(a) * PowerOfTen(|b|) + DigitsValue(b)
    decreases |b|
  {
    hide DigitsValue, IsDigit;
    if b == [] {
      assert a + b == a && DigitsValue(b) == 0 by { NoDigits(); }
    } else {
      var front, c := b[..|b| - 1], b[|b| - 1];
      assert b == front + [c] && a + b == (a + front) + [c];
      DigitsJoin(a, front);
      AppendDigit(front, c);
      AppendDigit(a + front, c);
      TenTimes(DigitsValue(a), PowerOfTen(|front|), DigitsValue(front));
    }
  }

  lemma NoDigits()
    ensures DigitsValue([]) == 0
  {
  }

  lemma TenTimes(a: nat, p: nat, b: nat)
    ensures (a * p + b) * 10 == a * (10 * p) + b * 10
  {
  }

  lemma ScaledIff(m: nat, k: int, n: int)
    ensures n >= 0 && Scaled(m, k) == Some(n) <==> if k >= 0 then n == m * PowerOfTen(k) else n * PowerOfTen(-k) == m
  {
    hide PowerOfTen;
    if k >= 0 {
      NotNegative(m, PowerOfTen(k));
    } else {
      QuotientIff(n, PowerOfTen(-k), m);
    }
  }

  /** Both sides of `n == m * 10^(up - down)` times powers of ten. */
  lemma ScaledByBoth(m: nat, up: nat, down: nat, n: int)
    ensures n >= 0 && Scaled(m, up - down) == Some(n) <==> n * PowerOfTen(down) == m * PowerOfTen(up)
  {
    hide PowerOfTen, Scaled;
    var k := up - down;
    ScaledIff(m, k, n);
    if k >= 0 {
      PowersMultiply(k, down);
      Cancels(n, m * PowerOfTen(k), PowerOfTen(down));
      TimesTwice(m, PowerOfTen(k), PowerOfTen(down));
    } else {
      PowersMultiply(-k, up);
      Cancels(n * PowerOfTen(-k), m, PowerOfTen(up));
      TimesTwice(n, PowerOfTen(-k), PowerOfTen(up));
    }
  }

  lemma WholeIff(f: Figures, n: int)
    requires Shaped(f) && -EXACT < n < EXACT
    ensures DoubleOf(f) == Whole(n) <==> Signed(f.neg, n) >= 0 && Scaled(Mantissa(f), Power(f)) == Some(Signed(f.neg, n))
  {
    hide Shaped, Scaled, Mantissa, Power;
  }

  /**
   * The integer a numeral denotes, from its digits alone: the digits in front of the point and behind it, times the
   * power of ten of a positive exponent, are the integer times those of the digits behind the point and of a negative
   * exponent.
   */
  lemma DoubleOfIff(f: Figures, n: int)
    requires Shaped(f) && -9007199254740992 < n < 9007199254740992
    ensures var frac := if f.frac.None? then [] else f.frac.value;
            var x := if f.exp.None? then 0 else DigitsValue(f.exp.value.digits);
            var negative := f.exp.Some? && f.exp.value.sign == [0x2D];
            DoubleOf(f) == Whole(n)
            <==> (if f.neg then -n else n) * PowerOfTen(|frac|) * (if negative then PowerOfTen(x) else 1)
                 == (DigitsValue(f.whole) * PowerOfTen(|frac|) + DigitsValue(frac)) * (if negative then 1 else PowerOfTen(x))
  {
    var frac := if f.frac.None? then [] else f.frac.value;
    var x := if f.exp.None? then 0 else DigitsValue(f.exp.value.digits);
    var negative := f.exp.Some? && f.exp.value.sign == [0x2D];
    var up, down := if negative then 0 else x, if negative then x else 0;
    DigitsJoin(f.whole, frac);
    assert PowerOfTen(0) == 1;
    assert Power(f) == up - (|frac| + down);
    WholeIff(f, n);
    hide PowerOfTen, DigitsValue, Scaled, Shaped, DoubleOf, Power;
    PowersMultiply(|frac|, down);
    TimesTwice(Signed(f.neg, n), PowerOfTen(|frac|), PowerOfTen(down));
    ScaledByBoth(Mantissa(f), up, |frac| + down, Signed(f.neg, n));
  }

  // --- strtod ---

  datatype Conversion = Conversion(double: Double, end: nat)

  /** The marker and the digit that make a hexadecimal numeral of a zero. */
  predicate MarkerAt(s: CString, i: nat)
    requires i <= |s|
  {
    IsLetter(At(s, i), 0x78) && (IsHexDigit(At(s, i + 1)) || (At(s, i + 1) == POINT && IsHexDigit(At(s, i + 2))))
  }

  predicate HexAt(s: CString, i: nat)
    requires i <= |s|
  {
    At(s, i) == ZERO && MarkerAt(s, i + 1)
  }

  /** `inf` or `nan`, in either case. */
  predicate WordAt(s: CString, i: nat)
    requires i <= |s|
  {
    || (IsLetter(At(s, i), 0x69) && IsLetter(At(s, i + 1), 0x6E) && IsLetter(At(s, i + 2), 0x66))
    || (IsLetter(At(s, i), 0x6E) && IsLetter(At(s, i + 1), 0x61) && IsLetter(At(s, i + 2), 0x6E))
  }

  /** A point at `w`, behind the digits from `start` on, belongs to the numeral unless digits are missing on both sides. */
  predicate PointAt(s: CString, start: nat, w: nat)
    requires start <= w <= |s|
  {
    At(s, w) == POINT && (start < w || IsDigit(At(s, w + 1)))
  }

  function FractionAt(s: CString, start: nat, w: nat): (frac: Option<seq<byte>>)
    requires start <= w <= |s|
  {
    if PointAt(s, start, w) then Some(s[w + 1..DigitsEnd(s, w + 1)]) else None
  }

  lemma TwoStand(s: CString, i: nat, j: nat, k: nat)
    requires i <= j <= k <= |s|
    ensures Holds(s, i, s[i..j]) && Holds(s, j, s[j..k])
  {
  }

  /** A character and two stretches behind it. */
  lemma StretchesStand(s: CString, i: nat, d: nat, e: nat)
    requires i < d <= e <= |s|
    ensures Holds(s, i, [s[i]] + s[i + 1..d] + s[d..e]) && Holds(s, i, [s[i]] + s[i + 1..e])
    ensures |[s[i]] + s[i + 1..d] + s[d..e]| == e - i && |[s[i]] + s[i + 1..e]| == e - i
  {
    assert s[i..e] == [s[i]] + s[i + 1..d] + s[d..e];
    assert s[i..e] == [s[i]] + s[i + 1..e];
  }

  lemma NothingStands(s: CString, i: nat)
    requires i <= |s|
    ensures Holds(s, i, [])
  {
  }

  lemma FractionStands(s: CString, start: nat, w: nat)
    requires start <= w <= |s|
    ensures var frac := FractionAt(s, start, w);
            && Holds(s, w, FractionText(frac)) && (frac.Some? <==> PointAt(s, start, w))
            && (frac.Some? ==> w + 1 + |frac.value| <= |s| && frac.value == s[w + 1..w + 1 + |frac.value|]
                               && AllDigits(frac.value) && !IsDigit(At(s, w + 1 + |frac.value|))
                               && (frac.value != [] <==> IsDigit(At(s, w + 1))))
  {
    hide Holds, DigitsEnd, IsDigit;
    if PointAt(s, start, w) {
      StretchesStand(s, w, w + 1, DigitsEnd(s, w + 1));
    } else {
      NothingStands(s, w);
    }
  }

  /** Where the digits of an exponent start, behind its letter at `i`. */
  function ExponentDigits(s: CString, i: nat): (d: nat)
    requires i < |s|
    ensures i + 1 <= d <= |s|
  {
    if At(s, i + 1) == PLUS || At(s, i + 1) == MINUS then i + 2 else i + 1
  }

  predicate ExponentStarts(s: CString, i: nat)
    requires i <= |s|
  {
    IsLetter(At(s, i), 0x65) && IsDigit(At(s, ExponentDigits(s, i)))
  }

  function ExponentAt(s: CString, i: nat): (exp: Option<Exponent>)
    requires i <= |s|
  {
    if ExponentStarts(s, i) then
      var d := ExponentDigits(s, i);
      Some(Exponent(s[i], s[i + 1..d], s[d..DigitsEnd(s, d)]))
    else None
  }

  lemma SignBetween(s: CString, i: nat)
    requires i < |s|
    ensures var sign := s[i + 1..ExponentDigits(s, i)]; sign == [] || sign == [PLUS] || sign == [MINUS]
  {
  }

  lemma DigitsBetween(s: CString, d: nat)
    requires d <= |s| && IsDigit(At(s, d))
    ensures AllDigits(s[d..DigitsEnd(s, d)]) && d < DigitsEnd(s, d)
  {
  }

  lemma ExponentIsShaped(letter: byte, sign: seq<byte>, digits: seq<byte>)
    requires IsLetter(letter, 0x65) && (sign == [] || sign == [PLUS] || sign == [MINUS]) && digits != [] && AllDigits(digits)
    ensures ShapedExponent(Exponent(letter, sign, digits))
  {
  }

  lemma ExponentStands(s: CString, i: nat)
    requires i <= |s|
    ensures var exp := ExponentAt(s, i); Holds(s, i, ExponentText(exp)) && exp.Some? == ExponentStarts(s, i)
    ensures var exp := ExponentAt(s, i);
            exp.Some? ==> ShapedExponent(exp.value) && ExponentDigits(s, i) < i + |ExponentText(exp)| <= |s|
                          && !IsDigit(At(s, i + |ExponentText(exp)|))
  {
    hide Holds, DigitsEnd, IsLetter, IsDigit, ExponentDigits, ShapedExponent;
    if ExponentStarts(s, i) {
      var d := ExponentDigits(s, i);
      StretchesStand(s, i, d, DigitsEnd(s, d));
      SignBetween(s, i);
      DigitsBetween(s, d);
      ExponentIsShaped(s[i], s[i + 1..d], s[d..DigitsEnd(s, d)]);
    } else {
      NothingStands(s, i);
    }
  }

  /** The longest decimal numeral at `i`; it is not `Shaped` when there is none. */
  function FiguresAt(s: CString, i: nat): Figures
    requires i <= |s|
  {
    var start := if At(s, i) == MINUS then i + 1 else i;
    var w := DigitsEnd(s, start);
    var frac := FractionAt(s, start, w);
    Figures(start > i, s[start..w], frac, ExponentAt(s, w + |FractionText(frac)|))
  }

  lemma FiguresStand(s: CString, i: nat)
    requires i <= |s|
    ensures Holds(s, i, FiguresText(FiguresAt(s, i)))
  {
    hide DigitsValue, Holds, DigitsEnd, FractionAt, ExponentAt, FractionText, ExponentText;
    var f := FiguresAt(s, i);
    var start := if At(s, i) == MINUS then i + 1 else i;
    var w := DigitsEnd(s, start);
    assert Sign(f.neg) == s[i..start];
    TwoStand(s, i, start, w);
    FractionStands(s, start, w);
    HoldsElements(s, w, FractionText(f.frac));
    ExponentStands(s, w + |FractionText(f.frac)|);
    HoldsConcat4(s, i, Sign(f.neg), f.whole, FractionText(f.frac), ExponentText(f.exp));
  }

  /**
   * `strtod` at a minus sign or a digit.  Of hexadecimal numerals, infinities and NaNs only the start is modelled: they
   * are refused whatever follows.  Where no numeral stands, the result is a zero that moves no cursor.
   */
  function StrtodAt(s: CString, i: nat): (c: Conversion)
    requires i <= |s|
    ensures i <= c.end <= |s|
  {
    var start := if At(s, i) == MINUS then i + 1 else i;
    if HexAt(s, start) then Conversion(Other, start + 3)
    else if WordAt(s, start) then Conversion(NotFinite, start + 3)
    else
      var f := FiguresAt(s, i);
      if !Shaped(f) then Conversion(Whole(0), i)
      else
        assert i + |FiguresText(f)| <= |s| by { FiguresStand(s, i); }
        Conversion(DoubleOf(f), i + |FiguresText(f)|)
  }

  /** `is_decimal`: no leading zero and no hexadecimal marker. */
  predicate IsDecimal(t: seq<byte>) {
    && !(|t| > 1 && t[0] == ZERO && t[1] != POINT)
    && !(|t| > 2 && t[0] == MINUS && t[1] == ZERO && t[2] != POINT)
    && forall k :: 0 <= k < |t| ==> t[k] != 0x78 && t[k] != 0x58
  }

  // --- Which numerals are read ---

  /** No leading zero, unless a point follows it; only behind a sign may the point come first. */
  predicate LegalFigures(f: Figures) {
    && Shaped(f) && (f.whole == [] ==> f.neg)
    && (f.whole != [] && f.whole[0] == ZERO ==> |f.whole| == 1 && (f.frac.Some? || f.exp.None?))
  }

  /** What would be read as more of a plain run of digits: a digit, a point, an exponent, a marker behind a single zero. */
  predicate Continues(s: CString, i: nat, zero: bool)
    requires i <= |s|
  {
    IsDigit(At(s, i)) || At(s, i) == POINT || ExponentStarts(s, i) || (zero && MarkerAt(s, i))
  }

  /** Nothing at `i` would be read as more of the numeral that ends there. */
  predicate Stops(s: CString, i: nat, f: Figures)
    requires i <= |s|
  {
    if f.exp.Some? then !IsDigit(At(s, i))
    else if f.frac.Some? then !IsDigit(At(s, i)) && !ExponentStarts(s, i)
    else !Continues(s, i, f.whole == [ZERO])
  }

  /** A minus sign with no numeral behind it: no digit, no point and a digit, no infinity, no NaN. */
  predicate BareAt(s: CString, i: nat)
    requires i <= |s|
  {
    && At(s, i) == MINUS && !IsDigit(At(s, i + 1)) && !(At(s, i + 1) == POINT && IsDigit(At(s, i + 2)))
    && !WordAt(s, i + 1)
  }

  lemma {:induction false} DigitsEndAt(s: CString, i: nat, e: nat)
    requires i <= e <= |s| && !IsDigit(At(s, e)) && forall k :: i <= k < e ==> IsDigit(s[k])
    ensures DigitsEnd(s, i) == e
    decreases e - i
  {
    if i < e {
      DigitsEndAt(s, i + 1, e);
    }
  }

  lemma DigitsAreRead(s: CString, i: nat, d: seq<byte>)
    requires AllDigits(d) && Holds(s, i, d) && !IsDigit(At(s, i + |d|))
    ensures DigitsEnd(s, i) == i + |d| && s[i..i + |d|] == d
  {
    HoldsElements(s, i, d);
    hide Holds, DigitsEnd;
    assert forall k :: i <= k < i + |d| ==> s[k] == d[k - i] && IsDigit(d[k - i]);
    DigitsEndAt(s, i, i + |d|);
  }

  lemma FractionIsRead(s: CString, start: nat, w: nat, frac: Option<seq<byte>>)
    requires start <= w <= |s| && Holds(s, w, FractionText(frac))
    requires frac.None? ==> At(s, w) != POINT
    requires frac.Some? ==> AllDigits(frac.value) && !IsDigit(At(s, w + 1 + |frac.value|)) && (start < w || frac.value != [])
    ensures FractionAt(s, start, w) == frac
  {
    hide Holds, DigitsEnd;
    if frac.Some? {
      HoldsConcat(s, w, [POINT], frac.value);
      HoldsElements(s, w, [POINT]);
      HoldsElements(s, w + 1, frac.value);
      DigitsAreRead(s, w + 1, frac.value);
      assert frac.value != [] ==> s[w + 1] == frac.value[0];
    }
  }

  lemma ExponentIsRead(s: CString, i: nat, exp: Option<Exponent>)
    requires i <= |s| && Holds(s, i, ExponentText(exp)) && (exp.None? ==> !ExponentStarts(s, i))
    requires exp.Some? ==> ShapedExponent(exp.value) && !IsDigit(At(s, i + |ExponentText(exp)|))
    ensures ExponentAt(s, i) == exp
  {
    hide Holds, DigitsEnd;
    if exp.Some? {
      var x := exp.value;
      HoldsConcat(s, i, [x.letter] + x.sign, x.digits);
      HoldsConcat(s, i, [x.letter], x.sign);
      HoldsElements(s, i, [x.letter]);
      HoldsElements(s, i + 1, x.sign);
      var d := i + 1 + |x.sign|;
      HoldsElements(s, d, x.digits);
      assert s[d] == x.digits[0] && IsDigit(s[d]);
      assert x.sign != [] ==> s[i + 1] == x.sign[0];
      assert ExponentDigits(s, i) == d;
      DigitsAreRead(s, d, x.digits);
    }
  }

  /** What stands behind the digits in front of the point is no digit. */
  lemma WholeStops(s: CString, w: nat, f: Figures)
    requires Shaped(f) && Holds(s, w, FractionText(f.frac) + ExponentText(f.exp))
    requires Stops(s, w + |FractionText(f.frac) + ExponentText(f.exp)|, f)
    ensures w <= |s| && !IsDigit(At(s, w)) && (f.frac.None? ==> At(s, w) != POINT)
    ensures At(s, w) == POINT || IsLetter(At(s, w), 0x65) || !Continues(s, w, f.whole == [ZERO])
  {
    HoldsElements(s, w, FractionText(f.frac) + ExponentText(f.exp));
    hide Holds, AllDigits;
  }

  lemma FractionStops(s: CString, i: nat, f: Figures)
    requires Shaped(f) && f.frac.Some? && Holds(s, i, ExponentText(f.exp)) && Stops(s, i + |ExponentText(f.exp)|, f)
    ensures i <= |s| && !IsDigit(At(s, i))
  {
    HoldsElements(s, i, ExponentText(f.exp));
    hide Holds, AllDigits;
  }

  /** The parts of a numeral that stands at `i`. */
  lemma FiguresParts(s: CString, i: nat, f: Figures)
    requires Holds(s, i, FiguresText(f))
    ensures var start := i + |Sign(f.neg)|; var w := start + |f.whole|; var e := w + |FractionText(f.frac)|;
            && Holds(s, i, Sign(f.neg)) && Holds(s, start, f.whole)
            && Holds(s, w, FractionText(f.frac)) && Holds(s, e, ExponentText(f.exp))
            && Holds(s, w, FractionText(f.frac) + ExponentText(f.exp))
            && i + |FiguresText(f)| == e + |ExponentText(f.exp)| <= |s|
  {
    hide Holds;
    var w := i + |Sign(f.neg)| + |f.whole|;
    HoldsConcat4(s, i, Sign(f.neg), f.whole, FractionText(f.frac), ExponentText(f.exp));
    HoldsConcat(s, w, FractionText(f.frac), ExponentText(f.exp));
    HoldsElements(s, i, FiguresText(f));
  }

  lemma PointFirst(s: CString, i: nat, frac: Option<seq<byte>>)
    requires frac.Some? && Holds(s, i, FractionText(frac))
    ensures i < |s| && s[i] == POINT
  {
    HoldsElements(s, i, FractionText(frac));
  }

  lemma NoMarker(s: CString, start: nat, whole: seq<byte>)
    requires whole != [] && AllDigits(whole) && start + |whole| <= |s|
    requires forall k :: 0 <= k < |whole| ==> s[start + k] == whole[k]
    requires var w := start + |whole|; At(s, w) == POINT || IsLetter(At(s, w), 0x65) || !Continues(s, w, whole == [ZERO])
    ensures !HexAt(s, start)
  {
    assert IsDigit(whole[0]) && (|whole| > 1 ==> IsDigit(whole[1]));
    assert s[start + 0] == whole[0] && (|whole| > 1 ==> s[start + 1] == whole[1]);
  }

  lemma NumeralStarts(s: CString, i: nat, f: Figures)
    requires Shaped(f) && (f.whole == [] ==> f.neg)
    requires Holds(s, i, FiguresText(f)) && Stops(s, i + |FiguresText(f)|, f)
    ensures i <= |s| && (At(s, i) == MINUS <==> f.neg)
    ensures var start := i + |Sign(f.neg)|; start <= |s| && !HexAt(s, start) && !WordAt(s, start)
  {
    hide Holds, Stops, FractionText, ExponentText, FiguresText, Continues;
    var start := i + |Sign(f.neg)|;
    FiguresParts(s, i, f);
    HoldsElements(s, i, Sign(f.neg));
    HoldsElements(s, start, f.whole);
    if f.whole == [] {
      PointFirst(s, start, f.frac);
    } else {
      assert s[start] == f.whole[0] && (|f.whole| > 1 ==> s[start + 1] == f.whole[1]);
      WholeStops(s, start + |f.whole|, f);
      NoMarker(s, start, f.whole);
    }
  }

  lemma FractionPartIsRead(s: CString, start: nat, w: nat, f: Figures)
    requires Shaped(f) && start <= w == start + |f.whole| <= |s| && (f.frac.None? ==> At(s, w) != POINT)
    requires var e := w + |FractionText(f.frac)|;
             Holds(s, w, FractionText(f.frac)) && Holds(s, e, ExponentText(f.exp)) && Stops(s, e + |ExponentText(f.exp)|, f)
    ensures FractionAt(s, start, w) == f.frac
  {
    hide Holds, Stops, ExponentText, AllDigits;
    if f.frac.Some? {
      FractionStops(s, w + |FractionText(f.frac)|, f);
    }
    FractionIsRead(s, start, w, f.frac);
  }

  lemma ExponentPartIsRead(s: CString, w: nat, f: Figures)
    requires Shaped(f)
    requires var e := w + |FractionText(f.frac)|;
             e <= |s| && Holds(s, e, ExponentText(f.exp)) && Stops(s, e + |ExponentText(f.exp)|, f)
    ensures ExponentAt(s, w + |FractionText(f.frac)|) == f.exp
  {
    hide Holds, FractionText, AllDigits;
    ExponentIsRead(s, w + |FractionText(f.frac)|, f.exp);
  }

  /** A numeral that nothing continues is what is found where it stands. */
  lemma FiguresAreRead(s: CString, i: nat, f: Figures)
    requires Shaped(f) && (f.whole == [] ==> f.neg)
    requires Holds(s, i, FiguresText(f)) && Stops(s, i + |FiguresText(f)|, f)
    ensures i <= |s| && FiguresAt(s, i) == f
  {
    hide Holds, DigitsEnd, FractionAt, ExponentAt, Stops, FractionText, ExponentText, FiguresText, AllDigits;
    NumeralStarts(s, i, f);
    FiguresParts(s, i, f);
    var start := i + |Sign(f.neg)|;
    var w := start + |f.whole|;
    WholeStops(s, w, f);
    DigitsAreRead(s, start, f.whole);
    FractionPartIsRead(s, start, w, f);
    ExponentPartIsRead(s, w, f);
  }

  /** `strtod` converts a numeral that nothing continues, in full. */
  lemma NumeralIsConverted(s: CString, i: nat, f: Figures)
    requires Shaped(f) && (f.whole == [] ==> f.neg)
    requires Holds(s, i, FiguresText(f)) && Stops(s, i + |FiguresText(f)|, f)
    ensures i <= |s| && StrtodAt(s, i) == Conversion(DoubleOf(f), i + |FiguresText(f)|)
  {
    hide Holds, Stops, FiguresText, FiguresAt, Shaped, HexAt, WordAt;
    NumeralStarts(s, i, f);
    FiguresAreRead(s, i, f);
  }

  lemma FiguresHead(f: Figures)
    requires Shaped(f) && (f.whole == [] ==> f.neg)
    ensures FiguresText(f) != [] && (FiguresText(f)[0] == MINUS || IsDigit(FiguresText(f)[0]))
  {
    hide FractionText, ExponentText;
  }

  lemma LegalIsDecimal(f: Figures)
    requires LegalFigures(f)
    ensures IsDecimal(FiguresText(f))
  {
  }

  /** The parts of what is found: digits up to `w`, a fraction up to `e`, an exponent up to `end`. */
  predicate Found(s: CString, start: nat, w: nat, e: nat, end: nat, f: Figures)
  {
    && start <= w <= e <= end <= |s| && f.whole == s[start..w] && AllDigits(f.whole) && !IsDigit(At(s, w))
    && (f.frac.Some? <==> PointAt(s, start, w)) && (f.frac.None? ==> e == w)
    && (f.frac.Some? ==> w < e && f.frac.value == s[w + 1..e] && AllDigits(f.frac.value) && !IsDigit(At(s, e))
                         && (f.frac.value != [] <==> IsDigit(At(s, w + 1))))
    && (f.exp.Some? <==> ExponentStarts(s, e)) && (f.exp.None? ==> end == e)
    && (f.exp.Some? ==> ExponentDigits(s, e) < end && ShapedExponent(f.exp.value) && !IsDigit(At(s, end)))
  }

  lemma PartsFound(s: CString, start: nat, w: nat, e: nat, end: nat, f: Figures)
    requires start <= w <= e <= end <= |s| && w == DigitsEnd(s, start) && f.whole == s[start..w]
    requires f.frac == FractionAt(s, start, w) && e == w + |FractionText(f.frac)|
    requires f.exp == ExponentAt(s, e) && end == e + |ExponentText(f.exp)|
    ensures Found(s, start, w, e, end, f)
  {
    hide Holds, FractionAt, ExponentAt, ShapedExponent, ExponentStarts, PointAt, IsDigit;
    FractionStands(s, start, w);
    ExponentStands(s, e);
  }

  lemma FoundParts(s: CString, i: nat)
    requires i <= |s|
    ensures var start, f := if At(s, i) == MINUS then i + 1 else i, FiguresAt(s, i);
            var w := start + |f.whole|; var e := w + |FractionText(f.frac)|;
            Found(s, start, w, e, i + |FiguresText(f)|, f)
  {
    hide Holds, FiguresText, FractionText, FractionAt, ExponentAt, ExponentText, ShapedExponent, ExponentStarts, PointAt;
    hide Found, IsDigit;
    var f := FiguresAt(s, i);
    var start := if At(s, i) == MINUS then i + 1 else i;
    var w := DigitsEnd(s, start);
    FiguresStand(s, i);
    FiguresParts(s, i, f);
    PartsFound(s, start, w, w + |FractionText(f.frac)|, i + |FiguresText(f)|, f);
  }

  /** Digits without a point end where nothing continues them. */
  lemma WholeIsAll(s: CString, start: nat, w: nat)
    requires start < w <= |s| && !IsDigit(At(s, w)) && !PointAt(s, start, w) && !ExponentStarts(s, w) && !HexAt(s, start)
    ensures !Continues(s, w, s[start..w] == [ZERO])
  {
    hide IsDigit, ExponentStarts, IsLetter, IsHexDigit;
    if s[start..w] == [ZERO] {
      assert w == start + 1 && s[start] == s[start..w][0];
    }
  }

  lemma PartsStop(s: CString, start: nat, w: nat, e: nat, end: nat, f: Figures)
    requires Found(s, start, w, e, end, f) && Shaped(f) && !HexAt(s, start)
    ensures Stops(s, end, f)
  {
    hide AllDigits, ShapedExponent, ExponentStarts, HexAt, IsDigit, PointAt, Continues;
    if f.exp.None? && f.frac.None? {
      WholeIsAll(s, start, w);
    }
  }

  lemma PartsAreShaped(s: CString, start: nat, w: nat, e: nat, end: nat, f: Figures)
    requires Found(s, start, w, e, end, f)
    ensures Shaped(f) <==> start < w || (At(s, w) == POINT && IsDigit(At(s, w + 1)))
  {
    hide AllDigits, ShapedExponent, ExponentStarts, IsDigit;
  }

  /** What is found is a numeral that nothing continues, if it is one at all. */
  lemma FoundStops(s: CString, i: nat)
    requires i <= |s|
    ensures var start, f := if At(s, i) == MINUS then i + 1 else i, FiguresAt(s, i);
            i + |FiguresText(f)| <= |s| && (Shaped(f) && !HexAt(s, start) ==> Stops(s, i + |FiguresText(f)|, f))
  {
    hide FiguresAt, FiguresText, FractionText, Shaped, HexAt, Stops;
    FoundParts(s, i);
    var start, f := if At(s, i) == MINUS then i + 1 else i, FiguresAt(s, i);
    var w := start + |f.whole|;
    if Shaped(f) && !HexAt(s, start) {
      PartsStop(s, start, w, w + |FractionText(f.frac)|, i + |FiguresText(f)|, f);
    }
    hide Found;
  }

  /** Whether anything is found depends on the first characters alone. */
  lemma FoundIsShaped(s: CString, i: nat)
    requires i <= |s|
    ensures var start := if At(s, i) == MINUS then i + 1 else i;
            Shaped(FiguresAt(s, i)) <==> IsDigit(At(s, start)) || (At(s, start) == POINT && IsDigit(At(s, start + 1)))
  {
    hide FiguresText, FractionText, Shaped, FractionAt, ExponentAt, IsDigit;
    FoundParts(s, i);
    var start, f := if At(s, i) == MINUS then i + 1 else i, FiguresAt(s, i);
    var w := start + |f.whole|;
    PartsAreShaped(s, start, w, w + |FractionText(f.frac)|, i + |FiguresText(f)|, f);
    hide Found;
  }

  // --- No longer numeral is passed over ---

  /** A stretch of digits ends no later than the first character behind its start that is no digit. */
  lemma DigitsWithin(s: CString, i: nat, d: seq<byte>, e: nat)
    requires AllDigits(d) && Holds(s, i, d) && i <= e <= |s| && !IsDigit(At(s, e))
    ensures i + |d| <= e
  {
    HoldsElements(s, i, d);
    hide Holds, IsDigit;
    assert forall k :: i <= k < i + |d| ==> s[k] == d[k - i] && IsDigit(d[k - i]);
  }

  lemma ExponentWithin(s: CString, e: nat, exp: Option<Exponent>, end: nat)
    requires exp.Some? && ShapedExponent(exp.value) && Holds(s, e, ExponentText(exp)) && e <= |s|
    requires ExponentStarts(s, e) ==> ExponentDigits(s, e) < end <= |s| && !IsDigit(At(s, end))
    ensures ExponentStarts(s, e) && e + |ExponentText(exp)| <= end
  {
    var x := exp.value;
    hide Holds, AllDigits;
    HoldsConcat(s, e, [x.letter] + x.sign, x.digits);
    HoldsConcat(s, e, [x.letter], x.sign);
    HoldsElements(s, e, [x.letter]);
    HoldsElements(s, e + 1, x.sign);
    var d := e + 1 + |x.sign|;
    HoldsElements(s, d, x.digits);
    assert s[d] == x.digits[0] && IsDigit(s[d]) by { FirstDigit(x.digits); }
    assert x.sign != [] ==> s[e + 1] == x.sign[0];
    assert ExponentDigits(s, e) == d;
    DigitsWithin(s, d, x.digits, end);
  }

  lemma FirstDigit(d: seq<byte>)
    requires d != [] && AllDigits(d)
    ensures IsDigit(d[0])
  {
  }

  lemma FractionWithin(s: CString, start: nat, w: nat, frac: Option<seq<byte>>, e: nat)
    requires frac.Some? && AllDigits(frac.value) && Holds(s, w, FractionText(frac)) && (start < w || frac.value != [])
    requires start <= w <= e <= |s| && (PointAt(s, start, w) ==> w < e && !IsDigit(At(s, e)))
    ensures PointAt(s, start, w) && w + |FractionText(frac)| <= e
  {
    hide Holds, AllDigits, IsDigit;
    HoldsConcat(s, w, [POINT], frac.value);
    HoldsElements(s, w, [POINT]);
    HoldsElements(s, w + 1, frac.value);
    if frac.value != [] {
      FirstDigit(frac.value);
      assert s[w + 1] == frac.value[0];
    }
    DigitsWithin(s, w + 1, frac.value, e);
  }

  /** A character that is no digit stands at the end of the digits before it. */
  lemma EndsDigits(s: CString, a: nat, b: nat, k: nat)
    requires a <= k <= b <= |s| && AllDigits(s[a..b]) && !IsDigit(At(s, k))
    ensures k == b
  {
    hide IsDigit;
    assert forall x :: a <= x < b ==> s[a..b][x - a] == s[x];
  }

  lemma LetterIsNoDigit(s: CString, i: nat, exp: Option<Exponent>)
    requires exp.Some? && ShapedExponent(exp.value) && Holds(s, i, ExponentText(exp))
    ensures i < |s| && !IsDigit(s[i]) && s[i] != POINT
  {
    HoldsElements(s, i, ExponentText(exp));
  }

  /** The parts of any numeral that stands there lie within the parts of the one that is found. */
  lemma PartsAreLongest(s: CString, start: nat, w: nat, e: nat, end: nat, g: Figures, f: Figures, fw: nat, fe: nat)
    requires Found(s, start, w, e, end, g) && Shaped(f) && fw == start + |f.whole| && fe == fw + |FractionText(f.frac)|
    requires Holds(s, start, f.whole) && Holds(s, fw, FractionText(f.frac)) && Holds(s, fe, ExponentText(f.exp))
    ensures fe + |ExponentText(f.exp)| <= end
  {
    hide Holds, ExponentStarts, ShapedExponent, AllDigits, IsDigit;
    DigitsWithin(s, start, f.whole, w);
    if f.frac.Some? {
      PointFirst(s, fw, f.frac);
      assert !IsDigit(POINT) by { PointIsNoDigit(); }
      EndsDigits(s, start, w, fw);
      FractionWithin(s, start, w, f.frac, e);
    }
    if f.exp.Some? {
      LetterIsNoDigit(s, fe, f.exp);
      if f.frac.Some? {
        EndsDigits(s, w + 1, e, fe);
      } else {
        EndsDigits(s, start, w, fe);
      }
      ExponentWithin(s, e, f.exp, end);
    }
  }

  lemma PointIsNoDigit()
    ensures !IsDigit(POINT)
  {
  }

  /** A numeral starts with a sign exactly when it is negative, and then with a digit, or with a point and a digit. */
  lemma HeadsNumeral(s: CString, i: nat, f: Figures)
    requires Shaped(f) && (f.whole == [] ==> f.neg) && Holds(s, i, FiguresText(f))
    ensures i <= |s| && (At(s, i) == MINUS <==> f.neg)
    ensures var start := i + |Sign(f.neg)|;
            && start <= |s| && !WordAt(s, start)
            && (IsDigit(At(s, start)) || (At(s, start) == POINT && IsDigit(At(s, start + 1))))
  {
    hide Holds, ExponentText, FiguresText, FractionText;
    var start := i + |Sign(f.neg)|;
    FiguresParts(s, i, f);
    HoldsElements(s, i, Sign(f.neg));
    HoldsElements(s, start, f.whole);
    if f.whole == [] {
      PointThenDigit(s, start, f.frac);
    } else {
      assert s[start] == f.whole[0];
    }
  }

  lemma PointThenDigit(s: CString, i: nat, frac: Option<seq<byte>>)
    requires frac.Some? && frac.value != [] && AllDigits(frac.value) && Holds(s, i, FractionText(frac))
    ensures i + 1 < |s| && s[i] == POINT && IsDigit(s[i + 1])
  {
    HoldsConcat(s, i, [POINT], frac.value);
    HoldsElements(s, i, [POINT]);
    HoldsElements(s, i + 1, frac.value);
    assert s[i + 1] == frac.value[0];
  }

  lemma FoundIsConverted(s: CString, i: nat)
    requires i <= |s|
    ensures var start, f := if At(s, i) == MINUS then i + 1 else i, FiguresAt(s, i);
            Shaped(f) && !HexAt(s, start) && !WordAt(s, start) ==> StrtodAt(s, i).end == i + |FiguresText(f)|
  {
    hide FiguresAt, FiguresText, Shaped, DoubleOf, HexAt, WordAt;
  }

  /** `strtod` converts the longest numeral: it reads at least as far as any that stands there. */
  lemma LongestIsConverted(s: CString, i: nat, f: Figures)
    requires Shaped(f) && (f.whole == [] ==> f.neg) && Holds(s, i, FiguresText(f))
    ensures i + |Sign(f.neg)| <= |s| && i + |FiguresText(f)| <= |s|
    ensures !HexAt(s, i + |Sign(f.neg)|) ==> i + |FiguresText(f)| <= StrtodAt(s, i).end
  {
    hide Holds, FiguresText, FiguresAt, StrtodAt, HexAt, WordAt, Found, Shaped, FractionText, ExponentText;
    FiguresParts(s, i, f);
    HeadsNumeral(s, i, f);
    var start, g := i + |Sign(f.neg)|, FiguresAt(s, i);
    FoundParts(s, i);
    FoundIsShaped(s, i);
    FoundIsConverted(s, i);
    var w, fw := start + |g.whole|, start + |f.whole|;
    PartsAreLongest(s, start, w, w + |FractionText(g.frac)|, i + |FiguresText(g)|, g, f, fw, fw + |FractionText(f.frac)|);
  }

  lemma BareIff(s: CString, i: nat)
    requires i <= |s| && (At(s, i) == MINUS || IsDigit(At(s, i)))
    ensures BareAt(s, i) <==> var start := if At(s, i) == MINUS then i + 1 else i;
                              !HexAt(s, start) && !WordAt(s, start) && !Shaped(FiguresAt(s, i))
  {
    hide Shaped, FiguresAt, WordAt, IsHexDigit;
    FoundIsShaped(s, i);
  }

  /** Where nothing starts with a zero that is not followed by a point, `is_decimal` has seen to it. */
  lemma DecimalIsLegal(f: Figures)
    requires Shaped(f) && IsDecimal(FiguresText(f))
    ensures f.whole != [] && f.whole[0] == ZERO ==> |f.whole| == 1 && (f.frac.Some? || f.exp.None?)
  {
    var t := FiguresText(f);
    var k := |Sign(f.neg)|;
    assert f.whole != [] ==> t[k] == f.whole[0];
    assert |f.whole| > 1 ==> t[k + 1] == f.whole[1] && IsDigit(f.whole[1]);
    assert |f.whole| == 1 && f.frac.None? && f.exp.Some? ==> t[k + 1] == f.exp.value.letter;
  }

  /** The legal numeral `f` of the number `d` stands at `i`, up to `end`, and nothing continues it. */
  predicate Spells(s: CString, i: nat, f: Figures, d: Double, end: nat) {
    LegalFigures(f) && DoubleOf(f) == d && Holds(s, i, FiguresText(f)) && end == i + |FiguresText(f)| && Stops(s, end, f)
  }

  lemma HexIsRefused(s: CString, i: nat, start: nat)
    requires i <= start < |s| && HexAt(s, start)
    ensures !IsDecimal(s[i..start + 3])
  {
    assert s[i..start + 3][start + 1 - i] == s[start + 1];
  }

  lemma FoundIsSpelled(s: CString, i: nat, d: Double, end: nat)
    requires i <= |s| && (At(s, i) == MINUS || IsDigit(At(s, i)))
    requires StrtodAt(s, i) == Conversion(d, end) && !d.NotFinite? && IsDecimal(s[i..end])
    ensures (d == Whole(0) && end == i && BareAt(s, i)) || Spells(s, i, FiguresAt(s, i), d, end)
  {
    hide FiguresText, DoubleOf, IsDecimal, Stops, WordAt, HexAt, BareAt;
    var start, f := if At(s, i) == MINUS then i + 1 else i, FiguresAt(s, i);
    BareIff(s, i);
    if HexAt(s, start) {
      HexIsRefused(s, i, start);
    } else if !BareAt(s, i) {
      FiguresStand(s, i);
      FoundStops(s, i);
      DecimalIsLegal(f);
    }
  }

  lemma BareIsSign(s: CString, i: nat)
    requires i <= |s| && BareAt(s, i)
    ensures At(s, i) == MINUS
  {
  }

  lemma BareIsZero(s: CString, i: nat)
    requires i <= |s| && BareAt(s, i)
    ensures StrtodAt(s, i) == Conversion(Whole(0), i) && IsDecimal(s[i..i])
  {
    hide Shaped, FiguresAt, BareAt, HexAt, WordAt;
    assert At(s, i) == MINUS by { BareIsSign(s, i); }
    BareIff(s, i);
  }

  lemma SpelledIsFound(s: CString, i: nat, f: Figures, d: Double, end: nat)
    requires Spells(s, i, f, d, end)
    ensures i <= |s| && StrtodAt(s, i) == Conversion(d, end) && !d.NotFinite? && IsDecimal(s[i..end])
  {
    hide StrtodAt, IsDecimal, Stops, FiguresText, Shaped, Scaled;
    NumeralIsConverted(s, i, f);
    LegalIsDecimal(f);
  }

  /**
   * A conversion is accepted exactly where a legal numeral stands that nothing continues, as the number it denotes, and
   * as the zero of a minus sign that stands bare; hexadecimal numerals, infinities and NaNs are not.
   */
  lemma NumberIffSpelled(s: CString, i: nat, d: Double, end: nat)
    requires i <= |s| && (At(s, i) == MINUS || IsDigit(At(s, i)))
    ensures StrtodAt(s, i) == Conversion(d, end) && !d.NotFinite? && IsDecimal(s[i..end])
            <==> (d == Whole(0) && end == i && BareAt(s, i)) || exists f :: Spells(s, i, f, d, end)
  {
    hide StrtodAt, IsDecimal, BareAt, Spells;
    if StrtodAt(s, i) == Conversion(d, end) && !d.NotFinite? && IsDecimal(s[i..end]) {
      FoundIsSpelled(s, i, d, end);
    }
    if d == Whole(0) && end == i && BareAt(s, i) {
      BareIsZero(s, i);
    }
    if f :| Spells(s, i, f, d, end) {
      SpelledIsFound(s, i, f, d, end);
    }
  }

  lemma PointOrHex(s: CString, start: nat, w: nat)
    requires start < w <= |s| && Continues(s, w, s[start..w] == [ZERO]) && !IsDigit(At(s, w)) && !HexAt(s, start)
    ensures PointAt(s, start, w) || ExponentStarts(s, w)
  {
    hide IsHexDigit, ExponentStarts, DigitsEnd;
    assert s[start..w] == [ZERO] ==> w == start + 1 && s[start] == s[start..w][0];
  }

  lemma PartsGoOn(s: CString, start: nat, w: nat, v: nat, e: nat, end: nat, f: Figures)
    requires start < w <= |s| && forall k :: start <= k < w ==> IsDigit(s[k])
    requires Continues(s, w, s[start..w] == [ZERO]) && !HexAt(s, start) && Found(s, start, v, e, end, f)
    ensures end > w
  {
    hide HexAt, ExponentStarts, AllDigits, ShapedExponent, IsDigit, Continues;
    assert v < |s| ==> At(s, v) == s[v];
    if v == w {
      PointOrHex(s, start, w);
    }
  }

  lemma FoundGoesOn(s: CString, i: nat, start: nat, w: nat)
    requires i <= |s| && start == (if At(s, i) == MINUS then i + 1 else i) < w <= |s|
    requires forall k :: start <= k < w ==> IsDigit(s[k])
    requires Continues(s, w, s[start..w] == [ZERO]) && !HexAt(s, start)
    ensures Shaped(FiguresAt(s, i)) && i + |FiguresText(FiguresAt(s, i))| > w
  {
    hide FiguresAt, FiguresText, FractionText, Shaped, HexAt, Continues;
    var f := FiguresAt(s, i);
    FoundParts(s, i);
    FoundIsShaped(s, i);
    var v := start + |f.whole|;
    PartsGoOn(s, start, w, v, v + |FractionText(f.frac)|, i + |FiguresText(f)|, f);
    hide Found;
  }

  lemma DigitsGoOn(s: CString, i: nat, start: nat, w: nat)
    requires i <= |s| && start == (if At(s, i) == MINUS then i + 1 else i) < w <= |s|
    requires forall k :: start <= k < w ==> IsDigit(s[k])
    requires Continues(s, w, s[start..w] == [ZERO])
    ensures StrtodAt(s, i).end != w
  {
    hide FiguresAt, FiguresText, DoubleOf, Continues, IsHexDigit, Shaped;
    assert IsDigit(s[start]) && (w == start + 3 ==> IsDigit(s[start + 1]));
    if !HexAt(s, start) {
      FoundGoesOn(s, i, start, w);
    }
  }

  /** Plain digits that something continues are not read as they stand. */
  lemma PlainGoesOn(s: CString, i: nat, neg: bool, whole: seq<byte>)
    requires whole != [] && AllDigits(whole) && Holds(s, i, Sign(neg) + whole)
    requires Continues(s, i + |Sign(neg) + whole|, whole == [ZERO])
    ensures i <= |s| && StrtodAt(s, i).end != i + |Sign(neg) + whole|
  {
    hide Holds, StrtodAt, Continues;
    var start := i + |Sign(neg)|;
    HoldsConcat(s, i, Sign(neg), whole);
    HoldsElements(s, i, Sign(neg));
    HoldsElements(s, start, whole);
    assert forall k :: start <= k < start + |whole| ==> s[k] == whole[k - start] && IsDigit(whole[k - start]);
    assert s[start] == whole[0];
    DigitsGoOn(s, i, start, start + |whole|);
  }
}
