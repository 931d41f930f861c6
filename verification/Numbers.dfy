/** The value of a number with a fraction and an exponent. */
module Numbers {
  import opened Basics
  import opened JsonText
  import opened JsonParse
  import opened RoundTrip
  import opened Bits

  /** A number taken apart: its sign, digits, fraction and exponent, some of which it may do without. */
  datatype Parts = Parts(minus: bool, whole: seq<byte>, fraction: Option<seq<byte>>, exponent: Option<Exponent>)

  datatype Exponent = Exponent(letter: byte, sign: seq<byte>, digits: seq<byte>)

  predicate WellMade(n: Parts) {
    && n.whole != [] && Digits(n.whole)
    && (n.fraction.Some? ==> Digits(n.fraction.value))
    && (n.exponent.Some? ==>
          var e := n.exponent.value;
          && (e.letter == 'e' || e.letter == 'E') && (e.sign == "" || e.sign == "+" || e.sign == "-")
          && e.digits != [] && Digits(e.digits))
  }

  function SignText(n: Parts): seq<byte> { if n.minus then "-" else "" }

  function FractionText(n: Parts): seq<byte> { if n.fraction.Some? then "." + n.fraction.value else "" }

  function ExponentText(n: Parts): seq<byte> {
    match n.exponent
    case None => ""
    case Some(e) => [e.letter] + e.sign + e.digits
  }

  function Text(n: Parts): seq<byte> { SignText(n) + n.whole + FractionText(n) + ExponentText(n) }

  function FractionOf(n: Parts): seq<byte> { if n.fraction.Some? then n.fraction.value else [] }

  function ExponentOf(n: Parts): int
    requires WellMade(n)
  {
    match n.exponent
    case None => 0
    case Some(e) => if e.sign == "-" then -(DigitsValue(e.digits) as int) else DigitsValue(e.digits)
  }

  lemma RunIs(t: seq<byte>, i: nat, d: seq<byte>)
    requires At(t, i, d) && Digits(d) && (i + |d| < |t| ==> !IsDigit(t[i + |d|]))
    ensures DigitRun(t, i) == i + |d| && t[i..DigitRun(t, i)] == d
  {
    forall k | i <= k < i + |d| ensures IsDigit(t[k]) {
      assert t[i..i + |d|][k - i] == d[k - i];
    }
  }

  /** All of it is read, and taken apart as it was put together. */
  lemma PartsRead(n: Parts)
    requires WellMade(n)
    ensures var t := Text(n);
            Strtod(t) == JsonParse.Literal(n.minus, n.whole, FractionOf(n), ExponentOf(n), |t|)
  {
    hide DigitsValue, DigitRun, Digits, Text, At, ExponentAt, ExponentText, ExponentOf, SignText, Strtod, WellMade;
    DigitsJoined(n);
    var t := Text(n);
    var b := |SignText(n)|;
    var w := b + |n.whole|;
    var f := w + |FractionText(n)|;
    Layout(n);
    RunIs(t, b, n.whole);
    if n.fraction.Some? { RunIs(t, w + 1, n.fraction.value); }
    ExponentRead(n, t, f);
    StrtodSteps(t, b, w, f);
  }

  lemma StrtodSteps(t: seq<byte>, b: nat, w: nat, f: nat)
    requires t != [] && b == if t[0] == '+' || t[0] == '-' then 1 else 0
    requires b < w <= |t| && DigitRun(t, b) == w
    requires f == if w < |t| && t[w] == '.' then DigitRun(t, w + 1) else w
    ensures Strtod(t) == JsonParse.Literal(b == 1 && t[0] == '-', t[b..w], if f > w then t[w + 1..f] else [],
                                           ExponentAt(t, f).0, ExponentAt(t, f).1)
  {
    hide DigitRun, ExponentAt;
  }

  lemma Layout(n: Parts)
    requires WellMade(n)
    ensures var t := Text(n);
            var b := |SignText(n)|;
            var w := b + |n.whole|;
            var f := w + |FractionText(n)|;
            && b <= 1 && (b == 1 <==> n.minus) && (b == 1 ==> t[0] == '-') && (b == 0 ==> t[0] != '-' && t[0] != '+')
            && b < w
            && At(t, b, n.whole) && w <= |t| && (w < |t| ==> !IsDigit(t[w]))
            && (w < |t| && t[w] == '.' <==> n.fraction.Some?)
            && (n.fraction.Some? ==> At(t, w + 1, n.fraction.value) && f == w + 1 + |n.fraction.value|)
            && f <= |t| && (f < |t| ==> !IsDigit(t[f])) && t[f..] == ExponentText(n)
  {
    hide Digits, IsDigit;
    var b := |SignText(n)|;
    var w := b + |n.whole|;
    FourPieces(SignText(n), n.whole, FractionText(n), ExponentText(n));
    FirstDigit(n.whole);
    NotASign(n.whole[0]);
    if n.fraction.Some? { TwoPieces(Text(n), w, ".", n.fraction.value); }
    NoDigits();
  }

  lemma FourPieces(p: seq<byte>, q: seq<byte>, r: seq<byte>, s: seq<byte>)
    ensures var t := p + q + r + s;
            && |t| == |p| + |q| + |r| + |s| && At(t, |p|, q) && At(t, |p| + |q|, r) && t[|p| + |q| + |r|..] == s
            && (forall i :: 0 <= i < |p| ==> t[i] == p[i]) && (q != [] ==> t[|p|] == q[0])
            && (r != [] ==> t[|p| + |q|] == r[0]) && (r == [] && s != [] ==> t[|p| + |q|] == s[0])
            && (s != [] ==> t[|p| + |q| + |r|] == s[0])
  {
  }

  lemma TwoPieces(t: seq<byte>, w: nat, a: seq<byte>, b: seq<byte>)
    requires At(t, w, a + b)
    ensures At(t, w + |a|, b)
  {
    AtSplit(t, w, a, b);
  }

  lemma NotASign(c: byte)
    requires IsDigit(c)
    ensures c != '-' && c != '+'
  {
  }

  lemma NoDigits()
    ensures !IsDigit('.') && !IsDigit('e') && !IsDigit('E') && !IsDigit('-')
  {
  }

  lemma ExponentRead(n: Parts, t: seq<byte>, f: nat)
    requires WellMade(n) && f <= |t| && t[f..] == ExponentText(n)
    ensures ExponentAt(t, f) == (ExponentOf(n), |t|)
  {
    hide DigitsValue, DigitRun, Digits;
    if n.exponent.Some? {
      var e := n.exponent.value;
      var d := f + 1 + |e.sign|;
      assert t[f] == t[f..][0] == e.letter;
      assert t[d..] == t[f..][1 + |e.sign|..] == e.digits;
      assert t[f + 1] == t[f..][1];
      FirstDigit(e.digits);
      RunIs(t, d, e.digits);
    }
  }

  lemma FirstDigit(d: seq<byte>)
    requires d != [] && Digits(d)
    ensures IsDigit(d[0])
  {
  }

  // ---------- the value ----------

  lemma {:induction false} Pow10Sum(a: nat, b: nat)
    ensures Pow10(a + b) == Pow10(a) * Pow10(b)
    decreases a
  {
    hide Pow10;
    Pow10At(a);
    Pow10At(a + b);
    if a == 0 {
    } else {
      Pow10Sum(a - 1, b);
      TenTimes(Pow10(a - 1), Pow10(b));
    }
  }

  lemma Pow10At(a: nat)
    ensures Pow10(a) == if a == 0 then 1 else 10 * Pow10(a - 1)
  {
  }

  lemma TenTimes(p: nat, q: nat)
    ensures 10 * p * q == 10 * (p * q)
  {
  }

  function Zeros(k: nat): (z: seq<byte>)
    ensures |z| == k
  {
    seq(k, _ => '0')
  }

  /** The digits `s` become `d` when the point moves `shift` places to the right. */
  predicate Moved(s: seq<byte>, shift: int, d: seq<byte>) {
    if shift >= 0 then s + Zeros(shift) == d else s == d + Zeros(-shift)
  }

  lemma {:induction false} ZerosMultiply(d: seq<byte>, k: nat)
    requires Digits(d)
    ensures Digits(d + Zeros(k)) && DigitsValue(d + Zeros(k)) == DigitsValue(d) * Pow10(k)
    decreases k
  {
    hide Pow10, DigitsValue, Digits;
    Pow10At(k);
    if k == 0 {
      assert d + Zeros(0) == d;
    } else {
      ZerosMultiply(d, k - 1);
      assert d + Zeros(k) == d + Zeros(k - 1) + ['0'];
      ZeroBehind(d + Zeros(k - 1));
      TenTimes(Pow10(k - 1), DigitsValue(d));
    }
  }

  lemma ZeroBehind(d: seq<byte>)
    requires Digits(d)
    ensures Digits(d + ['0']) && DigitsValue(d + ['0']) == 10 * DigitsValue(d)
  {
    assert (d + ['0'])[..|d|] == d;
  }

  /**
   A number stands for an int where moving the point, by the exponent less the digits behind it,
   gives that int's digits: with zeros added behind them, or taken away.
   */
  lemma NumberReads(n: Parts, k: nat, v: int32, t: seq<byte>, off: nat)
    requires WellMade(n) && n.minus == (v < 0)
    requires if n.exponent.Some? then n.exponent.value.digits == DecNat(k) else k == 0
    requires var e: int := if n.exponent.Some? && n.exponent.value.sign == "-" then -(k as int) else k;
             Moved(n.whole + FractionOf(n), e - |FractionOf(n)|, DecNat(if v < 0 then -(v as int) else v))
    requires At(t, off, Text(n)) && NumberEnds(t, off + |Text(n)|)
    ensures ParseNumber(t, off) == Ok(Num(v), off + |Text(n)|)
  {
    hide Strtod, NumberValue, At, DigitsValue, DecNat, Text, FractionOf, NumberEnds, WellMade;
    ExponentIs(n, k);
    TextRun(n, t, off);
    PartsRead(n);
    DigitsJoined(n);
    ValueIs(n, ExponentOf(n), v);
  }

  lemma ExponentIs(n: Parts, k: nat)
    requires WellMade(n) && if n.exponent.Some? then n.exponent.value.digits == DecNat(k) else k == 0
    ensures ExponentOf(n) == if n.exponent.Some? && n.exponent.value.sign == "-" then -(k as int) else k
  {
    DecNatValue(k);
  }

  lemma DigitsJoined(n: Parts)
    requires WellMade(n)
    ensures Digits(n.whole) && Digits(FractionOf(n)) && Digits(n.whole + FractionOf(n)) && NUL !in Text(n)
    ensures forall i :: 0 <= i < |Text(n)| ==> IsNumberByte(Text(n)[i])
  {
  }

  lemma TextRun(n: Parts, t: seq<byte>, off: nat)
    requires WellMade(n) && At(t, off, Text(n)) && NumberEnds(t, off + |Text(n)|)
    ensures off + |Text(n)| <= |t| && NumberRun(t, off) == off + |Text(n)| && t[off..NumberRun(t, off)] == Text(n)
    ensures Text(n)[..|Text(n)|] == Text(n)
  {
    hide Text, WellMade;
    DigitsJoined(n);
    NumberRunAt(Text(n), t, off);
  }

  lemma ValueIs(n: Parts, e: int, v: int32)
    requires WellMade(n) && n.minus == (v < 0) && e == ExponentOf(n) && NUL !in Text(n) && Digits(FractionOf(n))
    requires Moved(n.whole + FractionOf(n), e - |FractionOf(n)|, DecNat(if v < 0 then -(v as int) else v))
    ensures NumberValue(Text(n), JsonParse.Literal(n.minus, n.whole, FractionOf(n), e, |Text(n)|)) == Num(v)
  {
    hide Text, DigitsValue, DecNat, Pow10, FractionOf, Zeros;
    var shift := e - |FractionOf(n)|;
    var a: nat := if v < 0 then -(v as int) else v;
    DigitsJoined(n);
    DecNatValue(a);
    if shift >= 0 {
      ZerosMultiply(n.whole + FractionOf(n), shift);
    } else {
      ZerosMultiply(DecNat(a), -shift);
      Divided(a, Pow10(-shift));
    }
  }

  lemma Divided(a: nat, p: nat)
    requires p > 0
    ensures a * p % p == 0 && a * p / p == a
  {
    Unique(p, a, 0, a * p / p, a * p % p);
  }

  /** In general: it stands for an int exactly when that int times the power of ten on the other side is the digits'. */
  lemma NumberReadsIff(n: Parts, v: int32)
    requires WellMade(n) && NUL !in Text(n)
    ensures var e, f := ExponentOf(n), |FractionOf(n)|;
            var up, down := if e > f then e - f else 0, if e > f then 0 else f - e;
            var m: int := DigitsValue(n.whole + FractionOf(n)) * Pow10(up);
            NumberValue(Text(n), Strtod(Text(n))) == Num(v) <==> v * Pow10(down) == if n.minus then -m else m
    ensures var r := NumberValue(Text(n), Strtod(Text(n))); r.Num? || r == Real(Text(n))
  {
    hide Text, DigitsValue, Pow10, Strtod, FractionOf;
    PartsRead(n);
    DigitsJoined(n);
    Pow10At(0);
    var e, f := ExponentOf(n), |FractionOf(n)|;
    var m := DigitsValue(n.whole + FractionOf(n));
    if e <= f { Quotient(m, Pow10(f - e), v); }
  }

  lemma OneQuotient(m: nat, p: nat, v: int)
    requires p > 0
    ensures m == v * p <==> m % p == 0 && m / p == v
  {
    if v < 0 {
      Negated(p, v);
    } else {
      Divided(v, p);
    }
  }

  lemma Negated(p: nat, v: int)
    requires p > 0 && v < 0
    ensures v * p < 0
  {
    Larger(p, 0, -v);
  }

  lemma Quotient(m: nat, p: nat, v: int)
    requires p > 0
    ensures m == v * p <==> m % p == 0 && m / p == v
    ensures m == -v * p <==> m % p == 0 && m / p == -v
    ensures -v * p == -(v * p)
  {
    OneQuotient(m, p, v);
    OneQuotient(m, p, -v);
  }
}
