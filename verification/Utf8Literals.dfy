/**
 The \uXXXX literals of a string: every Unicode scalar value written as one or two of them
 decodes to the one well-formed UTF-8 sequence for it.
 */
module Utf8Literals {
  import opened Basics
  import opened JsonText
  import opened JsonParse

  predicate Scalar(u: nat) { u <= 0x10FFFF && !HighSurrogate(u) && !LowSurrogate(u) }

  // ---------- UTF-8, section 4 of RFC 3629 ----------

  predicate Tail(c: byte) { 0x80 <= c as int <= 0xBF }

  predicate WellFormed(b: seq<byte>) {
    match |b|
    case 1 => b[0] as int <= 0x7F
    case 2 => 0xC2 <= b[0] as int <= 0xDF && Tail(b[1])
    case 3 =>
      var first, second := b[0] as int, b[1] as int;
      && Tail(b[2])
      && (|| (first == 0xE0 && 0xA0 <= second <= 0xBF)
          || (0xE1 <= first <= 0xEC && Tail(b[1]))
          || (first == 0xED && 0x80 <= second <= 0x9F)
          || (0xEE <= first <= 0xEF && Tail(b[1])))
    case 4 =>
      var first, second := b[0] as int, b[1] as int;
      && Tail(b[2]) && Tail(b[3])
      && (|| (first == 0xF0 && 0x90 <= second <= 0xBF)
          || (0xF1 <= first <= 0xF3 && Tail(b[1]))
          || (first == 0xF4 && 0x80 <= second <= 0x8F))
    case _ => false
  }

  function Shift(u: int, c: byte): (r: int)
    requires Tail(c)
    ensures r / 64 == u && r % 64 == c as int - 0x80
  {
    u * 64 + (c as int - 0x80)
  }

  /** The number whose bits a well-formed sequence carries, section 3. */
  function ScalarOf(b: seq<byte>): (u: nat)
    requires WellFormed(b)
    ensures Scalar(u)
  {
    match |b|
    case 1 => b[0] as int
    case 2 => Shift(b[0] as int - 0xC0, b[1])
    case 3 => Shift(Shift(b[0] as int - 0xE0, b[1]), b[2])
    case _ => Shift(Shift(Shift(b[0] as int - 0xF0, b[1]), b[2]), b[3])
  }

  lemma Utf8Spelled(u: nat)
    requires u <= 0x10FFFF
    ensures var b := Utf8(u);
            && (u < 0x80 ==> |b| == 1 && b[0] as int == u)
            && (0x80 <= u < 0x800 ==> |b| == 2 && b[0] as int == 0xC0 + u / 64 && b[1] as int == 0x80 + u % 64)
            && (0x800 <= u < 0x10000 ==>
                  |b| == 3 && b[0] as int == 0xE0 + u / 64 / 64 && b[1] as int == 0x80 + u / 64 % 64
                  && b[2] as int == 0x80 + u % 64)
            && (0x10000 <= u ==>
                  |b| == 4 && b[0] as int == 0xF0 + u / 64 / 64 / 64 && b[1] as int == 0x80 + u / 64 / 64 % 64
                  && b[2] as int == 0x80 + u / 64 % 64 && b[3] as int == 0x80 + u % 64)
  {
    hide *;
    if u < 0x80 {
      Spelled1(u);
    } else if u < 0x800 {
      Spelled2(u);
    } else if u < 0x10000 {
      Spelled3(u);
    } else {
      Spelled4(u);
    }
  }

  lemma Spelled1(u: nat)
    requires u < 0x80
    ensures |Utf8(u)| == 1 && Utf8(u)[0] as int == u
  {
    hide Utf8Bytes;
    LeadByte(u, 0);
  }

  lemma Spelled2(u: nat)
    requires 0x80 <= u < 0x800
    ensures |Utf8(u)| == 2 && Utf8(u)[0] as int == 0xC0 + u / 64 && Utf8(u)[1] as int == 0x80 + u % 64
  {
    hide Utf8Bytes;
    LeadByte(u / 64, 0xC0);
    LastByte(u, 2, 0xC0);
  }

  lemma Spelled3(u: nat)
    requires 0x800 <= u < 0x10000
    ensures |Utf8(u)| == 3 && Utf8(u)[0] as int == 0xE0 + u / 64 / 64 && Utf8(u)[1] as int == 0x80 + u / 64 % 64
    ensures Utf8(u)[2] as int == 0x80 + u % 64
  {
    hide Utf8Bytes;
    LeadByte(u / 64 / 64, 0xE0);
    LastByte(u / 64, 2, 0xE0);
    LastByte(u, 3, 0xE0);
  }

  lemma Spelled4(u: nat)
    requires 0x10000 <= u <= 0x10FFFF
    ensures |Utf8(u)| == 4 && Utf8(u)[0] as int == 0xF0 + u / 64 / 64 / 64
    ensures Utf8(u)[1] as int == 0x80 + u / 64 / 64 % 64
    ensures Utf8(u)[2] as int == 0x80 + u / 64 % 64 && Utf8(u)[3] as int == 0x80 + u % 64
  {
    hide Utf8Bytes;
    LeadByte(u / 64 / 64 / 64, 0xF0);
    LastByte(u / 64 / 64, 2, 0xF0);
    LastByte(u / 64, 3, 0xF0);
    LastByte(u, 4, 0xF0);
  }

  lemma LastByte(u: nat, k: nat, m: nat)
    requires k > 1
    ensures Utf8Bytes(u, k, m) == Utf8Bytes(u / 64, k - 1, m) + [Byte(0x80 + u % 64)]
  {
  }

  lemma LeadByte(u: nat, m: nat)
    ensures Utf8Bytes(u, 1, m) == [Byte((u + m) % 256)]
  {
  }

  /** Encoding and then reading the bits gives the scalar value back... */
  lemma Utf8Decodes(u: nat)
    requires Scalar(u)
    ensures WellFormed(Utf8(u)) && ScalarOf(Utf8(u)) == u
  {
    Utf8Spelled(u);
    hide Utf8;
  }

  /** ... and no other well-formed sequence denotes it. */
  lemma Utf8Unique(b: seq<byte>)
    requires WellFormed(b)
    ensures Utf8(ScalarOf(b)) == b
  {
    hide Utf8, ScalarOf, WellFormed, Scalar;
    var u := ScalarOf(b);
    ScalarSpelled(b);
    Utf8Spelled(u);
    assert |Utf8(u)| == |b|;
    assert forall i :: 0 <= i < |b| ==> Utf8(u)[i] == b[i];
  }

  lemma ScalarSpelled(b: seq<byte>)
    requires WellFormed(b)
    ensures var u := ScalarOf(b);
            && u <= 0x10FFFF && 1 <= |b| <= 4
            && (|b| == 1 ==> u < 0x80 && b[0] as int == u)
            && (|b| == 2 ==> 0x80 <= u < 0x800 && b[0] as int == 0xC0 + u / 64 && b[1] as int == 0x80 + u % 64)
            && (|b| == 3 ==>
                  0x800 <= u < 0x10000 && b[0] as int == 0xE0 + u / 64 / 64 && b[1] as int == 0x80 + u / 64 % 64
                  && b[2] as int == 0x80 + u % 64)
            && (|b| == 4 ==>
                  0x10000 <= u && b[0] as int == 0xF0 + u / 64 / 64 / 64 && b[1] as int == 0x80 + u / 64 / 64 % 64
                  && b[2] as int == 0x80 + u / 64 % 64 && b[3] as int == 0x80 + u % 64)
  {
  }

  // ---------- UTF-16, section 2.1 of RFC 2781 ----------

  function HighOf(u: nat): nat
    requires 0x10000 <= u <= 0x10FFFF
  {
    0xD800 + (u - 0x10000) / 0x400
  }

  function LowOf(u: nat): nat
    requires 0x10000 <= u <= 0x10FFFF
  {
    0xDC00 + (u - 0x10000) % 0x400
  }

  /** Surrogate pairs correspond one-to-one to the scalar values from 0x10000 on. */
  lemma PairOfScalar(u: nat)
    requires 0x10000 <= u <= 0x10FFFF
    ensures HighSurrogate(HighOf(u)) && LowSurrogate(LowOf(u)) && Combine(HighOf(u), LowOf(u)) == u
  {
  }

  lemma ScalarOfPair(high: nat, low: nat)
    requires HighSurrogate(high) && LowSurrogate(low)
    ensures 0x10000 <= Combine(high, low) <= 0x10FFFF
    ensures HighOf(Combine(high, low)) == high && LowOf(Combine(high, low)) == low
  {
    assert high % 0x400 == high - 0xD800;
    assert low % 0x400 == low - 0xDC00;
  }

  // ---------- literals ----------

  /** A hexadecimal digit, in lower or upper case. */
  predicate Spells(c: byte, d: nat) {
    if d < 10 then c as int == '0' as int + d
    else d < 16 && (c as int == 'a' as int + d - 10 || c as int == 'A' as int + d - 10)
  }

  /** Four of them, each in either case. */
  predicate HexSpells(t: seq<byte>, n: nat) {
    && |t| == 4 && n < 0x10000
    && Spells(t[0], n / 16 / 16 / 16) && Spells(t[1], n / 16 / 16 % 16)
    && Spells(t[2], n / 16 % 16) && Spells(t[3], n % 16)
  }

  lemma HexOf(t: seq<byte>)
    requires |t| == 4 && HexDigits(t)
    ensures HexNumber(t) == HexValue(t[0]).value * 4096 + HexValue(t[1]).value * 256
                          + HexValue(t[2]).value * 16 + HexValue(t[3]).value
  {
    assert t[..3][..2] == t[..2] && t[..2][..1] == t[..1] && t[..1][..0] == [];
    assert HexNumber(t[..1]) == 16 * HexNumber(t[..1][..0]) + HexValue(t[0]).value;
    assert HexNumber(t[..2]) == 16 * HexNumber(t[..2][..1]) + HexValue(t[1]).value;
    assert HexNumber(t[..3]) == 16 * HexNumber(t[..3][..2]) + HexValue(t[2]).value;
  }

  lemma HexTextBack(t: seq<byte>, n: nat)
    requires HexSpells(t, n)
    ensures HexDigits(t) && Hex4(t) == n
  {
    SpelledDigit(t[0], n / 16 / 16 / 16);
    SpelledDigit(t[1], n / 16 / 16 % 16);
    SpelledDigit(t[2], n / 16 % 16);
    SpelledDigit(t[3], n % 16);
    hide HexValue, HexNumber, Spells;
    HexOf(t);
  }

  lemma SpelledDigit(c: byte, d: nat)
    requires Spells(c, d)
    ensures HexValue(c) == Some(d)
  {
  }

  /** No other byte is a hexadecimal digit. */
  lemma HexValueIs(c: byte, d: nat)
    ensures HexValue(c) == Some(d) <==> Spells(c, d)
  {
  }

  /** A literal with a byte that is none stands for 0. */
  lemma MalformedIsZero(t: seq<byte>, i: nat)
    requires |t| == 4 && i < 4 && forall d :: 0 <= d < 16 ==> !Spells(t[i], d)
    ensures Hex4(t) == 0
  {
    hide Spells, HexNumber;
    var v := HexValue(t[i]);
    if v.Some? { HexValueIs(t[i], v.value); }
  }

  /** What the other escapes stand for; there are no more of them. */
  lemma EscapesRead(s: seq<byte>, p: nat, end: nat)
    requires p < end < |s| && s[p] == '\\' && s[p + 1] != 'u'
    ensures var c, r := s[p + 1], DecodeStep(s, p, end);
            if c in "\"\\/" then r == Emit([c], p + 2)
            else if c == 'b' then r == Emit([8 as char], p + 2)
            else if c == 't' then r == Emit([9 as char], p + 2)
            else if c == 'n' then r == Emit([10 as char], p + 2)
            else if c == 'f' then r == Emit([12 as char], p + 2)
            else if c == 'r' then r == Emit([13 as char], p + 2)
            else r == Stuck
  {
    hide Utf16Literal, Utf8;
  }

  /** A scalar value as \uXXXX, or from 0x10000 on as a pair of them, with digits of either case. */
  predicate EscapeSpells(t: seq<byte>, u: nat) {
    if u < 0x10000 then |t| == 6 && t[..2] == "\\u" && HexSpells(t[2..6], u)
    else
      && u <= 0x10FFFF && |t| == 12 && t[..2] == "\\u" && HexSpells(t[2..6], HighOf(u))
      && t[6..8] == "\\u" && HexSpells(t[8..12], LowOf(u))
  }

  lemma LiteralDecodes(u: nat, s: seq<byte>, p: nat, end: nat)
    requires Scalar(u) && p + (if u < 0x10000 then 6 else 12) <= end <= |s|
    requires u < 0x10000 ==> HexSpells(s[p + 2..p + 6], u)
    requires u >= 0x10000 ==> HexSpells(s[p + 2..p + 6], HighOf(u)) && HexSpells(s[p + 8..p + 12], LowOf(u))
    requires u >= 0x10000 ==> s[p + 6] == '\\' && s[p + 7] == 'u'
    ensures Utf16Literal(s, p, end) == CodePoint(u, if u < 0x10000 then 6 else 12)
  {
    hide HexSpells, Hex4, HexDigits;
    if u < 0x10000 {
      HexTextBack(s[p + 2..p + 6], u);
    } else {
      PairOfScalar(u);
      HexTextBack(s[p + 2..p + 6], HighOf(u));
      HexTextBack(s[p + 8..p + 12], LowOf(u));
    }
  }

  lemma Slice(s: seq<byte>, p: nat, t: seq<byte>, i: nat, j: nat)
    requires i <= j <= |t| && p + |t| <= |s| && s[p..p + |t|] == t
    ensures s[p + i..p + j] == t[i..j]
  {
    forall k | 0 <= k < j - i ensures s[p + i..p + j][k] == t[i..j][k] {
      assert t[i + k] == s[p..p + |t|][i + k];
    }
  }

  /** However a scalar value is spelled as \uXXXX or a pair of them, decoding that gives its UTF-8. */
  lemma EscapeDecodes(u: nat, t: seq<byte>, s: seq<byte>, p: nat, end: nat)
    requires Scalar(u) && EscapeSpells(t, u) && p + |t| <= end < |s|
    requires s[p..p + |t|] == t
    ensures var r := DecodeStep(s, p, end);
            && r.Emit? && r.next == p + |t|
            && WellFormed(r.out) && ScalarOf(r.out) == u
  {
    hide WellFormed, ScalarOf, Utf8, HexSpells, Hex4, HexDigits, Utf16Literal;
    Slice(s, p, t, 0, 2);
    assert s[p + 0..p + 2][0] == s[p] && s[p + 0..p + 2][1] == s[p + 1];
    Slice(s, p, t, 2, 6);
    if u >= 0x10000 {
      Slice(s, p, t, 6, 8);
      Slice(s, p, t, 8, 12);
      assert s[p + 6..p + 8][0] == s[p + 6] && s[p + 6..p + 8][1] == s[p + 7];
    }
    LiteralDecodes(u, s, p, end);
    Utf8Decodes(u);
  }

  /** Every scalar value can be spelled, so the above is about all of them. */
  lemma EverySpelling(u: nat) returns (t: seq<byte>)
    requires Scalar(u)
    ensures EscapeSpells(t, u)
  {
    if u < 0x10000 {
      t := "\\u" + Lower(u);
      assert t[2..6] == Lower(u);
    } else {
      var h, l := Lower(HighOf(u)), Lower(LowOf(u));
      t := "\\u" + h + "\\u" + l;
      assert t[2..6] == h && t[6..8] == "\\u" && t[8..12] == l;
    }
  }

  function Lower(n: nat): (t: seq<byte>)
    requires n < 0x10000
    ensures HexSpells(t, n)
  {
    [HexDigit(n / 16 / 16 / 16), HexDigit(n / 16 / 16 % 16), HexDigit(n / 16 % 16), HexDigit(n % 16)]
  }

  /** Half a pair is rejected, and so is a pair whose second half is malformed or cut off. */
  lemma LoneSurrogate(s: seq<byte>, p: nat, end: nat)
    requires p + 6 <= end < |s| && s[p] == '\\' && s[p + 1] == 'u' && HexDigits(s[p + 2..p + 6])
    ensures var u := HexNumber(s[p + 2..p + 6]);
            DecodeStep(s, p, end).Stuck? <==>
              || LowSurrogate(u)
              || (HighSurrogate(u)
                  && !(p + 12 <= end && s[p + 6..p + 8] == "\\u" && HexDigits(s[p + 8..p + 12])
                       && LowSurrogate(HexNumber(s[p + 8..p + 12]))))
  {
    if p + 12 <= end {
      assert s[p + 6..p + 8] == "\\u" <==> s[p + 6] == '\\' && s[p + 7] == 'u' by {
        assert s[p + 6..p + 8] == [s[p + 6], s[p + 7]];
      }
    }
    hide HexNumber, HexDigits, Utf8;
  }
}
