/**
 The two passes over a string literal. The first counts the bytes to reserve, taking a
 backslash and its successor as one; the second decodes, and takes six bytes at a time for
 \uXXXX even when they are no digits, so it can land between a backslash and its successor
 as the first pass paired them. What is reserved suffices all the same: an account of the
 remaining units never goes negative.
 */
module StringBound {
  import opened Basics
  import opened JsonText
  import opened JsonParse

  /** The first pass, started at `p`, ends at `end`. */
  predicate InStep(s: seq<byte>, p: nat, end: nat) {
    p <= |s| && Scan(s, p) == Some(end)
  }

  /** The read pointer of the second pass is at `p`: in step, or on a byte the first pass skipped. */
  predicate Reading(s: seq<byte>, p: nat, end: nat, between: bool) {
    if between then InStep(s, p + 1, end) else InStep(s, p, end)
  }

  /** How many more bytes may be written from here on. */
  function Allowance(s: seq<byte>, p: nat, end: nat, between: bool): nat
    requires Reading(s, p, end, between)
  {
    if between then Units(s, p + 1) + 1 else Units(s, p)
  }

  /** One unit further; the second pass may stop short of the unit's last byte. */
  lemma NextUnit(s: seq<byte>, p: nat, end: nat)
    requires InStep(s, p, end) && p < end
    ensures s[p] != '\"'
    ensures s[p] != '\\' ==> InStep(s, p + 1, end) && Units(s, p) == 1 + Units(s, p + 1)
    ensures s[p] == '\\' ==> InStep(s, p + 2, end) && Units(s, p) == 1 + Units(s, p + 2)
  {
  }

  /** `n` bytes hold at least half as many units. */
  lemma {:induction false} Span(s: seq<byte>, p: nat, n: nat, end: nat) returns (between: bool)
    requires InStep(s, p, end) && p + n <= end
    ensures Reading(s, p + n, end, between)
    ensures if between then 2 * Units(s, p) >= 2 * Units(s, p + n + 1) + n + 1
            else 2 * Units(s, p) >= 2 * Units(s, p + n) + n
    decreases n
  {
    hide Scan, Units;
    if n == 0 {
      between := false;
    } else {
      NextUnit(s, p, end);
      if s[p] != '\\' {
        between := Span(s, p + 1, n - 1, end);
      } else if n == 1 {
        between := true;
      } else {
        between := Span(s, p + 2, n - 2, end);
      }
    }
  }

  /** Four hexadecimal digits are four units. */
  lemma HexSpan(s: seq<byte>, p: nat, end: nat)
    requires InStep(s, p, end) && p + 4 <= end && HexDigits(s[p..p + 4])
    ensures InStep(s, p + 4, end) && Units(s, p) == 4 + Units(s, p + 4)
  {
    hide Scan, Units;
    forall k | p <= k < p + 4 ensures HexValue(s[k]).Some? { assert s[k] == s[p..p + 4][k - p]; }
    NextUnit(s, p, end);
    NextUnit(s, p + 1, end);
    NextUnit(s, p + 2, end);
    NextUnit(s, p + 3, end);
  }

  /** After the backslash and the `u`, at least one unit is paid for. */
  lemma AfterU(s: seq<byte>, p: nat, end: nat, between: bool)
    requires Reading(s, p, end, between) && p + 1 < end && s[p] == '\\' && s[p + 1] == 'u'
    ensures InStep(s, p + 2, end) && Allowance(s, p, end, between) >= 1 + Units(s, p + 2)
  {
    hide Scan, Units;
    if between { NextUnit(s, p + 1, end); } else { NextUnit(s, p, end); }
  }

  lemma Utf16Fits(s: seq<byte>, p: nat, end: nat, between: bool) returns (between': bool)
    requires Reading(s, p, end, between) && p < end < |s| && s[p] == '\\' && s[p + 1] == 'u'
    requires Utf16Literal(s, p, end).CodePoint?
    ensures var r := Utf16Literal(s, p, end);
            && Reading(s, p + r.length, end, between')
            && |Utf8(r.cp)| + Allowance(s, p + r.length, end, between') <= Allowance(s, p, end, between)
  {
    hide Scan, Units, HexDigits, HexNumber;
    AfterU(s, p, end, between);
    if !HexDigits(s[p + 2..p + 6]) {
      between' := Span(s, p + 2, 4, end);
    } else {
      between' := false;
      HexSpan(s, p + 2, end);
      var first := Hex4(s[p + 2..p + 6]);
      HexBound(s[p + 2..p + 6]);
      if HighSurrogate(first) {
        AfterU(s, p + 6, end, false);
        HexSpan(s, p + 8, end);
      }
    }
  }

  lemma HexBound(t: seq<byte>)
    requires |t| == 4
    ensures Hex4(t) < 0x10000
  {
    assert t[..3][..2] == t[..2] && t[..2][..1] == t[..1] && t[..1][..0] == [];
    if HexDigits(t) {
      assert HexNumber(t[..1]) < 16;
      assert HexNumber(t[..2]) < 256;
      assert HexNumber(t[..3]) < 4096;
    }
  }

  /**
   One round of the second pass writes no more than the account gives up, whatever it reads.
   The pointer can pass the closing quote by one, and only as the last thing it does.
   */
  lemma StepFits(s: seq<byte>, p: nat, end: nat, between: bool) returns (between': bool)
    requires Reading(s, p, end, between) && p < end < |s| && DecodeStep(s, p, end).Emit?
    ensures var r := DecodeStep(s, p, end);
            && (r.next <= end ==>
                  && Reading(s, r.next, end, between')
                  && |r.out| + Allowance(s, r.next, end, between') <= Allowance(s, p, end, between))
            && (r.next == end + 1 ==> between && p + 1 == end && |r.out| <= Allowance(s, p, end, between))
  {
    hide Scan, Units, Utf16Literal, Utf8;
    if s[p] != '\\' {
      between' := false;
      if !between { NextUnit(s, p, end); }
    } else if s[p + 1] == 'u' {
      between' := Utf16Fits(s, p, end, between);
    } else if !between {
      between' := false;
      NextUnit(s, p, end);
    } else if p + 1 == end {
      between' := false;
    } else {
      between' := s[p + 1] == '\\';
      NextUnit(s, p + 1, end);
    }
  }

  /** The decoded string is never longer than the first pass counted. */
  lemma {:induction false} DecodeFits(s: seq<byte>, p: nat, end: nat, between: bool)
    requires p <= end < |s| && Reading(s, p, end, between) && Decode(s, p, end).Ok?
    ensures |Decode(s, p, end).value| <= Allowance(s, p, end, between)
    decreases end - p
  {
    hide Scan, Units, Utf16Literal, Utf8, DecodeStep;
    if p < end {
      var between' := StepFits(s, p, end, between);
      var next := DecodeStep(s, p, end).next;
      if next <= end { DecodeFits(s, next, end, between'); }
    }
  }
}
