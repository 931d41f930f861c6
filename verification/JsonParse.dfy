/**
 The parser as a function of the input bytes. Positions are offsets into `s`, the first
 `buffer_length` bytes at `value`; a result carries the offset the parser stops at, on
 failure too, because that is the reported error position.
 */
module JsonParse {
  import opened Basics
  import opened JsonText

  datatype Parsed<+T> = Ok(value: T, pos: nat) | Fail(pos: nat)

  const NESTING_LIMIT: nat := 1000

  // ---------- whitespace ----------

  function WsEnd(s: seq<byte>, off: nat): (r: nat)
    requires off <= |s|
    ensures off <= r <= |s|
    ensures forall i :: off <= i < r ==> s[i] <= ' '
    ensures r < |s| ==> s[r] > ' '
    decreases |s| - off
  {
    if off < |s| && s[off] <= ' ' then WsEnd(s, off + 1) else off
  }

  /** Steps back onto the last byte when only whitespace was left. */
  function SkipWs(s: seq<byte>, off: nat): (r: nat)
    requires off <= |s|
    ensures off <= r <= |s|
    ensures off < |s| ==> r < |s|
  {
    if off < |s| && WsEnd(s, off) == |s| then |s| - 1 else WsEnd(s, off)
  }

  // ---------- numbers ----------

  predicate IsDigit(c: byte) { '0' <= c <= '9' }

  predicate Digits(t: seq<byte>) { forall i :: 0 <= i < |t| ==> IsDigit(t[i]) }

  predicate IsNumberByte(c: byte) {
    IsDigit(c) || c == '+' || c == '-' || c == 'e' || c == 'E' || c == '.'
  }

  /** End of the run of bytes that are copied for strtod. */
  function NumberRun(s: seq<byte>, i: nat): (r: nat)
    requires i <= |s|
    ensures i <= r <= |s|
    ensures forall k :: i <= k < r ==> IsNumberByte(s[k])
    ensures r < |s| ==> !IsNumberByte(s[r])
    decreases |s| - i
  {
    if i < |s| && IsNumberByte(s[i]) then NumberRun(s, i + 1) else i
  }

  function DigitRun(s: seq<byte>, i: nat): (r: nat)
    requires i <= |s|
    ensures i <= r <= |s|
    ensures forall k :: i <= k < r ==> IsDigit(s[k])
    ensures r < |s| ==> !IsDigit(s[r])
    decreases |s| - i
  {
    if i < |s| && IsDigit(s[i]) then DigitRun(s, i + 1) else i
  }

  function DigitsValue(t: seq<byte>): nat
    requires Digits(t)
  {
    if t == [] then 0
    else
      assert IsDigit(t[|t| - 1]);
      10 * DigitsValue(t[..|t| - 1]) + (t[|t| - 1] as int - '0' as int)
  }

  function Pow10(n: nat): (p: nat)
    ensures p > 0
  {
    if n == 0 then 1 else 10 * Pow10(n - 1)
  }

  /** A decimal literal taken apart: sign, digits before and after the point, exponent, length. */
  datatype Literal =
    | NoLiteral
    | Literal(negative: bool, whole: seq<byte>, fraction: seq<byte>, exponent: int, length: nat)

  function ExponentAt(t: seq<byte>, e: nat): (r: (int, nat))
    requires e <= |t|
    ensures e <= r.1 <= |t|
  {
    if e < |t| && (t[e] == 'e' || t[e] == 'E') then
      var d := if e + 1 < |t| && (t[e + 1] == '+' || t[e + 1] == '-') then e + 2 else e + 1;
      var f := DigitRun(t, d);
      if f == d then (0, e)
      else
        var x: int := DigitsValue(t[d..f]);
        (if t[e + 1] == '-' then -x else x, f)
    else (0, e)
  }

  /** What strtod accepts at the front of a text of number bytes. */
  function Strtod(t: seq<byte>): (r: Literal)
    ensures r.Literal? ==> 0 < r.length <= |t| && Digits(r.whole) && Digits(r.fraction)
  {
    var b := if |t| > 0 && (t[0] == '+' || t[0] == '-') then 1 else 0;
    var w := DigitRun(t, b);
    var f := if w < |t| && t[w] == '.' then DigitRun(t, w + 1) else w;
    var fraction := if f > w then t[w + 1..f] else [];
    if w == b && fraction == [] then NoLiteral
    else
      var (exponent, end) := ExponentAt(t, f);
      Literal(b == 1 && t[0] == '-', t[b..w], fraction, exponent, end)
  }

  /** The int that a literal denotes exactly, or its text. */
  function NumberValue(t: cstring, l: Literal): (v: Json)
    requires l.Literal? && Digits(l.whole) && Digits(l.fraction)
    ensures v.Num? || v.Real?
  {
    var m := DigitsValue(l.whole + l.fraction);
    var x := l.exponent - |l.fraction|;
    var exact := x >= 0 || m % Pow10(-x) == 0;
    var a := if x >= 0 then m * Pow10(x) else m / Pow10(-x);
    var n := if l.negative then -a else a;
    if exact && -0x8000_0000 <= n < 0x8000_0000 then Num(n) else Real(t)
  }

  function ParseNumber(s: seq<byte>, off: nat): (r: Parsed<Json>)
    requires off <= |s|
    ensures r.Ok? ==> off < r.pos <= |s|
    ensures r.Fail? ==> r.pos == off
  {
    var t: cstring := s[off..NumberRun(s, off)];
    var l := Strtod(t);
    if l.NoLiteral? then Fail(off) else Ok(NumberValue(t[..l.length], l), off + l.length)
  }

  // ---------- strings ----------

  /** First pass: the offset of the closing quote. */
  function Scan(s: seq<byte>, i: nat): (r: Option<nat>)
    requires i <= |s|
    ensures r.Some? ==> i <= r.value < |s| && s[r.value] == '\"'
    decreases |s| - i
  {
    if i == |s| then None
    else if s[i] == '\"' then Some(i)
    else if s[i] != '\\' then Scan(s, i + 1)
    else if i + 1 >= |s| then None
    else Scan(s, i + 2)
  }

  /** Length of the literal less its skipped bytes: what the first pass reserves, but for the quote. */
  function Units(s: seq<byte>, i: nat): nat
    requires i <= |s| && Scan(s, i).Some?
    decreases |s| - i
  {
    if s[i] == '\"' then 0 else 1 + Units(s, if s[i] == '\\' then i + 2 else i + 1)
  }

  function HexValue(c: byte): (r: Option<nat>)
    ensures r.Some? ==> r.value < 16
  {
    if '0' <= c <= '9' then Some(c as int - '0' as int)
    else if 'A' <= c <= 'F' then Some(10 + c as int - 'A' as int)
    else if 'a' <= c <= 'f' then Some(10 + c as int - 'a' as int)
    else None
  }

  predicate HexDigits(t: seq<byte>) { forall i :: 0 <= i < |t| ==> HexValue(t[i]).Some? }

  function HexNumber(t: seq<byte>): (r: nat)
    requires HexDigits(t)
  {
    if t == [] then 0 else 16 * HexNumber(t[..|t| - 1]) + HexValue(t[|t| - 1]).value
  }

  /** 0 when one of the four is no hexadecimal digit. */
  function Hex4(t: seq<byte>): nat
    requires |t| == 4
  {
    if HexDigits(t) then HexNumber(t) else 0
  }

  predicate HighSurrogate(u: nat) { 0xD800 <= u <= 0xDBFF }

  predicate LowSurrogate(u: nat) { 0xDC00 <= u <= 0xDFFF }

  function Combine(high: nat, low: nat): nat {
    0x10000 + (high % 0x400) * 0x400 + low % 0x400
  }

  /** The code point of the literal at `p` and the bytes it takes: one or two \uXXXX. */
  datatype Utf16 = Reject | CodePoint(cp: nat, length: nat)

  function Utf16Literal(s: seq<byte>, p: nat, end: nat): (r: Utf16)
    requires p <= end <= |s|
    ensures r.CodePoint? ==> p + r.length <= end && (r.length == 6 || r.length == 12)
  {
    if end - p < 6 then Reject
    else
      var first := Hex4(s[p + 2..p + 6]);
      if LowSurrogate(first) then Reject
      else if HighSurrogate(first) then
        if end - (p + 6) < 6 then Reject
        else if s[p + 6] != '\\' || s[p + 7] != 'u' then Reject
        else
          var second := Hex4(s[p + 8..p + 12]);
          if !LowSurrogate(second) then Reject else CodePoint(Combine(first, second), 12)
      else CodePoint(first, 6)
  }

  function Utf8Length(cp: nat): nat {
    if cp < 0x80 then 1 else if cp < 0x800 then 2 else if cp < 0x10000 then 3 else 4
  }

  function Byte(n: int): (c: byte)
    requires 0 <= n < 256
    ensures c as int == n
  {
    n as char
  }

  /** The low six bits go to the last of `k` bytes, the rest to those before it. */
  function Utf8Bytes(cp: nat, k: nat, mark: nat): (t: seq<byte>)
    requires 1 <= k
    ensures |t| == k
  {
    if k == 1 then [Byte((cp + mark) % 256)]
    else Utf8Bytes(cp / 64, k - 1, mark) + [Byte(0x80 + cp % 64)]
  }

  function FirstByteMark(k: nat): nat {
    if k == 1 then 0 else if k == 2 then 0xC0 else if k == 3 then 0xE0 else 0xF0
  }

  function Utf8(cp: nat): (t: seq<byte>)
    ensures 1 <= |t| <= 4
  {
    var k := Utf8Length(cp);
    Utf8Bytes(cp, k, FirstByteMark(k))
  }

  function Unescape(c: byte): (r: Option<byte>) {
    match c
    case 'b' => Some(BACKSPACE)
    case 'f' => Some(FORM_FEED)
    case 'n' => Some('\n')
    case 'r' => Some('\r')
    case 't' => Some('\t')
    case '\"' => Some('\"')
    case '\\' => Some('\\')
    case '/' => Some('/')
    case _ => None
  }

  /** Second pass, one round: what is written and where the read pointer goes. */
  datatype Step = Stuck | Emit(out: seq<byte>, next: nat)

  function DecodeStep(s: seq<byte>, p: nat, end: nat): (r: Step)
    requires p < end < |s|
    ensures r.Emit? ==> p < r.next <= end + 1 && 1 <= |r.out| <= 4
  {
    if s[p] != '\\' then Emit([s[p]], p + 1)
    else if s[p + 1] == 'u' then
      match Utf16Literal(s, p, end)
      case Reject => Stuck
      case CodePoint(cp, length) => Emit(Utf8(cp), p + length)
    else
      match Unescape(s[p + 1])
      case None => Stuck
      case Some(c) => Emit([c], p + 2)
  }

  function Decode(s: seq<byte>, p: nat, end: nat): (r: Parsed<seq<byte>>)
    requires p <= end + 1 && end < |s|
    ensures r.Fail? ==> r.pos < end
    ensures r.Ok? ==> end <= r.pos <= end + 1
    decreases end + 1 - p
  {
    if p >= end then Ok([], p)
    else
      match DecodeStep(s, p, end)
      case Stuck => Fail(p)
      case Emit(out, next) =>
        match Decode(s, next, end)
        case Fail(e) => Fail(e)
        case Ok(rest, e) => Ok(out + rest, e)
  }

  /** What a reader of the decoded buffer sees: the bytes before the first NUL. */
  function CString(t: seq<byte>): (r: cstring)
    ensures r <= t
    ensures |r| < |t| ==> t[|r|] == NUL
  {
    if t == [] || t[0] == NUL then [] else [t[0]] + CString(t[1..])
  }

  function ParseString(s: seq<byte>, off: nat): (r: Parsed<cstring>)
    requires off < |s|
    ensures r.Ok? ==> off < r.pos <= |s|
    ensures r.Fail? ==> r.pos <= |s|
  {
    if s[off] != '\"' then Fail(off + 1)
    else
      match Scan(s, off + 1)
      case None => Fail(off + 1)
      case Some(end) =>
        match Decode(s, off + 1, end)
        case Fail(p) => Fail(p)
        case Ok(t, _) => Ok(CString(t), end + 1)
  }

  // ---------- values ----------

  /** `strncmp` against a word of letters, after the length check. */
  predicate At(s: seq<byte>, off: nat, word: seq<byte>): (r: bool)
    ensures r ==> off + |word| <= |s|
  {
    off + |word| <= |s| && s[off..off + |word|] == word
  }

  predicate ByteAt(s: seq<byte>, off: nat, c: byte) {
    off < |s| && s[off] == c
  }

  function ParseValue(s: seq<byte>, off: nat, depth: nat): (r: Parsed<Json>)
    requires off <= |s|
    ensures r.Ok? ==> off < r.pos <= |s|
    ensures r.Fail? ==> r.pos <= |s|
    decreases |s| - off, 2
  {
    if At(s, off, "null") then Ok(Null, off + 4)
    else if At(s, off, "false") then Ok(Bool(false), off + 5)
    else if At(s, off, "true") then Ok(Bool(true), off + 4)
    else if ByteAt(s, off, '\"') then
      match ParseString(s, off)
      case Fail(e) => Fail(e)
      case Ok(t, e) => Ok(Str(t), e)
    else if off < |s| && (s[off] == '-' || IsDigit(s[off])) then ParseNumber(s, off)
    else if ByteAt(s, off, '[') then ParseArray(s, off, depth)
    else if ByteAt(s, off, '{') then ParseObject(s, off, depth)
    else Fail(off)
  }

  function ParseArray(s: seq<byte>, off: nat, depth: nat): (r: Parsed<Json>)
    requires off < |s|
    ensures r.Ok? ==> off < r.pos <= |s|
    ensures r.Fail? ==> r.pos <= |s|
    decreases |s| - off, 1
  {
    if depth >= NESTING_LIMIT then Fail(off)
    else if off + 1 == |s| then Fail(off)
    else
      var p := SkipWs(s, off + 1);
      if s[p] == ']' then Ok(Arr(INil), p + 1)
      else
        match ParseElements(s, p - 1, depth + 1)
        case Fail(e) => Fail(e)
        case Ok(items, e) => Ok(Arr(items), e)
  }

  function ParseObject(s: seq<byte>, off: nat, depth: nat): (r: Parsed<Json>)
    requires off < |s|
    ensures r.Ok? ==> off < r.pos <= |s|
    ensures r.Fail? ==> r.pos <= |s|
    decreases |s| - off, 1
  {
    if depth >= NESTING_LIMIT then Fail(off)
    else if off + 1 == |s| then Fail(off)
    else
      var p := SkipWs(s, off + 1);
      if s[p] == '}' then Ok(Obj(MNil), p + 1)
      else
        match ParseMembers(s, p - 1, depth + 1)
        case Fail(e) => Fail(e)
        case Ok(members, e) => Ok(Obj(members), e)
  }

  /** From the byte before an element to past the closing bracket. */
  function ParseElements(s: seq<byte>, p: nat, depth: nat): (r: Parsed<Items>)
    requires p < |s|
    ensures r.Ok? ==> p < r.pos <= |s|
    ensures r.Fail? ==> r.pos <= |s|
    decreases |s| - p, 0
  {
    match ParseValue(s, SkipWs(s, p + 1), depth)
    case Fail(e) => Fail(e)
    case Ok(v, q) =>
      var e := SkipWs(s, q);
      if ByteAt(s, e, ',') then
        match ParseElements(s, e, depth)
        case Fail(e') => Fail(e')
        case Ok(tail, e') => Ok(ICons(v, tail), e')
      else if ByteAt(s, e, ']') then Ok(ICons(v, INil), e + 1)
      else Fail(e)
  }

  /** From the byte before a key to past the closing brace. */
  function ParseMembers(s: seq<byte>, p: nat, depth: nat): (r: Parsed<Members>)
    requires p < |s|
    ensures r.Ok? ==> p < r.pos <= |s|
    ensures r.Fail? ==> r.pos <= |s|
    decreases |s| - p, 0
  {
    if p + 1 >= |s| then Fail(p)
    else
      match ParseString(s, SkipWs(s, p + 1))
      case Fail(e) => Fail(e)
      case Ok(key, k) =>
        var c := SkipWs(s, k);
        if !ByteAt(s, c, ':') then Fail(c)
        else
          match ParseValue(s, SkipWs(s, c + 1), depth)
          case Fail(e) => Fail(e)
          case Ok(v, q) =>
            var e := SkipWs(s, q);
            if ByteAt(s, e, ',') then
              match ParseMembers(s, e, depth)
              case Fail(e') => Fail(e')
              case Ok(rest, e') => Ok(MCons(key, v, rest), e')
            else if ByteAt(s, e, '}') then Ok(MCons(key, v, MNil), e + 1)
            else Fail(e)
  }

  // ---------- entry point ----------

  const BOM: seq<byte> := [Byte(0xEF), Byte(0xBB), Byte(0xBF)]

  function SkipBom(s: seq<byte>): (r: nat)
    ensures r <= |s|
  {
    if 4 < |s| && At(s, 0, BOM) then 3 else 0
  }

  /** `cJSON_ParseWithLengthOpts`; on failure the offset is the error position. */
  function Parse(s: seq<byte>, requireNul: bool): (r: Parsed<Json>)
    ensures r.Ok? ==> r.pos <= |s|
    ensures r.Fail? && s != [] ==> r.pos < |s|
  {
    if s == [] then Fail(0)
    else
      match ParseValue(s, SkipWs(s, SkipBom(s)), 0)
      case Fail(e) => Fail(ErrorPosition(s, e))
      case Ok(v, e) =>
        if !requireNul then Ok(v, e)
        else
          var z := SkipWs(s, e);
          if ByteAt(s, z, NUL) then Ok(v, z) else Fail(ErrorPosition(s, z))
  }

  function ErrorPosition(s: seq<byte>, e: nat): nat
    requires s != []
  {
    if e < |s| then e else |s| - 1
  }
}
