/**
 Parsing what was printed gives the tree back, exactly when it is not nested too deeply.
 The lemmas follow the tree; each says what the parser does on a text that holds the
 rendering of a subtree somewhere.
 */
module RoundTrip {
  import opened Basics
  import opened JsonText
  import opened JsonParse

  // ---------- texts inside texts ----------

  lemma AtSplit(t: seq<byte>, off: nat, a: seq<byte>, b: seq<byte>)
    requires At(t, off, a + b)
    ensures At(t, off, a) && At(t, off + |a|, b)
  {
    var x := t[off..off + |a + b|];
    assert x[..|a|] == a && x[|a|..] == b;
  }

  lemma AtJoin(t: seq<byte>, off: nat, a: seq<byte>, b: seq<byte>)
    requires At(t, off, a) && At(t, off + |a|, b)
    ensures At(t, off, a + b)
  {
    assert t[off..off + |a + b|] == t[off..off + |a|] + t[off + |a|..off + |a| + |b|];
  }

  lemma AtIndex(t: seq<byte>, off: nat, a: seq<byte>, i: nat)
    requires At(t, off, a) && i < |a|
    ensures t[off + i] == a[i]
  {
    assert t[off..off + |a|][i] == a[i];
  }

  lemma Starts(s: seq<byte>, off: nat, word: seq<byte>)
    requires word != "" && off < |s| && s[off] != word[0]
    ensures !At(s, off, word)
  {
    if At(s, off, word) { AtIndex(s, off, word, 0); }
  }

  /** A value is told apart by its first byte. */
  lemma Dispatch(s: seq<byte>, off: nat, depth: nat)
    requires off < |s| && s[off] != 'n' && s[off] != 'f' && s[off] != 't'
    ensures ParseValue(s, off, depth) ==
            if s[off] == '\"' then
              (match ParseString(s, off) case Fail(e) => Fail(e) case Ok(t, e) => Ok(Str(t), e))
            else if s[off] == '-' || IsDigit(s[off]) then ParseNumber(s, off)
            else if s[off] == '[' then ParseArray(s, off, depth)
            else if s[off] == '{' then ParseObject(s, off, depth)
            else Fail(off)
  {
    Starts(s, off, "null");
    Starts(s, off, "false");
    Starts(s, off, "true");
  }

  // ---------- numbers ----------

  predicate NumberEnds(t: seq<byte>, e: nat) {
    e < |t| ==> !IsNumberByte(t[e])
  }

  lemma {:induction false} DecNatValue(n: nat)
    ensures Digits(DecNat(n)) && DigitsValue(DecNat(n)) == n
  {
    if n < 10 {
      assert DecNat(n)[..0] == [];
    } else {
      DecNatValue(n / 10);
      assert DecNat(n)[..|DecNat(n)| - 1] == DecNat(n / 10);
    }
  }

  lemma DecIntDigits(n: int32)
    ensures var d := DecNat(if n < 0 then -(n as int) else n);
            DecInt(n) == (if n < 0 then "-" else "") + d && d != "" && Digits(d)
            && DigitsValue(d) == if n < 0 then -(n as int) else n
  {
    DecNatValue(if n < 0 then -(n as int) else n);
  }

  lemma StrtodSigned(sign: seq<byte>, d: seq<byte>)
    requires (sign == "" || sign == "-") && d != "" && Digits(d)
    ensures Strtod(sign + d) == Literal(sign == "-", d, [], 0, |sign + d|)
  {
    var t := sign + d;
    assert IsDigit(d[0]) && t[|sign|] == d[0];
    assert forall i :: |sign| <= i < |t| ==> t[i] == d[i - |sign|];
    assert DigitRun(t, |sign|) == |t|;
    assert t[|sign|..|t|] == d;
  }

  lemma WholeValue(t: cstring, l: Literal, n: int32)
    requires l.Literal? && l.fraction == [] && l.exponent == 0 && Digits(l.whole)
    requires DigitsValue(l.whole) == if n < 0 then -(n as int) else n
    requires l.negative == (n < 0)
    ensures NumberValue(t, l) == Num(n)
  {
    assert l.whole + l.fraction == l.whole;
    assert Pow10(0) == 1;
  }

  lemma StrtodDecInt(n: int32)
    ensures var l := Strtod(DecInt(n));
            l.Literal? && l.length == |DecInt(n)| && NumberValue(DecInt(n), l) == Num(n)
  {
    hide Strtod, NumberValue, DecNat;
    DecIntDigits(n);
    StrtodSigned(if n < 0 then "-" else "", DecNat(if n < 0 then -(n as int) else n));
    WholeValue(DecInt(n), Strtod(DecInt(n)), n);
  }

  lemma NumberRunAt(d: seq<byte>, t: seq<byte>, off: nat)
    requires At(t, off, d) && NumberEnds(t, off + |d|)
    requires forall i :: 0 <= i < |d| ==> IsNumberByte(d[i])
    ensures NumberRun(t, off) == off + |d|
  {
    hide At;
    forall i | off <= i < off + |d| ensures IsNumberByte(t[i]) {
      AtIndex(t, off, d, i - off);
    }
  }

  lemma NumberBack(n: int32, t: seq<byte>, off: nat)
    requires At(t, off, DecInt(n)) && NumberEnds(t, off + |DecInt(n)|)
    ensures ParseNumber(t, off) == Ok(Num(n), off + |DecInt(n)|)
  {
    var d := DecInt(n);
    hide Strtod, NumberValue, DecInt, DecNat;
    assert forall i :: 0 <= i < |d| ==> IsNumberByte(d[i]) by { DecIntDigits(n); }
    NumberRunAt(d, t, off);
    StrtodDecInt(n);
    assert d[..|d|] == d;
  }

  // ---------- strings ----------

  lemma ScanOver(c: byte, t: seq<byte>, i: nat)
    requires At(t, i, EscapeByte(c))
    ensures Scan(t, i) == Scan(t, i + |EscapeByte(c)|)
  {
    var x := EscapeByte(c);
    forall k | 0 <= k < |x| ensures t[i + k] == x[k] { AtIndex(t, i, x, k); }
    if |x| == 6 { ScanHex(t, i + 2); }
  }

  lemma {:induction false} ScanEscaped(s: cstring, t: seq<byte>, i: nat)
    requires At(t, i, Escape(s)) && ByteAt(t, i + |Escape(s)|, '\"')
    ensures Scan(t, i) == Some(i + |Escape(s)|)
  {
    hide At, Escape, EscapeByte, Scan;
    Escaped(s);
    if s == [] {
      ScanStops(t, i);
    } else {
      AtSplit(t, i, EscapeByte(s[0]), Escape(s[1..]));
      ScanOver(s[0], t, i);
      ScanEscaped(s[1..], t, i + |EscapeByte(s[0])|);
    }
  }

  lemma Escaped(s: cstring)
    ensures Escape(s) == if s == [] then [] else EscapeByte(s[0]) + Escape(s[1..])
  {
  }

  lemma ScanStops(t: seq<byte>, i: nat)
    requires ByteAt(t, i, '\"')
    ensures Scan(t, i) == Some(i)
  {
  }

  lemma ScanHex(t: seq<byte>, i: nat)
    requires i + 4 <= |t| && forall k :: i <= k < i + 4 ==> HexValue(t[k]).Some?
    ensures Scan(t, i) == Scan(t, i + 4)
  {
    assert Scan(t, i) == Scan(t, i + 1);
    assert Scan(t, i + 1) == Scan(t, i + 2);
    assert Scan(t, i + 2) == Scan(t, i + 3);
  }

  /** "%04x" of a control character reads back as that character. */
  lemma Hex4Back(c: byte)
    requires c < ' '
    ensures Hex4("00" + [HexDigit(c as int / 16), HexDigit(c as int % 16)]) == c as int
  {
    var t := "00" + [HexDigit(c as int / 16), HexDigit(c as int % 16)];
    assert HexDigits(t);
    assert t[..3][..2] == "00" && t[..3][2] == t[2];
    assert HexNumber("0") == 16 * HexNumber("0"[..0]) + 0;
    assert "00"[..1] == "0";
    assert HexNumber("00") == 0;
    assert HexNumber(t[..3]) == HexValue(t[2]).value;
  }

  lemma DecodeStepBack(c: byte, t: seq<byte>, p: nat, end: nat)
    requires At(t, p, EscapeByte(c)) && p + |EscapeByte(c)| <= end < |t|
    ensures DecodeStep(t, p, end) == Emit([c], p + |EscapeByte(c)|)
  {
    hide At, Utf16Literal, Utf8;
    var x := EscapeByte(c);
    AtIndex(t, p, x, 0);
    if |x| == 2 {
      AtIndex(t, p, x, 1);
      assert DecodeStep(t, p, end) == Emit([c], p + 2);
    } else if |x| == 6 {
      AtIndex(t, p, x, 1);
      ControlBack(c, t, p, end);
    } else {
      assert x == [c] && c != '\\';
    }
  }

  lemma ControlBack(c: byte, t: seq<byte>, p: nat, end: nat)
    requires |EscapeByte(c)| == 6 && At(t, p, EscapeByte(c)) && p + 6 <= end < |t|
    ensures c < ' ' && Utf16Literal(t, p, end) == CodePoint(c as int, 6) && Utf8(c as int) == [c]
  {
    var x := EscapeByte(c);
    AtIndex(t, p, x, 0);
    AtIndex(t, p, x, 1);
    var digits := "00" + [HexDigit(c as int / 16), HexDigit(c as int % 16)];
    assert x == "\\u" + digits;
    AtSplit(t, p, "\\u", digits);
    assert t[p + 2..p + 6] == digits;
    Hex4Back(c);
  }

  lemma {:induction false} DecodeEscaped(s: cstring, t: seq<byte>, p: nat, end: nat)
    requires At(t, p, Escape(s)) && p + |Escape(s)| == end < |t|
    ensures Decode(t, p, end) == Ok(s, end)
  {
    hide At, Escape, EscapeByte, DecodeStep;
    Escaped(s);
    if s != [] {
      AtSplit(t, p, EscapeByte(s[0]), Escape(s[1..]));
      DecodeStepBack(s[0], t, p, end);
      DecodeEscaped(s[1..], t, p + |EscapeByte(s[0])|, end);
      assert [s[0]] + s[1..] == s;
    }
  }

  lemma {:induction false} CStringId(s: cstring)
    ensures CString(s) == s
  {
    if s == [] {
    } else {
      CStringId(s[1..]);
    }
  }

  lemma StringBack(s: cstring, t: seq<byte>, off: nat)
    requires At(t, off, Quoted(s))
    ensures ParseString(t, off) == Ok(s, off + |Quoted(s)|)
  {
    hide At;
    AtSplit(t, off, "\"" + Escape(s), "\"");
    AtSplit(t, off, "\"", Escape(s));
    AtIndex(t, off, "\"", 0);
    AtIndex(t, off + 1 + |Escape(s)|, "\"", 0);
    ScanEscaped(s, t, off + 1);
    DecodeEscaped(s, t, off + 1, off + 1 + |Escape(s)|);
    CStringId(s);
  }

  // ---------- values ----------

  lemma QuotedStart(s: cstring)
    ensures Quoted(s) != "" && Quoted(s)[0] == '\"'
  {
    assert ("\"" + Escape(s))[0] == '\"';
  }

  lemma RenderStart(v: Json, fmt: bool, depth: nat)
    requires Plain(v)
    ensures var t := Render(v, fmt, depth); t != "" && t[0] > ' ' && t[0] != ']'
    ensures v.Num? ==> IsDigit(Render(v, fmt, depth)[0]) || Render(v, fmt, depth)[0] == '-'
  {
    if v.Num? {
      DecIntDigits(v.n);
    }
  }

  predicate BackAs<T(==)>(r: Parsed<T>, nested: nat, v: T, e: nat) {
    if nested <= NESTING_LIMIT then r == Ok(v, e) else r.Fail?
  }

  lemma {:induction false} ValueBack(v: Json, fmt: bool, depth: nat, t: seq<byte>, off: nat, nest: nat)
    requires Plain(v) && nest <= NESTING_LIMIT
    requires At(t, off, Render(v, fmt, depth)) && NumberEnds(t, off + |Render(v, fmt, depth)|)
    ensures BackAs(ParseValue(t, off, nest), nest + Depth(v), v, off + |Render(v, fmt, depth)|)
    decreases v
  {
    hide ParseNumber, ParseString, ParseArray, ParseObject, RenderItems, RenderMembers, Quoted, DecInt, NumberEnds,
         ItemsDepth, MembersDepth;
    var text := Render(v, fmt, depth);
    RenderStart(v, fmt, depth);
    AtIndex(t, off, text, 0);
    match v
    case Null =>
    case Bool(b) =>
      if b { Starts(t, off, "false"); }
    case Num(n) =>
      Dispatch(t, off, nest);
      NumberBack(n, t, off);
    case Str(s) =>
      QuotedStart(s);
      Dispatch(t, off, nest);
      StringBack(s, t, off);
    case Arr(items) =>
      Dispatch(t, off, nest);
      ArrayBack(items, fmt, depth, t, off, nest);
    case Obj(members) =>
      Dispatch(t, off, nest);
      ObjectBack(members, fmt, depth, t, off, nest);
  }

  lemma SkipsTo(t: seq<byte>, i: nat, q: nat)
    requires i <= q < |t| && t[q] > ' ' && forall k :: i <= k < q ==> t[k] <= ' '
    ensures SkipWs(t, i) == q
  {
  }

  lemma {:induction false} ArrayBack(items: Items, fmt: bool, depth: nat, t: seq<byte>, off: nat, nest: nat)
    requires PlainItems(items) && nest <= NESTING_LIMIT
    requires At(t, off, "[" + RenderItems(items, fmt, depth + 1) + "]")
    ensures off < |t| && BackAs(ParseArray(t, off, nest), nest + 1 + ItemsDepth(items), Arr(items),
                   off + |RenderItems(items, fmt, depth + 1)| + 2)
    decreases items, 1
  {
    hide RenderItems, SkipWs, At, ParseElements, ItemsDepth;
    ArrayLayout(items, fmt, depth, t, off);
    if nest == NESTING_LIMIT {
      assert ParseArray(t, off, nest).Fail?;
    } else if items.ICons? {
      ItemsBack(items, fmt, depth + 1, t, off, off + 1, nest + 1);
      if nest + 1 + ItemsDepth(items) > NESTING_LIMIT {
        assert ParseArray(t, off, nest).Fail?;
      } else {
        assert ParseArray(t, off, nest) == Ok(Arr(items), off + |RenderItems(items, fmt, depth + 1)| + 2);
      }
    } else {
      NoDepth();
      assert ParseArray(t, off, nest) == Ok(Arr(items), off + 2);
    }
  }

  lemma ArrayLayout(items: Items, fmt: bool, depth: nat, t: seq<byte>, off: nat)
    requires PlainItems(items)
    requires At(t, off, "[" + RenderItems(items, fmt, depth + 1) + "]")
    ensures t[off] == '[' && off + 1 < |t| && SkipWs(t, off + 1) == off + 1
    ensures At(t, off + 1, RenderItems(items, fmt, depth + 1) + "]")
    ensures t[off + 1] == ']' <==> items == INil
    ensures items == INil ==> RenderItems(items, fmt, depth + 1) == ""
  {
    hide At, Render, RenderItems, SkipWs, Plain;
    RenderINil(fmt, depth + 1);
    var inner := RenderItems(items, fmt, depth + 1);
    AtSplit(t, off, "[" + inner, "]");
    AtSplit(t, off, "[", inner);
    AtJoin(t, off + 1, inner, "]");
    AtIndex(t, off, "[", 0);
    if items.ICons? {
      RenderStart(items.head, fmt, depth + 1);
      ItemParts(items, fmt, depth + 1, t, off + 1);
      AtIndex(t, off + 1, Render(items.head, fmt, depth + 1), 0);
    } else {
      AtIndex(t, off + 1, "]", 0);
    }
    SkipsTo(t, off + 1, off + 1);
  }

  lemma RenderINil(fmt: bool, depth: nat)
    ensures RenderItems(INil, fmt, depth) == ""
  {
  }

  lemma RenderICons(items: Items, fmt: bool, depth: nat)
    requires items.ICons?
    ensures RenderItems(items, fmt, depth)
         == Render(items.head, fmt, depth) + ItemSeparator(items.tail, fmt) + RenderItems(items.tail, fmt, depth)
  {
  }

  lemma ItemParts(items: Items, fmt: bool, depth: nat, t: seq<byte>, q: nat)
    requires items.ICons? && At(t, q, RenderItems(items, fmt, depth))
    ensures var text, sep, rest := Render(items.head, fmt, depth), ItemSeparator(items.tail, fmt),
                RenderItems(items.tail, fmt, depth);
            && At(t, q, text) && At(t, q + |text|, sep) && At(t, q + |text| + |sep|, rest)
            && |RenderItems(items, fmt, depth)| == |text| + |sep| + |rest|
  {
    var text, sep, rest := Render(items.head, fmt, depth), ItemSeparator(items.tail, fmt), RenderItems(items.tail,
        fmt, depth);
    RenderICons(items, fmt, depth);
    hide *;
    AtSplit(t, q, text + sep, rest);
    AtSplit(t, q, text, sep);
  }

  lemma {:induction false} ItemsBack(items: Items, fmt: bool, depth: nat, t: seq<byte>, p: nat, q: nat, nest: nat)
    requires items.ICons? && PlainItems(items) && nest <= NESTING_LIMIT
    requires p < q && At(t, q, RenderItems(items, fmt, depth) + "]") && SkipWs(t, p + 1) == q
    ensures BackAs(ParseElements(t, p, nest), nest + ItemsDepth(items), items, q + |RenderItems(items, fmt, depth)| + 1)
    decreases items, 0
  {
    hide RenderItems, Render, ItemSeparator, SkipWs, At, ParseValue, ParseElements, NumberEnds, Depth, ItemsDepth;
    DepthOfItems(items);
    ItemsLayout(items, fmt, depth, t, q);
    ValueBack(items.head, fmt, depth, t, q, nest);
    ElementsStep(t, p, nest);
    if items.tail.ICons? {
      var e := q + |Render(items.head, fmt, depth)|;
      ItemsBack(items.tail, fmt, depth, t, e, e + |ItemSeparator(items.tail, fmt)|, nest);
      if nest + ItemsDepth(items) > NESTING_LIMIT {
        assert ParseElements(t, p, nest).Fail?;
      } else {
        assert ParseElements(t, p, nest) == Ok(items, q + |RenderItems(items, fmt, depth)| + 1);
      }
    }
  }

  lemma NoDepth()
    ensures ItemsDepth(INil) == 0 && MembersDepth(MNil) == 0
  {
  }

  lemma DepthOfItems(items: Items)
    requires items.ICons?
    ensures PlainItems(items) ==> Plain(items.head) && PlainItems(items.tail)
    ensures ItemsDepth(items) == Max(Depth(items.head), ItemsDepth(items.tail))
    ensures items.tail.INil? ==> ItemsDepth(items.tail) == 0
  {
  }

  lemma DepthOfMembers(members: Members)
    requires members.MCons?
    ensures PlainMembers(members) ==> Plain(members.val) && PlainMembers(members.rest)
    ensures MembersDepth(members) == Max(Depth(members.val), MembersDepth(members.rest))
    ensures members.rest.MNil? ==> MembersDepth(members.rest) == 0
  {
  }

  lemma ElementsStep(t: seq<byte>, p: nat, nest: nat)
    requires p < |t|
    ensures var r := ParseValue(t, SkipWs(t, p + 1), nest);
            && (r.Fail? ==> ParseElements(t, p, nest).Fail?)
            && (r.Ok? && r.pos < |t| && SkipWs(t, r.pos) == r.pos ==>
                  && (t[r.pos] == ']' ==> ParseElements(t, p, nest) == Ok(ICons(r.value, INil), r.pos + 1))
                  && (t[r.pos] == ',' ==>
                        match ParseElements(t, r.pos, nest)
                        case Fail(_) => ParseElements(t, p, nest).Fail?
                        case Ok(tail, e) => ParseElements(t, p, nest) == Ok(ICons(r.value, tail), e)))
  {
    hide ParseValue, SkipWs;
  }

  /** Where the first element ends and what comes after it. */
  lemma ItemsLayout(items: Items, fmt: bool, depth: nat, t: seq<byte>, q: nat)
    requires items.ICons? && PlainItems(items)
    requires At(t, q, RenderItems(items, fmt, depth) + "]")
    ensures At(t, q, Render(items.head, fmt, depth))
    ensures var e := q + |Render(items.head, fmt, depth)|;
            var n := |ItemSeparator(items.tail, fmt)|;
            && NumberEnds(t, e) && e < |t| && SkipWs(t, e) == e
            && |RenderItems(items, fmt, depth)| == |Render(items.head, fmt, depth)| + n
               + |RenderItems(items.tail, fmt, depth)|
            && (items.tail.INil? ==> t[e] == ']' && n == 0 && RenderItems(items.tail, fmt, depth) == "")
            && (items.tail.ICons? ==>
                  t[e] == ',' && n > 0 && SkipWs(t, e + 1) == e + n
                  && At(t, e + n, RenderItems(items.tail, fmt, depth) + "]"))
  {
    hide At;
    hide *;
    DepthOfItems(items);
    var e := q + |Render(items.head, fmt, depth)|;
    var sep, rest := ItemSeparator(items.tail, fmt), RenderItems(items.tail, fmt, depth);
    AtSplit(t, q, RenderItems(items, fmt, depth), "]");
    ItemParts(items, fmt, depth, t, q);
    AtJoin(t, e + |sep|, rest, "]");
    AfterItem(items.tail, fmt, depth, t, e);
  }

  lemma AfterItem(tail: Items, fmt: bool, depth: nat, t: seq<byte>, e: nat)
    requires PlainItems(tail)
    requires At(t, e, ItemSeparator(tail, fmt))
    requires At(t, e + |ItemSeparator(tail, fmt)|, RenderItems(tail, fmt, depth) + "]")
    ensures var n := |ItemSeparator(tail, fmt)|;
            && NumberEnds(t, e) && e < |t| && SkipWs(t, e) == e
            && (tail.INil? ==> t[e] == ']' && n == 0 && RenderItems(tail, fmt, depth) == "")
            && (tail.ICons? ==> t[e] == ',' && n > 0 && SkipWs(t, e + 1) == e + n)
  {
    hide At, SkipWs, Render;
    var sep, rest := ItemSeparator(tail, fmt), RenderItems(tail, fmt, depth);
    AtSplit(t, e + |sep|, rest, "]");
    if tail.ICons? {
      AtIndex(t, e, sep, 0);
      if fmt { AtIndex(t, e, sep, 1); }
      RenderStart(tail.head, fmt, depth);
      ItemParts(tail, fmt, depth, t, e + |sep|);
      AtIndex(t, e + |sep|, Render(tail.head, fmt, depth), 0);
      SkipsTo(t, e + 1, e + |sep|);
    } else {
      AtIndex(t, e, "]", 0);
    }
    SkipsTo(t, e, e);
  }

  lemma {:induction false} ObjectBack(members: Members, fmt: bool, depth: nat, t: seq<byte>, off: nat, nest: nat)
    requires PlainMembers(members) && nest <= NESTING_LIMIT
    requires At(t, off, Render(Obj(members), fmt, depth))
    ensures off < |t| && BackAs(ParseObject(t, off, nest), nest + 1 + MembersDepth(members), Obj(members),
                   off + |Render(Obj(members), fmt, depth)|)
    decreases members, 1
  {
    hide RenderMembers, Render, SkipWs, At, ParseMembers, MembersDepth;
    ObjectLayout(members, fmt, depth, t, off);
    var end := off + |Render(Obj(members), fmt, depth)|;
    if nest == NESTING_LIMIT {
      assert ParseObject(t, off, nest).Fail?;
    } else if members.MCons? {
      var m := off + 1 + |Opt(fmt, "\n")|;
      var q := m + |Opt(fmt, Tabs(depth + 1))|;
      MembersBack(members, fmt, depth + 1, t, q - 1, m, nest + 1);
      if nest + 1 + MembersDepth(members) > NESTING_LIMIT {
        assert ParseObject(t, off, nest).Fail?;
      } else {
        assert ParseObject(t, off, nest) == Ok(Obj(members), end);
      }
    } else {
      NoDepth();
      assert ParseObject(t, off, nest) == Ok(Obj(members), end);
    }
  }

  lemma ObjectLayout(members: Members, fmt: bool, depth: nat, t: seq<byte>, off: nat)
    requires At(t, off, Render(Obj(members), fmt, depth))
    ensures off + 1 < |t| && t[off] == '{'
    ensures var m := off + 1 + |Opt(fmt, "\n")|;
            var q := m + |Opt(fmt, Tabs(if members.MCons? then depth + 1 else depth))|;
            && q < |t| && SkipWs(t, off + 1) == q
            && |Render(Obj(members), fmt, depth)| == m - off + |RenderMembers(members, fmt, depth + 1)|
               + |Opt(fmt, Tabs(depth))| + 1
            && (members.MNil? ==> t[q] == '}' && RenderMembers(members, fmt, depth + 1) == "")
            && (members.MCons? ==>
                  t[q] == '\"' && SkipWs(t, q) == q
                  && At(t, m, RenderMembers(members, fmt, depth + 1) + (Opt(fmt, Tabs(depth)) + "}")))
  {
    hide At;
    hide *;
    var nl, inner, tabs := Opt(fmt, "\n"), RenderMembers(members, fmt, depth + 1), Opt(fmt, Tabs(depth));
    var m := off + 1 + |nl|;
    RenderObj(members, fmt, depth);
    Braced(t, off, nl, inner, tabs);
    NewLine(fmt, t, off + 1);
    if members.MNil? {
      Indented(t, m, fmt, depth, "}");
      SkipsTo(t, off + 1, m + |tabs|);
    } else {
      KeyStart(members, fmt, depth + 1, t, m);
      var q := m + |Opt(fmt, Tabs(depth + 1))|;
      SkipsTo(t, off + 1, q);
      SkipsTo(t, q, q);
    }
  }

  lemma Braced(t: seq<byte>, off: nat, nl: seq<byte>, inner: seq<byte>, tabs: seq<byte>)
    requires At(t, off, "{" + nl + inner + tabs + "}")
    ensures var m := off + 1 + |nl|;
            && off < |t| && t[off] == '{' && At(t, off + 1, nl) && At(t, m, inner)
            && At(t, m, inner + (tabs + "}")) && At(t, m + |inner|, tabs + "}")
  {
    hide At;
    AtSplit(t, off, "{" + nl + inner + tabs, "}");
    AtSplit(t, off, "{" + nl + inner, tabs);
    AtSplit(t, off, "{" + nl, inner);
    AtSplit(t, off, "{", nl);
    AtIndex(t, off, "{", 0);
    AtJoin(t, off + 1 + |nl| + |inner|, tabs, "}");
    AtJoin(t, off + 1 + |nl|, inner, tabs + "}");
  }

  lemma RenderObj(members: Members, fmt: bool, depth: nat)
    ensures Render(Obj(members), fmt, depth)
         == "{" + Opt(fmt, "\n") + RenderMembers(members, fmt, depth + 1) + Opt(fmt, Tabs(depth)) + "}"
    ensures RenderMembers(MNil, fmt, depth + 1) == ""
  {
  }

  lemma NewLine(fmt: bool, t: seq<byte>, i: nat)
    requires At(t, i, Opt(fmt, "\n"))
    ensures forall k :: i <= k < i + |Opt(fmt, "\n")| ==> t[k] == '\n'
  {
    if fmt { AtIndex(t, i, "\n", 0); }
  }

  lemma Indented(t: seq<byte>, m: nat, fmt: bool, depth: nat, after: seq<byte>)
    requires after != "" && At(t, m, Opt(fmt, Tabs(depth)) + after)
    ensures var q := m + |Opt(fmt, Tabs(depth))|;
            q < |t| && t[q] == after[0] && forall k :: m <= k < q ==> t[k] == '\t'
  {
    hide At;
    var tabs := Opt(fmt, Tabs(depth));
    AtSplit(t, m, tabs, after);
    AtIndex(t, m + |tabs|, after, 0);
    forall k | m <= k < m + |tabs| ensures t[k] == '\t' { AtIndex(t, m, tabs, k - m); }
  }

  lemma RenderMCons(members: Members, fmt: bool, depth: nat)
    requires members.MCons?
    ensures RenderMembers(members, fmt, depth)
         == Opt(fmt, Tabs(depth)) + Quoted(members.key) + ":" + Opt(fmt, "\t") + Render(members.val, fmt, depth)
          + MemberSeparator(members.rest, fmt) + RenderMembers(members.rest, fmt, depth)
  {
  }

  lemma MemberParts(members: Members, fmt: bool, depth: nat, t: seq<byte>, m: nat)
    requires members.MCons? && At(t, m, RenderMembers(members, fmt, depth))
    ensures var MCons(key, v, rest) := members;
            var q := m + |Opt(fmt, Tabs(depth))|;
            var c := q + |Quoted(key)|;
            var w := c + 1 + |Opt(fmt, "\t")|;
            var e := w + |Render(v, fmt, depth)|;
            var n := |MemberSeparator(rest, fmt)|;
            && At(t, m, Opt(fmt, Tabs(depth))) && At(t, q, Quoted(key)) && At(t, c, ":")
            && At(t, c + 1, Opt(fmt, "\t")) && At(t, w, Render(v, fmt, depth))
            && At(t, e, MemberSeparator(rest, fmt)) && At(t, e + n, RenderMembers(rest, fmt, depth))
            && m + |RenderMembers(members, fmt, depth)| == e + n + |RenderMembers(rest, fmt, depth)|
  {
    hide *;
    var MCons(key, v, rest) := members;
    var tabs, k, space := Opt(fmt, Tabs(depth)), Quoted(key), Opt(fmt, "\t");
    var text, sep, inner := Render(v, fmt, depth), MemberSeparator(rest, fmt), RenderMembers(rest, fmt, depth);
    RenderMCons(members, fmt, depth);
    AtSplit(t, m, tabs + k + ":" + space + text + sep, inner);
    AtSplit(t, m, tabs + k + ":" + space + text, sep);
    AtSplit(t, m, tabs + k + ":" + space, text);
    AtSplit(t, m, tabs + k + ":", space);
    AtSplit(t, m, tabs + k, ":");
    AtSplit(t, m, tabs, k);
  }

  /** The text of a non-empty chain of members is indentation and then a quote. */
  lemma KeyStart(members: Members, fmt: bool, depth: nat, t: seq<byte>, m: nat)
    requires members.MCons? && At(t, m, RenderMembers(members, fmt, depth))
    ensures var q := m + |Opt(fmt, Tabs(depth))|;
            q < |t| && t[q] == '\"' && forall k :: m <= k < q ==> t[k] == '\t'
  {
    hide At, Render, RenderMembers;
    MemberParts(members, fmt, depth, t, m);
    AtJoin(t, m, Opt(fmt, Tabs(depth)), Quoted(members.key));
    Indented(t, m, fmt, depth, Quoted(members.key));
  }

  lemma {:induction false} MembersBack(members: Members, fmt: bool, depth: nat, t: seq<byte>, p: nat, m: nat, nest: nat)
    requires members.MCons? && PlainMembers(members) && nest <= NESTING_LIMIT && depth > 0
    requires At(t, m, RenderMembers(members, fmt, depth) + (Opt(fmt, Tabs(depth - 1)) + "}"))
    requires p < m + |Opt(fmt, Tabs(depth))| <= |t| && SkipWs(t, p + 1) == m + |Opt(fmt, Tabs(depth))|
    ensures BackAs(ParseMembers(t, p, nest), nest + MembersDepth(members), members,
                   m + |RenderMembers(members, fmt, depth)| + |Opt(fmt, Tabs(depth - 1))| + 1)
    decreases members, 0
  {
    hide RenderMembers, Render, Quoted, Opt, Tabs, MemberSeparator, NumberEnds, At, SkipWs, ByteAt;
    hide ParseValue, ParseString, ParseMembers, Depth, MembersDepth, PlainMembers;
    var MCons(key, v, rest) := members;
    var q := m + |Opt(fmt, Tabs(depth))|;
    var w := q + |Quoted(key)| + 1 + |Opt(fmt, "\t")|;
    var e := w + |Render(v, fmt, depth)|;
    DepthOfMembers(members);
    MemberLayout(members, fmt, depth, t, m);
    StringBack(key, t, q);
    ValueBack(v, fmt, depth, t, w, nest);
    MembersStep(t, p, nest);
    if rest.MCons? {
      MembersBack(rest, fmt, depth, t, e, e + |MemberSeparator(rest, fmt)|, nest);
    }
    if nest + MembersDepth(members) > NESTING_LIMIT {
      assert ParseMembers(t, p, nest).Fail?;
    } else {
      assert ParseMembers(t, p, nest)
          == Ok(members, m + |RenderMembers(members, fmt, depth)| + |Opt(fmt, Tabs(depth - 1))| + 1);
    }
  }

  lemma MembersStep(t: seq<byte>, p: nat, nest: nat)
    requires p + 1 < |t|
    ensures var k := ParseString(t, SkipWs(t, p + 1));
            k.Ok? && k.pos < |t| && t[k.pos] == ':' && SkipWs(t, k.pos) == k.pos ==>
              var r := ParseValue(t, SkipWs(t, k.pos + 1), nest);
              && (r.Fail? ==> ParseMembers(t, p, nest).Fail?)
              && (r.Ok? ==>
                    var e := SkipWs(t, r.pos);
                    && (e < |t| && t[e] == '}' ==> ParseMembers(t, p, nest) == Ok(MCons(k.value, r.value, MNil), e + 1))
                    && (e < |t| && t[e] == ',' ==>
                          match ParseMembers(t, e, nest)
                          case Fail(_) => ParseMembers(t, p, nest).Fail?
                          case Ok(rest, e') => ParseMembers(t, p, nest) == Ok(MCons(k.value, r.value, rest), e')))
  {
    hide ParseValue, SkipWs, ParseString;
  }

  /** Where the first member's key, colon and value stand and what comes after it. */
  lemma MemberLayout(members: Members, fmt: bool, depth: nat, t: seq<byte>, m: nat)
    requires members.MCons? && PlainMembers(members) && depth > 0
    requires At(t, m, RenderMembers(members, fmt, depth) + (Opt(fmt, Tabs(depth - 1)) + "}"))
    ensures var MCons(key, v, rest) := members;
            var c := m + |Opt(fmt, Tabs(depth))| + |Quoted(key)|;
            var w := c + 1 + |Opt(fmt, "\t")|;
            var e := w + |Render(v, fmt, depth)|;
            var n := |MemberSeparator(rest, fmt)|;
            var close := |Opt(fmt, Tabs(depth - 1))|;
            var q' := e + n + |Opt(fmt, Tabs(depth))|;
            && At(t, m + |Opt(fmt, Tabs(depth))|, Quoted(key))
            && c < |t| && t[c] == ':' && SkipWs(t, c) == c && SkipWs(t, c + 1) == w
            && At(t, w, Render(v, fmt, depth)) && NumberEnds(t, e) && e < |t|
            && m + |RenderMembers(members, fmt, depth)| == e + n + |RenderMembers(rest, fmt, depth)|
            && (rest.MNil? ==>
                  e + n + close < |t| && t[e + n + close] == '}' && SkipWs(t, e) == e + n + close
                  && RenderMembers(rest, fmt, depth) == "")
            && (rest.MCons? ==>
                  t[e] == ',' && SkipWs(t, e) == e && q' <= |t| && e < q' && SkipWs(t, e + 1) == q'
                  && At(t, e + n, RenderMembers(rest, fmt, depth) + (Opt(fmt, Tabs(depth - 1)) + "}")))
  {
    hide At;
    hide At, Render, RenderMembers, Quoted, MemberSeparator, Opt, SkipWs;
    var MCons(key, v, rest) := members;
    var close := Opt(fmt, Tabs(depth - 1)) + "}";
    AtSplit(t, m, RenderMembers(members, fmt, depth), close);
    MemberParts(members, fmt, depth, t, m);
    var c := m + |Opt(fmt, Tabs(depth))| + |Quoted(key)|;
    var w := c + 1 + |Opt(fmt, "\t")|;
    AtIndex(t, c, ":", 0);
    SkipsTo(t, c, c);
    ValueStart(v, fmt, depth, t, c + 1);
    AfterMember(rest, fmt, depth, t, w + |Render(v, fmt, depth)|);
  }

  lemma ValueStart(v: Json, fmt: bool, depth: nat, t: seq<byte>, i: nat)
    requires Plain(v) && At(t, i, Opt(fmt, "\t")) && At(t, i + |Opt(fmt, "\t")|, Render(v, fmt, depth))
    ensures SkipWs(t, i) == i + |Opt(fmt, "\t")|
  {
    hide At, Render, SkipWs, Plain;
    RenderStart(v, fmt, depth);
    if fmt { AtIndex(t, i, "\t", 0); }
    AtIndex(t, i + |Opt(fmt, "\t")|, Render(v, fmt, depth), 0);
    SkipsTo(t, i, i + |Opt(fmt, "\t")|);
  }

  /** What follows a member's value: a comma and the next key, or blanks and the closing brace. */
  lemma AfterMember(rest: Members, fmt: bool, depth: nat, t: seq<byte>, e: nat)
    requires depth > 0 && At(t, e, MemberSeparator(rest, fmt))
    requires At(t, e + |MemberSeparator(rest, fmt)|, RenderMembers(rest, fmt, depth))
    requires At(t, e + |MemberSeparator(rest, fmt)| + |RenderMembers(rest, fmt, depth)|, Opt(fmt,
                Tabs(depth - 1)) + "}")
    ensures var n := |MemberSeparator(rest, fmt)|;
            var z := e + n + |Opt(fmt, Tabs(depth - 1))|;
            var q' := e + n + |Opt(fmt, Tabs(depth))|;
            && NumberEnds(t, e) && e < |t|
            && (rest.MNil? ==> z < |t| && t[z] == '}' && SkipWs(t, e) == z && RenderMembers(rest, fmt, depth) == "")
            && (rest.MCons? ==>
                  t[e] == ',' && SkipWs(t, e) == e && q' <= |t| && e < q' && SkipWs(t, e + 1) == q'
                  && At(t, e + n, RenderMembers(rest, fmt, depth) + (Opt(fmt, Tabs(depth - 1)) + "}")))
  {
    hide *;
    var sep, close := MemberSeparator(rest, fmt), Opt(fmt, Tabs(depth - 1)) + "}";
    SeparatorBytes(rest, fmt, depth, t, e);
    if rest.MNil? {
      Indented(t, e + |sep|, fmt, depth - 1, "}");
      SkipsTo(t, e, e + |sep| + |close| - 1);
    } else {
      AtJoin(t, e + |sep|, RenderMembers(rest, fmt, depth), close);
      KeyStart(rest, fmt, depth, t, e + |sep|);
      SkipsTo(t, e, e);
      SkipsTo(t, e + 1, e + |sep| + |Opt(fmt, Tabs(depth))|);
    }
    assert e < |t| && t[e] in ",}\n\t";
    Ends(t, e);
  }

  lemma Ends(t: seq<byte>, e: nat)
    requires e < |t| && t[e] in ",}\n\t"
    ensures NumberEnds(t, e)
  {
  }

  lemma SeparatorBytes(rest: Members, fmt: bool, depth: nat, t: seq<byte>, e: nat)
    requires At(t, e, MemberSeparator(rest, fmt))
    ensures var n := |MemberSeparator(rest, fmt)|;
            && (rest.MNil? ==> RenderMembers(rest, fmt, depth) == "" && forall k :: e <= k < e + n ==> t[k] == '\n')
            && (rest.MCons? ==> n > 0 && t[e] == ',' && forall k :: e < k < e + n ==> t[k] == '\n')
  {
    forall k | e <= k < e + |MemberSeparator(rest, fmt)| ensures t[k] == MemberSeparator(rest, fmt)[k - e] {
      AtIndex(t, e, MemberSeparator(rest, fmt), k - e);
    }
  }

  /**
   Parsing the printed text of a plain tree, NUL-terminated and with the terminator required,
   gives the tree back and consumes everything if its containers nest at most 1000 deep,
   and fails otherwise.
   */
  lemma PrintThenParse(v: Json, fmt: bool)
    requires Plain(v)
    ensures var t := Render(v, fmt, 0);
            if Depth(v) <= 1000 then Parse(t + [NUL], true) == Ok(v, |t|) else Parse(t + [NUL], true).Fail?
    ensures var t := Render(v, fmt, 0);
            if Depth(v) <= 1000 then Parse(t, false) == Ok(v, |t|) else Parse(t, false).Fail?
  {
    hide Render, ParseValue, Depth;
    var t := Render(v, fmt, 0);
    WholeBack(v, fmt, t);
    WholeBack(v, fmt, t + [NUL]);
    assert (t + [NUL])[|t|] == NUL;
  }

  lemma WholeBack(v: Json, fmt: bool, s: seq<byte>)
    requires Plain(v) && Render(v, fmt, 0) <= s && NumberEnds(s, |Render(v, fmt, 0)|)
    ensures s != [] && BackAs(ParseValue(s, SkipWs(s, SkipBom(s)), 0), Depth(v), v, |Render(v, fmt, 0)|)
  {
    hide Render, ParseValue, SkipWs, Depth, NumberEnds;
    RenderStart(v, fmt, 0);
    NoBom(v, fmt, s);
    SkipsTo(s, 0, 0);
    ValueBack(v, fmt, 0, s, 0, 0);
  }

  lemma NoBom(v: Json, fmt: bool, s: seq<byte>)
    requires Plain(v) && Render(v, fmt, 0) <= s
    ensures !At(s, 0, BOM)
  {
    RenderStart(v, fmt, 0);
    if At(s, 0, BOM) { AtIndex(s, 0, BOM, 0); }
  }

  // ---------- what is parsed can be printed and parsed again ----------

  /** No tree that is parsed nests more than 1000 containers. */
  lemma {:induction false} ParsedDepth(s: seq<byte>, off: nat, depth: nat)
    requires off <= |s| && depth <= NESTING_LIMIT && ParseValue(s, off, depth).Ok?
    ensures depth + Depth(ParseValue(s, off, depth).value) <= NESTING_LIMIT
    decreases |s| - off, 1
  {
    hide ParseString, At, SkipWs, ParseNumber, ParseElements, ParseMembers;
    ScalarDepth(s, off);
    if ByteAt(s, off, '[') && ParseArray(s, off, depth).Ok? {
      var p := SkipWs(s, off + 1);
      SkipStays(s, off + 1);
      if s[p] != ']' { ParsedElementsDepth(s, p - 1, depth + 1); }
    }
    if ByteAt(s, off, '{') && ParseObject(s, off, depth).Ok? {
      var p := SkipWs(s, off + 1);
      SkipStays(s, off + 1);
      if s[p] != '}' { ParsedMembersDepth(s, p - 1, depth + 1); }
    }
  }

  lemma ScalarDepth(s: seq<byte>, off: nat)
    requires off <= |s|
    ensures ParseNumber(s, off).Ok? ==> Depth(ParseNumber(s, off).value) == 0
    ensures Depth(Arr(INil)) == 1 && Depth(Obj(MNil)) == 1
  {
    hide Strtod;
  }

  lemma SkipStays(s: seq<byte>, i: nat)
    requires i < |s|
    ensures i <= SkipWs(s, i) < |s|
  {
  }

  lemma {:induction false} ParsedElementsDepth(s: seq<byte>, p: nat, depth: nat)
    requires p < |s| && depth <= NESTING_LIMIT && ParseElements(s, p, depth).Ok?
    ensures depth + ItemsDepth(ParseElements(s, p, depth).value) <= NESTING_LIMIT
    decreases |s| - p, 0
  {
    hide ParseValue, Depth;
    var v := ParseValue(s, SkipWs(s, p + 1), depth);
    ParsedDepth(s, SkipWs(s, p + 1), depth);
    var e := SkipWs(s, v.pos);
    if ByteAt(s, e, ',') { ParsedElementsDepth(s, e, depth); }
  }

  lemma {:induction false} ParsedMembersDepth(s: seq<byte>, p: nat, depth: nat)
    requires p < |s| && depth <= NESTING_LIMIT && ParseMembers(s, p, depth).Ok?
    ensures depth + MembersDepth(ParseMembers(s, p, depth).value) <= NESTING_LIMIT
    decreases |s| - p, 0
  {
    hide ParseValue, Depth, Scan, Decode;
    var k := ParseString(s, SkipWs(s, p + 1));
    var c := SkipWs(s, k.pos);
    var v := ParseValue(s, SkipWs(s, c + 1), depth);
    ParsedDepth(s, SkipWs(s, c + 1), depth);
    var e := SkipWs(s, v.pos);
    if ByteAt(s, e, ',') { ParsedMembersDepth(s, e, depth); }
  }

  /** Whatever was parsed, with ints for numbers: printing it and parsing that gives it again. */
  lemma ParsePrintParse(s: seq<byte>, requireNul: bool, fmt: bool)
    requires Parse(s, requireNul).Ok? && Plain(Parse(s, requireNul).value)
    ensures var v := Parse(s, requireNul).value;
            var t := Render(v, fmt, 0);
            Depth(v) <= 1000 && Parse(t + [NUL], true) == Ok(v, |t|)
  {
    hide ParseValue, Depth, Render;
    ParsedDepth(s, SkipWs(s, SkipBom(s)), 0);
    PrintThenParse(Parse(s, requireNul).value, fmt);
  }
}
