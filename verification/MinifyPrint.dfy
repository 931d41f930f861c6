/**
 Minifying twice is minifying once; and minifying the formatted print of a tree gives its
 unformatted print, exactly unless some string ends in a backslash where it matters.
 */
module MinifyPrint {
  import opened Basics
  import opened JsonText
  import opened Minify

  // ---------- idempotence ----------

  lemma InStringKeepsFirst(s: seq<byte>)
    ensures s == [] ==> InString(s) == []
    ensures s != [] ==> InString(s) != [] && InString(s)[0] == s[0]
  {
  }

  /** For every text: a second pass changes nothing. */
  lemma {:induction false} MinifyTwice(s: seq<byte>)
    ensures Minified(Minified(s)) == Minified(s)
    ensures InString(InString(s)) == InString(s)
    decreases |s|
  {
    if s == [] {
    } else {
      OutsideTwice(s);
      InsideTwice(s);
    }
  }

  lemma {:induction false} OutsideTwice(s: seq<byte>)
    requires s != []
    ensures Minified(Minified(s)) == Minified(s)
    decreases |s|, 0
  {
    if Blank(s[0]) {
      MinifyTwice(s[1..]);
    } else if s[0] == '/' {
      if |s| > 1 && s[1] == '/' { MinifyTwice(AfterLine(s[2..])); }
      else if |s| > 1 && s[1] == '*' { MinifyTwice(AfterComment(s[2..])); }
      else { MinifyTwice(s[1..]); }
    } else {
      MinifyTwice(s[1..]);
      var rest := if s[0] == '\"' then InString(s[1..]) else Minified(s[1..]);
      assert ([s[0]] + rest)[1..] == rest;
    }
  }

  lemma {:induction false} InsideTwice(s: seq<byte>)
    requires s != []
    ensures InString(InString(s)) == InString(s)
    decreases |s|, 0
  {
    if s[0] == '\"' {
      MinifyTwice(s[1..]);
      assert ([s[0]] + Minified(s[1..]))[1..] == Minified(s[1..]);
    } else if s[0] == '\\' && |s| > 1 && s[1] == '\"' {
      MinifyTwice(s[2..]);
      assert ([s[0], s[1]] + InString(s[2..]))[2..] == InString(s[2..]);
    } else {
      MinifyTwice(s[1..]);
      InStringKeepsFirst(s[1..]);
      assert ([s[0]] + InString(s[1..]))[1..] == InString(s[1..]);
    }
  }

  // ---------- which trees print alike ----------

  predicate SafeText(s: seq<byte>) { s == [] || s[|s| - 1] != '\\' }

  predicate Ordinary(c: byte) { c > ' ' && c != '/' && c != '\"' }

  /** Raw-free, and numbers look like numbers. */
  predicate Clean(v: Json) {
    match v
    case Real(text) => text != [] && forall i :: 0 <= i < |text| ==> Ordinary(text[i])
    case Raw(_) => false
    case Arr(items) => CleanItems(items)
    case Obj(members) => CleanMembers(members)
    case _ => true
  }

  predicate CleanItems(items: Items) {
    items.ICons? ==> Clean(items.head) && CleanItems(items.tail)
  }

  predicate CleanMembers(members: Members) {
    members.MCons? ==> Clean(members.val) && CleanMembers(members.rest)
  }

  /** No string and no key ends in a backslash. */
  predicate Safe(v: Json) {
    match v
    case Str(s) => SafeText(s)
    case Arr(items) => SafeItems(items)
    case Obj(members) => SafeMembers(members)
    case _ => true
  }

  predicate SafeItems(items: Items) {
    items.ICons? ==> Safe(items.head) && SafeItems(items.tail)
  }

  predicate SafeMembers(members: Members) {
    members.MCons? ==> SafeText(members.key) && Safe(members.val) && SafeMembers(members.rest)
  }

  /** The same but for a string that only closing brackets follow: the last one, in arrays alone. */
  predicate SafeButLast(v: Json) {
    match v
    case Str(_) => true
    case Arr(items) => SafeButLastItem(items)
    case _ => Safe(v)
  }

  predicate SafeButLastItem(items: Items) {
    match items
    case INil => true
    case ICons(v, tail) => if tail.INil? then SafeButLast(v) else Safe(v) && SafeButLastItem(tail)
  }

  lemma {:induction false} SafeIsSafer(v: Json)
    ensures Safe(v) ==> SafeButLast(v)
  {
    match v
    case Arr(items) => SafeItemsAreSafer(items);
    case _ =>
  }

  lemma {:induction false} SafeItemsAreSafer(items: Items)
    ensures SafeItems(items) ==> SafeButLastItem(items)
  {
    match items
    case INil =>
    case ICons(v, tail) =>
      SafeIsSafer(v);
      SafeItemsAreSafer(tail);
  }

  // ---------- strings ----------

  function Next(inString: bool, rest: seq<byte>): seq<byte> {
    if inString then InString(rest) else Minified(rest)
  }

  lemma MinifiedCons(c: byte, x: seq<byte>)
    ensures Blank(c) ==> Minified([c] + x) == Minified(x)
    ensures !Blank(c) && c != '/' && c != '\"' ==> Minified([c] + x) == [c] + Minified(x)
    ensures c == '\"' ==> Minified([c] + x) == [c] + InString(x)
  {
    assert ([c] + x)[1..] == x;
  }

  lemma InStringCons(c: byte, x: seq<byte>)
    ensures c == '\"' ==> InString([c] + x) == [c] + Minified(x)
    ensures c != '\"' && (c == '\\' ==> x == [] || x[0] != '\"') ==> InString([c] + x) == [c] + InString(x)
    ensures c == '\\' && x != [] && x[0] == '\"' ==> InString([c] + x) == [c, x[0]] + InString(x[1..])
  {
    assert ([c] + x)[1..] == x;
    if x != [] { assert ([c] + x)[2..] == x[1..]; }
  }

  /** Bytes that are neither quotes nor backslashes. */
  lemma {:induction false} InStringPlain(t: seq<byte>, x: seq<byte>)
    requires forall i :: 0 <= i < |t| ==> t[i] != '\"' && t[i] != '\\'
    ensures InString(t + x) == t + InString(x)
  {
    if t == [] {
      assert t + x == x;
    } else {
      assert t + x == [t[0]] + (t[1..] + x);
      InStringCons(t[0], t[1..] + x);
      InStringPlain(t[1..], x);
    }
  }

  lemma EscapeShapes(c: byte)
    ensures var e := EscapeByte(c);
            || (e == [c] && c != '\"' && c != '\\')
            || (c == '\"' && e == ['\\'] + ['\"'])
            || (c == '\\' && e == ['\\'] + ['\\'])
            || (c != '\"' && c != '\\' && e == ['\\'] + e[1..] && e[1..] != []
                && forall i :: 0 <= i < |e[1..]| ==> e[1..][i] != '\"' && e[1..][i] != '\\')
  {
    if '\0' <= c < ' ' && c != BACKSPACE && c != FORM_FEED && c != '\n' && c != '\r' && c != '\t' {
      var h := [HexDigit(c as int / 16), HexDigit(c as int % 16)];
      assert EscapeByte(c)[1..] == "u00" + h;
    }
  }

  lemma InStringEscape(c: byte, x: seq<byte>)
    requires c == '\\' ==> x == [] || x[0] != '\"'
    ensures InString(EscapeByte(c) + x) == EscapeByte(c) + InString(x)
  {
    hide InString, EscapeByte;
    EscapeShapes(c);
    var e := EscapeByte(c);
    if e == [c] {
      InStringCons(c, x);
    } else {
      var t := e[1..] + x;
      assert e + x == ['\\'] + t;
      InStringCons('\\', t);
      if c == '\"' {
        assert t[0] == '\"' && t[1..] == x;
      } else if c == '\\' {
        assert t == ['\\'] + x;
        InStringCons('\\', x);
      } else {
        InStringPlain(e[1..], x);
        assert t[0] == e[1..][0];
      }
    }
  }

  lemma EscapeFirst(s: cstring, x: seq<byte>)
    requires s != []
    ensures (Escape(s) + x)[0] != '\"'
  {
  }

  /** A closing quote after a backslash is taken for an escaped one, and the string goes on. */
  lemma {:induction false} InStringEscaped(s: cstring, rest: seq<byte>)
    ensures InString(Escape(s) + ("\"" + rest)) == Escape(s) + "\"" + Next(!SafeText(s), rest)
  {
    hide InString, EscapeByte, Minified;
    var x := "\"" + rest;
    if s == [] {
      assert Escape(s) + x == x;
      InStringCons('\"', rest);
    } else if s == ['\\'] {
      LastBackslash(s, rest);
    } else {
      var e, tail := EscapeByte(s[0]), Escape(s[1..]);
      assert Escape(s) + x == e + (tail + x);
      if |s| > 1 { EscapeFirst(s[1..], x); }
      assert s[0] == '\\' ==> (tail + x)[0] != '\"';
      InStringEscape(s[0], tail + x);
      InStringEscaped(s[1..], rest);
      assert e + (tail + "\"" + Next(!SafeText(s), rest)) == e + tail + "\"" + Next(!SafeText(s), rest);
    }
  }

  lemma LastBackslash(s: cstring, rest: seq<byte>)
    requires s == ['\\']
    ensures InString(Escape(s) + ("\"" + rest)) == Escape(s) + "\"" + InString(rest)
  {
    hide InString, Minified;
    var x := "\"" + rest;
    assert Escape(s) == ['\\', '\\'];
    assert Escape(s) + x == ['\\'] + (['\\'] + x);
    InStringCons('\\', ['\\'] + x);
    InStringCons('\\', x);
    assert x[1..] == rest;
  }

  lemma MinifiedQuoted(s: cstring, rest: seq<byte>)
    ensures Minified(Quoted(s) + rest) == Quoted(s) + Next(!SafeText(s), rest)
  {
    hide Escape, InString, Minified;
    assert Quoted(s) + rest == ['\"'] + (Escape(s) + ("\"" + rest));
    MinifiedCons('\"', Escape(s) + ("\"" + rest));
    InStringEscaped(s, rest);
  }

  lemma {:induction false} MinifiedOrdinary(t: seq<byte>, rest: seq<byte>)
    requires forall i :: 0 <= i < |t| ==> Ordinary(t[i])
    ensures Minified(t + rest) == t + Minified(rest)
  {
    if t == [] {
      assert t + rest == rest;
    } else {
      assert t + rest == [t[0]] + (t[1..] + rest);
      MinifiedCons(t[0], t[1..] + rest);
      MinifiedOrdinary(t[1..], rest);
    }
  }

  lemma {:induction false} MinifiedBlanks(t: seq<byte>, rest: seq<byte>)
    requires forall i :: 0 <= i < |t| ==> Blank(t[i])
    ensures Minified(t + rest) == Minified(rest)
  {
    if t == [] {
      assert t + rest == rest;
    } else {
      assert t + rest == [t[0]] + (t[1..] + rest);
      MinifiedCons(t[0], t[1..] + rest);
      MinifiedBlanks(t[1..], rest);
    }
  }

  // ---------- prefixes ----------

  lemma PrefixMore(a: seq<byte>, b: seq<byte>, x: seq<byte>)
    ensures a + b <= x ==> a <= x
  {
  }

  lemma PrefixBehind(a: seq<byte>, b: seq<byte>, x: seq<byte>)
    ensures a + b <= a + x <==> b <= x
  {
    assert (a + b)[|a|..] == b && (a + x)[|a|..] == x;
    if a + b <= a + x {
      assert b == (a + b)[|a|..] == (a + x)[..|a + b|][|a|..] == x[..|b|];
    }
  }

  lemma Mismatch(a: seq<byte>, b: seq<byte>, x: seq<byte>)
    requires b != [] && x != [] && b[0] != x[0]
    ensures !(a + b <= a + x)
  {
    PrefixBehind(a, b, x);
  }

  // ---------- trees ----------

  lemma {:induction false} DecNatOrdinary(n: nat)
    ensures forall i :: 0 <= i < |DecNat(n)| ==> Ordinary(DecNat(n)[i])
  {
    if n >= 10 { DecNatOrdinary(n / 10); }
  }

  lemma FirstByte(v: Json, depth: nat)
    requires Clean(v)
    ensures var t := Render(v, false, depth); t != "" && t[0] > ' ' && t[0] != '\t'
  {
    if v.Num? { DecNatOrdinary(if v.n < 0 then -(v.n as int) else v.n); }
  }

  /**
   Minifying `formatted` and whatever follows it keeps `plain`: then goes on outside strings if
   everything is safe, inside a string if only the last one is not, and otherwise what is kept
   does not even begin with `plain`.
   */
  ghost predicate MinifiesTo(formatted: seq<byte>, plain: seq<byte>, rest: seq<byte>, safe: bool, safeButLast: bool) {
    if safe then Minified(formatted + rest) == plain + Minified(rest)
    else if safeButLast then Minified(formatted + rest) == plain + InString(rest)
    else !(plain <= Minified(formatted + rest))
  }

  lemma {:induction false} ValueMinifies(v: Json, depth: nat, rest: seq<byte>)
    requires Clean(v)
    ensures MinifiesTo(Render(v, true, depth), Render(v, false, depth), rest, Safe(v), SafeButLast(v))
    decreases v, 1
  {
    hide RenderItems, RenderMembers, Minified, InString, Quoted, DecNat;
    match v
    case Null => MinifiedOrdinary("null", rest);
    case Bool(b) => MinifiedOrdinary(if b then "true" else "false", rest);
    case Num(n) =>
      DecNatOrdinary(if n < 0 then -(n as int) else n);
      MinifiedOrdinary(DecInt(n), rest);
    case Real(text) => MinifiedOrdinary(text, rest);
    case Str(s) => MinifiedQuoted(s, rest);
    case Arr(items) => ArrayMinifies(items, depth, rest);
    case Obj(members) => ObjectMinifies(members, depth, rest);
  }

  lemma {:induction false} ArrayMinifies(items: Items, depth: nat, rest: seq<byte>)
    requires CleanItems(items)
    ensures MinifiesTo(Render(Arr(items), true, depth), Render(Arr(items), false, depth), rest,
                       SafeItems(items), SafeButLastItem(items))
    decreases items, 2
  {
    hide RenderItems, Minified, InString;
    var f, p := RenderItems(items, true, depth + 1) + "]", RenderItems(items, false, depth + 1) + "]";
    assert Render(Arr(items), true, depth) + rest == ['['] + (f + rest);
    assert Render(Arr(items), false, depth) == ['['] + p;
    MinifiedCons('[', f + rest);
    ItemsMinify(items, depth + 1, rest);
    PrefixBehind(['['], p, Minified(f + rest));
    SafeItemsAreSafer(items);
  }

  lemma {:induction false} ItemsMinify(items: Items, depth: nat, rest: seq<byte>)
    requires CleanItems(items)
    ensures MinifiesTo(RenderItems(items, true, depth) + "]", RenderItems(items, false, depth) + "]", rest,
                       SafeItems(items), SafeButLastItem(items))
    decreases items, 1
  {
    hide Render, Minified, InString;
    match items
    case INil =>
      assert RenderItems(items, true, depth) + "]" + rest == [']'] + rest;
      MinifiedCons(']', rest);
    case ICons(v, INil) => LastItemMinifies(v, depth, rest);
    case ICons(v, tail) => ItemMinifies(v, tail, depth, rest);
  }

  lemma {:induction false} LastItemMinifies(v: Json, depth: nat, rest: seq<byte>)
    requires Clean(v)
    ensures var items := ICons(v, INil);
            MinifiesTo(RenderItems(items, true, depth) + "]", RenderItems(items, false, depth) + "]", rest,
                       SafeItems(items), SafeButLastItem(items))
    decreases v, 2
  {
    hide Render, Minified, InString;
    var f, p := Render(v, true, depth), Render(v, false, depth);
    var close := [']'] + rest;
    assert RenderItems(ICons(v, INil), true, depth) == f && RenderItems(ICons(v, INil), false, depth) == p;
    assert f + "]" + rest == f + close;
    ValueMinifies(v, depth, close);
    MinifiedCons(']', rest);
    InStringCons(']', rest);
    PrefixMore(p, "]", Minified(f + close));
    assert p + "]" + Minified(rest) == p + ([']'] + Minified(rest));
    assert p + "]" + InString(rest) == p + ([']'] + InString(rest));
    SafeIsSafer(v);
  }

  lemma {:induction false} ItemMinifies(v: Json, tail: Items, depth: nat, rest: seq<byte>)
    requires Clean(v) && CleanItems(tail) && tail.ICons?
    ensures var items := ICons(v, tail);
            MinifiesTo(RenderItems(items, true, depth) + "]", RenderItems(items, false, depth) + "]", rest,
                       SafeItems(items), SafeButLastItem(items))
    decreases ICons(v, tail), 0
  {
    hide *;
    var items := ICons(v, tail);
    var f, p := Render(v, true, depth), Render(v, false, depth);
    var ft, pt := RenderItems(tail, true, depth) + "]", RenderItems(tail, false, depth) + "]";
    var y := ft + rest;
    var x := [','] + ([' '] + y);
    ItemTexts(v, tail, depth, rest);
    ValueMinifies(v, depth, x);
    ItemsMinify(tail, depth, rest);
    MinifiedCons(',', [' '] + y);
    MinifiedCons(' ', y);
    InStringCons(',', [' '] + y);
    InStringCons(' ', y);
    FirstByte(tail.head, depth);
    ItemVerdict(v, tail, depth, rest, f, p, ft, pt);
  }

  lemma ItemTexts(v: Json, tail: Items, depth: nat, rest: seq<byte>)
    requires tail.ICons? && CleanItems(tail)
    ensures Clean(tail.head) && !Blank(',') && Blank(' ')
    ensures RenderItems(ICons(v, tail), true, depth) + "]" + rest
         == Render(v, true, depth) + ([','] + ([' '] + (RenderItems(tail, true, depth) + "]" + rest)))
    ensures RenderItems(ICons(v, tail), false, depth) + "]"
         == Render(v, false, depth) + ([','] + (RenderItems(tail, false, depth) + "]"))
    ensures RenderItems(tail, false, depth) + "]"
         == Render(tail.head, false, depth) + (ItemSeparator(tail.tail, false)
            + RenderItems(tail.tail, false, depth) + "]")
  {
    hide Render;
    var ft, pt := RenderItems(tail, true, depth), RenderItems(tail, false, depth);
    assert RenderItems(ICons(v, tail), true, depth) == Render(v, true, depth) + ", " + ft;
    assert RenderItems(ICons(v, tail), false, depth) == Render(v, false, depth) + "," + pt;
    SpacedComma(Render(v, true, depth), ft, rest);
    BareComma(Render(v, false, depth), pt);
    var sep, more := ItemSeparator(tail.tail, false), RenderItems(tail.tail, false, depth);
    Grouped(Render(tail.head, false, depth), sep, more);
    Grouped(Render(tail.head, false, depth), sep + more, "]");
  }

  lemma SpacedComma(a: seq<byte>, b: seq<byte>, rest: seq<byte>)
    ensures a + ", " + b + "]" + rest == a + ([','] + ([' '] + (b + "]" + rest)))
  {
  }

  lemma BareComma(a: seq<byte>, b: seq<byte>)
    ensures a + "," + b + "]" == a + ([','] + (b + "]"))
  {
  }

  /** The three ways an element can turn out, given how its parts do. */
  lemma ItemVerdict(v: Json, tail: Items, depth: nat, rest: seq<byte>, f: seq<byte>, p: seq<byte>, ft: seq<byte>,
                    pt: seq<byte>)
    requires var x := [','] + ([' '] + (ft + rest));
             && MinifiesTo(f, p, x, Safe(v), SafeButLast(v))
             && Minified(x) == [','] + Minified(ft + rest)
             && InString(x) == [','] + ([' '] + InString(ft + rest))
    requires MinifiesTo(ft, pt, rest, SafeItems(tail), SafeButLastItem(tail))
    requires tail.ICons? && pt != [] && pt[0] > ' '
    requires RenderItems(ICons(v, tail), true, depth) + "]" + rest == f + ([','] + ([' '] + (ft + rest)))
    requires RenderItems(ICons(v, tail), false, depth) + "]" == p + ([','] + pt)
    ensures var items := ICons(v, tail);
            MinifiesTo(RenderItems(items, true, depth) + "]", RenderItems(items, false, depth) + "]", rest,
                       SafeItems(items), SafeButLastItem(items))
  {
    hide Render, RenderItems, Minified, InString, Safe, SafeButLast;
    var all := Minified(f + ([','] + ([' '] + (ft + rest))));
    if Safe(v) {
      SafeIsSafer(v);
      assert all == p + [','] + Minified(ft + rest);
      assert p + ([','] + pt) == p + [','] + pt;
      PrefixBehind(p + [','], pt, Minified(ft + rest));
      SafeItemsAreSafer(tail);
      if SafeItems(tail) {
        assert p + [','] + (pt + Minified(rest)) == p + [','] + pt + Minified(rest);
      } else if SafeButLastItem(tail) {
        assert p + [','] + (pt + InString(rest)) == p + [','] + pt + InString(rest);
      }
    } else if SafeButLast(v) {
      assert all == p + [','] + ([' '] + InString(ft + rest));
      assert p + ([','] + pt) == p + [','] + pt;
      Mismatch(p + [','], pt, [' '] + InString(ft + rest));
    } else {
      PrefixMore(p, [','] + pt, all);
    }
  }

  // ---------- objects ----------

  lemma {:induction false} ObjectMinifies(members: Members, depth: nat, rest: seq<byte>)
    requires CleanMembers(members)
    ensures MinifiesTo(Render(Obj(members), true, depth), Render(Obj(members), false, depth), rest,
                       SafeMembers(members), SafeMembers(members))
    decreases members, 2
  {
    hide RenderMembers, Minified, InString, Tabs, SafeMembers;
    var f, p := FormattedMembers(members, depth + 1), BareMembers(members, depth + 1);
    assert Render(Obj(members), true, depth) + rest == ['{'] + (['\n'] + (f + rest)) by {
      ObjectGrouping(RenderMembers(members, true, depth + 1), Tabs(depth), rest);
    }
    assert Render(Obj(members), false, depth) == ['{'] + p by {
      BareObject(RenderMembers(members, false, depth + 1));
    }
    MinifiedCons('{', ['\n'] + (f + rest));
    MinifiedCons('\n', f + rest);
    MembersMinify(members, depth + 1, rest);
    PrefixBehind(['{'], p, Minified(f + rest));
    Grouped(['{'], p, Minified(rest));
  }

  function FormattedMembers(members: Members, depth: nat): seq<byte>
    requires depth > 0
  {
    RenderMembers(members, true, depth) + Tabs(depth - 1) + "}"
  }

  function BareMembers(members: Members, depth: nat): seq<byte> {
    RenderMembers(members, false, depth) + "}"
  }

  lemma ObjectGrouping(m: seq<byte>, tabs: seq<byte>, rest: seq<byte>)
    ensures "{" + "\n" + m + tabs + "}" + rest == ['{'] + (['\n'] + (m + tabs + "}" + rest))
  {
  }

  lemma BareObject(m: seq<byte>)
    ensures "{" + "" + m + "" + "}" == ['{'] + (m + "}")
  {
  }

  lemma {:induction false} MembersMinify(members: Members, depth: nat, rest: seq<byte>)
    requires CleanMembers(members) && depth > 0
    ensures MinifiesTo(FormattedMembers(members, depth), BareMembers(members, depth), rest,
                       SafeMembers(members), SafeMembers(members))
    decreases members, 1
  {
    hide Render, Minified, InString, Tabs;
    match members
    case MNil =>
      var tabs := Tabs(depth - 1);
      TabsBlank(depth - 1);
      assert FormattedMembers(members, depth) + rest == tabs + (['}'] + rest) by { Grouped(tabs, "}", rest); }
      MinifiedBlanks(tabs, ['}'] + rest);
      MinifiedCons('}', rest);
    case MCons(key, v, more) => MemberMinifies(key, v, more, depth, rest);
  }

  lemma TabsBlank(n: nat)
    ensures forall i :: 0 <= i < n ==> Blank(Tabs(n)[i])
  {
  }

  function Comma(more: Members): seq<byte> { if more.MCons? then "," else "" }

  lemma {:induction false} MemberMinifies(key: cstring, v: Json, more: Members, depth: nat, rest: seq<byte>)
    requires Clean(v) && CleanMembers(more) && depth > 0
    ensures var members := MCons(key, v, more);
            MinifiesTo(FormattedMembers(members, depth), BareMembers(members, depth), rest,
                       SafeMembers(members), SafeMembers(members))
    decreases MCons(key, v, more), 0
  {
    hide *;
    var members := MCons(key, v, more);
    var q, f, p := Quoted(key), Render(v, true, depth), Render(v, false, depth);
    var fm, pm := FormattedMembers(more, depth), BareMembers(more, depth);
    var u := Comma(more) + (['\n'] + (fm + rest));
    var z := [':'] + (['\t'] + (f + u));
    MemberTexts(key, v, more, depth, rest);
    TabsBlank(depth);
    MinifiedBlanks(Tabs(depth), q + z);
    MinifiedQuoted(key, z);
    MinifiedCons(':', ['\t'] + (f + u));
    MinifiedCons('\t', f + u);
    InStringCons(':', ['\t'] + (f + u));
    InStringCons('\t', f + u);
    ValueMinifies(v, depth, u);
    CommaMinifies(more, fm + rest);
    MembersMinify(more, depth, rest);
    FirstByte(v, depth);
    MemberVerdict(key, v, more, depth, rest, f, p, fm, pm);
  }

  lemma CommaMinifies(more: Members, y: seq<byte>)
    ensures var u := Comma(more) + (['\n'] + y);
            Minified(u) == Comma(more) + Minified(y) && InString(u) == Comma(more) + (['\n'] + InString(y))
  {
    hide Minified, InString;
    MinifiedCons('\n', y);
    InStringCons('\n', y);
    MinifiedCons(',', ['\n'] + y);
    InStringCons(',', ['\n'] + y);
    assert "" + (['\n'] + y) == ['\n'] + y && "" + Minified(y) == Minified(y);
    assert "" + (['\n'] + InString(y)) == ['\n'] + InString(y);
  }

  lemma MemberTexts(key: cstring, v: Json, more: Members, depth: nat, rest: seq<byte>)
    requires depth > 0
    ensures Blank('\t') && Blank('\n') && !Blank(':') && !Blank(',')
    ensures FormattedMembers(MCons(key, v, more), depth) + rest
         == Tabs(depth) + (Quoted(key) + ([':'] + (['\t'] + (Render(v, true, depth)
            + (Comma(more) + (['\n'] + (FormattedMembers(more, depth) + rest)))))))
    ensures BareMembers(MCons(key, v, more), depth)
         == Quoted(key) + ([':'] + (Render(v, false, depth) + (Comma(more) + BareMembers(more, depth))))
    ensures (Comma(more) + BareMembers(more, depth))[0] in [',', '}']
    ensures BareMembers(more, depth) != [] && BareMembers(more, depth)[0] in ['\"', '}']
  {
    hide Render, Quoted, Tabs;
    var q, f, p := Quoted(key), Render(v, true, depth), Render(v, false, depth);
    assert RenderMembers(MCons(key, v, more), true, depth)
        == Tabs(depth) + q + ":" + "\t" + f + (Comma(more) + "\n") + RenderMembers(more, true, depth);
    assert RenderMembers(MCons(key, v, more), false, depth)
        == "" + q + ":" + "" + p + (Comma(more) + "") + RenderMembers(more, false, depth);
    FormattedGrouping(Tabs(depth), q, f, Comma(more), RenderMembers(more, true, depth), Tabs(depth - 1), rest);
    PlainGrouping(q, p, Comma(more), RenderMembers(more, false, depth));
    PlainFirst(more, depth);
  }

  lemma PlainFirst(more: Members, depth: nat)
    ensures BareMembers(more, depth) != [] && BareMembers(more, depth)[0] in ['\"', '}']
    ensures (Comma(more) + BareMembers(more, depth))[0] in [',', '}']
  {
    if more.MCons? {
      assert Quoted(more.key)[0] == '\"' by { assert ("\"" + Escape(more.key))[0] == '\"'; }
    }
  }

  lemma FormattedGrouping(tabs: seq<byte>, q: seq<byte>, f: seq<byte>, comma: seq<byte>, m: seq<byte>,
                          close: seq<byte>, rest: seq<byte>)
    ensures tabs + q + ":" + "\t" + f + (comma + "\n") + m + close + "}" + rest
         == tabs + (q + ([':'] + (['\t'] + (f + (comma + (['\n'] + (m + close + "}" + rest)))))))
  {
  }

  lemma PlainGrouping(q: seq<byte>, p: seq<byte>, comma: seq<byte>, m: seq<byte>)
    ensures "" + q + ":" + "" + p + (comma + "") + m + "}" == q + ([':'] + (p + (comma + (m + "}"))))
  {
  }

  lemma MemberVerdict(key: cstring, v: Json, more: Members, depth: nat, rest: seq<byte>,
                      f: seq<byte>, p: seq<byte>, fm: seq<byte>, pm: seq<byte>)
    requires depth > 0
    requires var y := fm + rest;
             var u := Comma(more) + (['\n'] + y);
             var z := [':'] + (['\t'] + (f + u));
             var q := Quoted(key);
             && Minified(FormattedMembers(MCons(key, v, more), depth) + rest) == q + Next(!SafeText(key), z)
             && BareMembers(MCons(key, v, more), depth) == q + ([':'] + (p + (Comma(more) + pm)))
             && Minified(z) == [':'] + Minified(f + u)
             && InString(z) == [':'] + (['\t'] + InString(f + u))
             && MinifiesTo(f, p, u, Safe(v), SafeButLast(v))
             && Minified(u) == Comma(more) + Minified(y)
             && InString(u) == Comma(more) + (['\n'] + InString(y))
    requires MinifiesTo(fm, pm, rest, SafeMembers(more), SafeMembers(more))
    requires p != [] && p[0] != '\t' && pm != [] && pm[0] != '\n'
    ensures var members := MCons(key, v, more);
            MinifiesTo(FormattedMembers(members, depth), BareMembers(members, depth), rest,
                       SafeMembers(members), SafeMembers(members))
  {
    hide Minified, InString, Quoted, Safe, SafeButLast, SafeText, FormattedMembers, BareMembers, Comma;
    var q, comma, y := Quoted(key), Comma(more), fm + rest;
    var u := comma + (['\n'] + y);
    var all := Minified(FormattedMembers(MCons(key, v, more), depth) + rest);
    var tail := comma + pm;
    Grouped(q, [':'], p + tail);
    if !SafeText(key) {
      var i := InString(f + u);
      Grouped(q, [':'], ['\t'] + i);
      Mismatch(q + [':'], p + tail, ['\t'] + i);
    } else {
      var m := Minified(f + u);
      Grouped(q, [':'], m);
      PrefixBehind(q + [':'], p + tail, m);
      if Safe(v) {
        PrefixBehind(p, tail, comma + Minified(y));
        PrefixBehind(comma, pm, Minified(y));
        if SafeMembers(more) { Regrouped(q + [':'], p, comma, pm, Minified(rest)); }
      } else if SafeButLast(v) {
        Mismatch(comma, pm, ['\n'] + InString(y));
        PrefixBehind(p, tail, comma + (['\n'] + InString(y)));
      } else {
        PrefixMore(p, tail, m);
      }
    }
  }

  lemma Regrouped(a: seq<byte>, p: seq<byte>, comma: seq<byte>, pm: seq<byte>, x: seq<byte>)
    ensures a + (p + (comma + (pm + x))) == a + (p + (comma + pm)) + x
  {
  }

  // ---------- whole texts ----------

  /**
   Minifying what `cJSON_Print` gives yields what `cJSON_PrintUnformatted` gives if and only if
   no string or key ends in a backslash, except perhaps the last string when nothing but
   closing square brackets follow it.
   */
  lemma MinifyPrinted(v: Json)
    requires Clean(v)
    ensures Minified(Render(v, true, 0)) == Render(v, false, 0) <==> SafeButLast(v)
  {
    hide Render, Minified, InString, Safe, SafeButLast;
    var f, p := Render(v, true, 0), Render(v, false, 0);
    assert f + [] == f && p + [] == p;
    Nothing();
    ValueMinifies(v, 0, []);
    SafeIsSafer(v);
  }

  lemma Nothing()
    ensures Minified([]) == [] && InString([]) == []
  {
  }

  /** A tree for which the two differ: ["\\", null]. */
  lemma BackslashKeepsBlank()
    ensures var v := Arr(ICons(Str("\\"), ICons(Null, INil)));
            Clean(v) && Minified(Render(v, true, 0)) != Render(v, false, 0)
  {
    var v := Arr(ICons(Str("\\"), ICons(Null, INil)));
    assert !SafeText("\\");
    MinifyPrinted(v);
  }
}
