/** What the printed text looks like, byte by byte. */
module PrintedForm {
  import opened Basics
  import opened JsonText
  import RoundTrip

  /** The short escapes, then \u00XX in lower case for the other control bytes, and all others as they are. */
  lemma PrintedByte(c: byte)
    requires c != NUL
    ensures match c as int
            case 0x22 => EscapeByte(c) == ['\\', '\"']
            case 0x5C => EscapeByte(c) == ['\\', '\\']
            case 0x08 => EscapeByte(c) == ['\\', 'b']
            case 0x09 => EscapeByte(c) == ['\\', 't']
            case 0x0A => EscapeByte(c) == ['\\', 'n']
            case 0x0C => EscapeByte(c) == ['\\', 'f']
            case 0x0D => EscapeByte(c) == ['\\', 'r']
            case n =>
              if n >= 0x20 then EscapeByte(c) == [c]
              else
                var low := n % 16;
                EscapeByte(c) == ['\\', 'u', '0', '0', if n < 16 then '0' else '1',
                                  if low < 10 then ('0' as int + low) as char else ('a' as int + low - 10) as char]
  {
  }

  /** A string is escaped byte by byte, and quoted. */
  lemma {:induction false} PrintedString(s: cstring, t: cstring)
    ensures Escape(s + t) == Escape(s) + Escape(t)
    ensures Quoted(s) == ['\"'] + Escape(s) + ['\"']
    ensures Escape([]) == [] && (|s| == 1 ==> Escape(s) == EscapeByte(s[0]))
    decreases s
  {
    hide Escape, EscapeByte;
    RoundTrip.Escaped([]);
    RoundTrip.Escaped(s);
    if s == [] {
      assert s + t == t;
    } else {
      RoundTrip.Escaped(s + t);
      RoundTrip.Escaped(s[1..]);
      assert (s + t)[1..] == s[1..] + t;
      PrintedString(s[1..], t);
      assert EscapeByte(s[0]) + (Escape(s[1..]) + Escape(t)) == EscapeByte(s[0]) + Escape(s[1..]) + Escape(t);
    }
  }

  /** A decimal number: no leading zero, and its last digit is the remainder by ten. */
  lemma PrintedInt(n: int32)
    ensures 0 <= n < 10 ==> DecInt(n) == ['0' + n as char]
    ensures n >= 10 ==> DecInt(n) == DecInt(n / 10) + ['0' + (n % 10) as char]
    ensures n < 0 ==> DecInt(n) == ['-'] + DecNat(-(n as int))
    ensures n <= 0 && n > -0x8000_0000 ==> DecNat(-(n as int)) == DecInt(-n)
  {
  }

  /** Members stand on lines of their own, indented by all containers around them... */
  lemma MembersIndented()
    ensures var inner := Obj(MCons("b", Null, MNil));
            && Render(inner, true, 2) == "{\n\t\t\t\"b\":\tnull\n\t\t}"
            && Render(inner, false, 2) == "{\"b\":null}"
  {
    InnerLayout(true);
    InnerLayout(false);
  }

  lemma InnerLayout(fmt: bool)
    ensures Render(Obj(MCons("b", Null, MNil)), fmt, 2)
         == if fmt then "{\n\t\t\t\"b\":\tnull\n\t\t}" else "{\"b\":null}"
  {
    hide Render, RenderMembers, Quoted, Tabs;
    LetterQuoted('b');
    InnerParts(fmt);
    RoundTrip.RenderObj(MCons("b", Null, MNil), fmt, 2);
    RoundTrip.RenderMCons(MCons("b", Null, MNil), fmt, 3);
  }

  lemma InnerParts(fmt: bool)
    ensures Tabs(2) == "\t\t" && Tabs(3) == "\t\t\t"
    ensures Render(Null, fmt, 3) == "null" && RenderMembers(MNil, fmt, 3) == ""
  {
  }

  lemma LetterQuoted(c: byte)
    requires 'a' <= c <= 'z'
    ensures Quoted([c]) == ['\"', c, '\"']
  {
    assert Escape([c]) == [c] by { assert [c][1..] == []; }
  }

  /** ... and elements in one line. */
  lemma PrintedLayout(fmt: bool)
    ensures var inner := Obj(MCons("b", Null, MNil));
            var v := Obj(MCons("a", Arr(ICons(Num(1), ICons(inner, INil))), MCons("c", Obj(MNil), MNil)));
            Render(v, fmt, 0)
            == if fmt then "{\n\t\"a\":\t[1, " + Render(inner, true, 2) + "],\n\t\"c\":\t{\n\t}\n}"
               else "{\"a\":[1," + Render(inner, false, 2) + "],\"c\":{}}"
  {
    hide Render, RenderMembers, Quoted, Tabs;
    var inner := Obj(MCons("b", Null, MNil));
    var list := Arr(ICons(Num(1), ICons(inner, INil)));
    var rest := MCons("c", Obj(MNil), MNil);
    ListLayout(fmt, inner);
    RestLayout(fmt);
    LetterQuoted('a');
    NoTabs();
    RoundTrip.RenderObj(MCons("a", list, rest), fmt, 0);
    RoundTrip.RenderMCons(MCons("a", list, rest), fmt, 1);
    Pieces(Render(inner, fmt, 2));
  }

  lemma NoTabs()
    ensures Tabs(0) == "" && Tabs(1) == "\t"
  {
  }

  lemma Pieces(x: seq<byte>)
    ensures "{" + "\n"
            + ("\t" + "\"a\"" + ":" + "\t" + ("[1," + " " + x + "]") + ("," + "\n") + "\t\"c\":\t{\n\t}\n") + "" + "}"
         == "{\n\t\"a\":\t[1, " + x + "],\n\t\"c\":\t{\n\t}\n}"
    ensures "{" + "" + ("" + "\"a\"" + ":" + "" + ("[1," + "" + x + "]") + ("," + "") + "\"c\":{}") + "" + "}"
         == "{\"a\":[1," + x + "],\"c\":{}}"
  {
  }

  lemma ListLayout(fmt: bool, inner: Json)
    ensures Render(Arr(ICons(Num(1), ICons(inner, INil))), fmt, 1)
         == "[1," + (if fmt then " " else "") + Render(inner, fmt, 2) + "]"
  {
    hide Render;
    assert Render(Num(1), fmt, 2) == "1" by { OneLayout(fmt); }
    ListUnfolds(ICons(Num(1), ICons(inner, INil)), fmt);
    assert RenderItems(INil, fmt, 2) == "";
    assert RenderItems(ICons(inner, INil), fmt, 2) == Render(inner, fmt, 2);
  }

  lemma OneLayout(fmt: bool)
    ensures Render(Num(1), fmt, 2) == "1"
  {
  }

  lemma ListUnfolds(items: Items, fmt: bool)
    ensures Render(Arr(items), fmt, 1) == "[" + RenderItems(items, fmt, 2) + "]"
  {
  }

  lemma RestLayout(fmt: bool)
    ensures RenderMembers(MCons("c", Obj(MNil), MNil), fmt, 1)
         == if fmt then "\t\"c\":\t{\n\t}\n" else "\"c\":{}"
  {
    hide Render, RenderMembers, Quoted, Tabs;
    LetterQuoted('c');
    NoTabs();
    EmptyLayout(fmt);
    RoundTrip.RenderMCons(MCons("c", Obj(MNil), MNil), fmt, 1);
  }

  lemma EmptyLayout(fmt: bool)
    ensures Render(Obj(MNil), fmt, 1) == (if fmt then "{\n\t}" else "{}") && RenderMembers(MNil, fmt, 1) == ""
  {
    hide RenderMembers, Tabs;
    NoTabs();
    RoundTrip.RenderObj(MNil, fmt, 0);
    RoundTrip.RenderObj(MNil, fmt, 1);
  }

  /** Raw text, and the text of a number that is no int, are printed as they are. */
  lemma PrintedAsIs(text: cstring, fmt: bool, depth: nat)
    ensures Render(Raw(text), fmt, depth) == text && Render(Real(text), fmt, depth) == text
  {
  }

  /** Containers of both kinds count for the nesting. */
  function Tower(kinds: seq<bool>): Json {
    if kinds == [] then Null
    else if kinds[0] then Obj(MCons("", Null, MCons("", Tower(kinds[1..]), MNil)))
    else Arr(ICons(Tower(kinds[1..]), ICons(Null, INil)))
  }

  lemma {:induction false} TowerDepth(kinds: seq<bool>)
    ensures Depth(Tower(kinds)) == |kinds|
    decreases |kinds|
  {
    if kinds == [] {
    } else {
      TowerDepth(kinds[1..]);
      var v := Tower(kinds[1..]);
      TwoDepths(v);
    }
  }

  lemma TwoDepths(v: Json)
    ensures Depth(Arr(ICons(v, ICons(Null, INil)))) == 1 + Depth(v)
    ensures Depth(Obj(MCons("", Null, MCons("", v, MNil)))) == 1 + Depth(v)
  {
    assert ItemsDepth(INil) == 0 && Depth(Null) == 0 && MembersDepth(MNil) == 0;
    assert ItemsDepth(ICons(Null, INil)) == 0;
    assert ItemsDepth(ICons(v, ICons(Null, INil))) == Depth(v);
    assert MembersDepth(MCons("", v, MNil)) == Depth(v);
    assert MembersDepth(MCons("", Null, MCons("", v, MNil))) == Depth(v);
  }
}
