/**
 Minify against the strings of a text. A text has a weight: how many strings are in it, how many
 slashes in those once decoded, and how many bytes. Minifying never adds to it, in that order
 of importance, and takes from it exactly when it drops something from a string.
 */
module MinifyExact {
  import opened Basics
  import opened JsonText
  import opened JsonParse
  import opened Minify
  import opened MinifyPhases
  import opened StringBound

  datatype Weight = Weight(strings: nat, slashes: nat, bytes: nat)

  function Add(w: Weight, o: Option<Weight>): Option<Weight> {
    match o
    case None => None
    case Some(v) => Some(Weight(w.strings + v.strings, w.slashes + v.slashes, w.bytes + v.bytes))
  }

  const AString: Weight := Weight(1, 0, 0)

  /** One decoded byte, or nothing behind a NUL, which nobody reads past. */
  function One(c: byte, cut: bool): Weight {
    if cut then Weight(0, 0, 0) else Weight(0, if c == '/' then 1 else 0, 1)
  }

  /** Half of a surrogate pair makes two of the four bytes. */
  function Literal(h: nat): Weight {
    Weight(0, if h == 0x2F then 1 else 0, if HighSurrogate(h) || LowSurrogate(h) then 2 else Utf8Length(h))
  }

  /** The weight of a text, read from outside of any string; none if it cannot be accepted. */
  function Out(s: seq<byte>): Option<Weight>
    decreases |s|
  {
    if s == [] then Some(Weight(0, 0, 0))
    else if s[0] == '\"' then In(s[1..], false)
    else if s[0] == '\\' || s[0] == '/' then None
    else Out(s[1..])
  }

  /** The same, read from inside a string, behind a decoded NUL or not. */
  function In(s: seq<byte>, cut: bool): Option<Weight>
    decreases |s|
  {
    if s == [] then None
    else if s[0] == '\"' then Add(AString, Out(s[1..]))
    else if s[0] != '\\' then Add(One(s[0], cut), In(s[1..], cut))
    else if |s| == 1 then None
    else if cut then In(s[2..], true)
    else if s[1] != 'u' then
      match Unescape(s[1])
      case None => None
      case Some(c) => Add(One(c, false), In(s[2..], false))
    else if |s| < 6 then None
    else if Hex4(s[2..6]) == 0 then In(s[2..], true)
    else Add(Literal(Hex4(s[2..6])), In(s[6..], false))
  }

  /** No \uXXXX in a string stands for NUL, as a malformed one does, too. */
  predicate NoNulOut(s: seq<byte>)
    decreases |s|
  {
    s != [] ==> if s[0] == '\"' then NoNulIn(s[1..]) else NoNulOut(s[1..])
  }

  predicate NoNulIn(s: seq<byte>)
    decreases |s|
  {
    if s == [] then true
    else if s[0] == '\"' then NoNulOut(s[1..])
    else if s[0] != '\\' then NoNulIn(s[1..])
    else if |s| == 1 then true
    else if s[1] != 'u' then NoNulIn(s[2..])
    else |s| >= 6 && Hex4(s[2..6]) != 0 && NoNulIn(s[6..])
  }

  // ---------- the order of weights ----------

  predicate Le(a: Weight, b: Weight) {
    if a.strings != b.strings then a.strings < b.strings
    else if a.slashes != b.slashes then a.slashes < b.slashes
    else a.bytes <= b.bytes
  }

  predicate AtMost(o: Option<Weight>, b: Weight) { o.Some? ==> Le(o.value, b) }

  predicate Below(o: Option<Weight>, b: Weight) { o.Some? ==> Le(o.value, b) && o.value != b }

  // ---------- reading one unit ----------

  lemma OutCons(c: byte, y: seq<byte>)
    ensures Out([c] + y) == if c == '\"' then In(y, false) else if c == '\\' || c == '/' then None else Out(y)
  {
    assert ([c] + y)[1..] == y;
  }

  lemma InCons(c: byte, y: seq<byte>, cut: bool)
    ensures c == '\"' ==> In([c] + y, cut) == Add(AString, Out(y))
    ensures c != '\"' && c != '\\' ==> In([c] + y, cut) == Add(One(c, cut), In(y, cut))
    ensures c == '\\' && y == [] ==> In([c] + y, cut) == None
  {
    assert ([c] + y)[1..] == y;
  }

  lemma InEscape(c: byte, y: seq<byte>, cut: bool)
    ensures cut ==> In(['\\', c] + y, cut) == In(y, true)
    ensures !cut && c != 'u' ==>
              In(['\\', c] + y, cut) ==
              match Unescape(c)
              case None => None
              case Some(d) => Add(One(d, false), In(y, false))
    ensures !cut && c == 'u' && |y| < 4 ==> In(['\\', c] + y, cut) == None
    ensures !cut && c == 'u' && |y| >= 4 ==>
              In(['\\', c] + y, cut) ==
              if Hex4(y[..4]) == 0 then In(y, true) else Add(Literal(Hex4(y[..4])), In(y[4..], false))
  {
    var s := ['\\', c] + y;
    assert s[2..] == y;
    if |y| >= 4 { assert s[2..6] == y[..4] && s[6..] == y[4..]; }
  }

  lemma HexByte(c: byte)
    requires HexValue(c).Some?
    ensures c != '\"' && c != '\\' && c != '/' && c != '\n' && c != '*' && !Dropped(c)
  {
  }

  /** Four digits read as plain bytes. */
  lemma InDigits(y: seq<byte>, cut: bool)
    requires |y| >= 4 && HexDigits(y[..4])
    ensures In(y, cut) == Add(if cut then Weight(0, 0, 0) else Weight(0, 0, 4), In(y[4..], cut))
  {
    hide In, HexDigits, HexValue;
    DigitsAt(y);
    InAt(y, 0, cut);
    InAt(y, 1, cut);
    InAt(y, 2, cut);
    InAt(y, 3, cut);
  }

  lemma DigitsAt(y: seq<byte>)
    requires |y| >= 4 && HexDigits(y[..4])
    ensures forall k :: 0 <= k < 4 ==>
                y[k] != '\"' && y[k] != '\\' && y[k] != '/' && y[k] != '\n' && y[k] != '*' && !Dropped(y[k])
  {
    forall k | 0 <= k < 4
      ensures y[k] != '\"' && y[k] != '\\' && y[k] != '/' && y[k] != '\n' && y[k] != '*' && !Dropped(y[k])
    {
      assert y[..4][k] == y[k];
      HexByte(y[k]);
    }
  }

  lemma InAt(y: seq<byte>, k: nat, cut: bool)
    requires k < |y| && y[k] != '\"' && y[k] != '\\' && y[k] != '/'
    ensures In(y[k..], cut) == Add(One('0', cut), In(y[k + 1..], cut))
  {
    assert y[k..][1..] == y[k + 1..];
  }

  lemma NoNulHex(d: seq<byte>)
    requires |d| == 4 && Hex4(d) != 0
    ensures HexDigits(d)
  {
  }

  lemma {:induction false} InHasString(s: seq<byte>, cut: bool)
    requires In(s, cut).Some?
    ensures In(s, cut).value.strings > 0
    decreases |s|
  {
    if s[0] == '\"' {
    } else if s[0] != '\\' {
      InHasString(s[1..], cut);
    } else if cut {
      InHasString(s[2..], true);
    } else if s[1] != 'u' {
      InHasString(s[2..], false);
    } else if Hex4(s[2..6]) == 0 {
      InHasString(s[2..], true);
    } else {
      InHasString(s[6..], false);
    }
  }

  // ---------- where a comment ends ----------

  function After(line: bool, s: seq<byte>): (r: seq<byte>)
    ensures |r| <= |s|
  {
    if line then AfterLine(s) else AfterComment(s)
  }

  lemma AfterAt(line: bool, s: seq<byte>)
    ensures s == [] ==> After(line, s) == []
    ensures s != [] && line && s[0] == '\n' ==> After(line, s) == s[1..]
    ensures !line && |s| > 1 && s[0] == '*' && s[1] == '/' ==> After(line, s) == s[2..]
    ensures s != [] && (if line then s[0] != '\n' else s[0] != '*' || |s| == 1 || s[1] != '/') ==>
              After(line, s) == After(line, s[1..])
  {
  }

  /** A comment that starts in a string ends nowhere, in one, or outside with a string less to come. */
  predicate Lands(r: seq<byte>, w: Weight) {
    || r == []
    || (In(r, false).Some? && NoNulIn(r) && Le(In(r, false).value, w))
    || (Out(r).Some? && NoNulOut(r) && Out(r).value.strings < w.strings)
  }

  lemma LandsLater(r: seq<byte>, v: Weight, w: Weight)
    requires Lands(r, v) && Le(v, w)
    ensures Lands(r, w)
  {
  }

  lemma {:induction false} LandsFromIn(line: bool, s: seq<byte>)
    requires In(s, false).Some? && NoNulIn(s)
    ensures Lands(After(line, s), In(s, false).value)
    decreases |s|
  {
    hide After, Lands, Hex4;
    var w := In(s, false).value;
    AfterAt(line, s);
    if line && s[0] == '\n' {
      LandsHere(s[1..], w);
    } else if !line && |s| > 1 && s[0] == '*' && s[1] == '/' {
      LandsHere(s[2..], w);
    } else if s[0] == '\"' {
      LandsFromOut(line, s[1..]);
      LandsLater(After(line, s), Weight(Out(s[1..]).value.strings + 1, 0, 0), w);
    } else if s[0] != '\\' {
      LandsFromIn(line, s[1..]);
      LandsLater(After(line, s), In(s[1..], false).value, w);
    } else if s[1] != 'u' {
      assert s[1] != '\n' && s[1] != '*';
      AfterAt(line, s[1..]);
      assert s[1..][1..] == s[2..];
      LandsFromIn(line, s[2..]);
      LandsLater(After(line, s), In(s[2..], false).value, w);
    } else {
      AfterLiteral(line, s);
      LandsFromIn(line, s[6..]);
      LandsLater(After(line, s), In(s[6..], false).value, w);
    }
  }

  lemma LandsHere(r: seq<byte>, w: Weight)
    requires In(r, false).Some? && NoNulIn(r) && Le(In(r, false).value, w)
    ensures Lands(r, w)
  {
  }

  lemma AfterLiteral(line: bool, s: seq<byte>)
    requires |s| >= 6 && s[0] == '\\' && s[1] == 'u' && Hex4(s[2..6]) != 0
    ensures After(line, s) == After(line, s[6..])
  {
    hide After, Hex4, HexDigits;
    NoNulHex(s[2..6]);
    assert s[2..][..4] == s[2..6];
    DigitsAt(s[2..]);
    forall k | 0 <= k < 6 ensures s[k] != '\n' && s[k] != '*' {
      if k >= 2 { assert s[k] == s[2..][k - 2]; }
    }
    AfterByte(line, s, 0);
    AfterByte(line, s, 1);
    AfterByte(line, s, 2);
    AfterByte(line, s, 3);
    AfterByte(line, s, 4);
    AfterByte(line, s, 5);
  }

  lemma AfterByte(line: bool, s: seq<byte>, k: nat)
    requires k < |s| && s[k] != '\n' && s[k] != '*'
    ensures After(line, s[k..]) == After(line, s[k + 1..])
  {
    hide After;
    AfterAt(line, s[k..]);
    assert s[k..][1..] == s[k + 1..];
  }

  lemma {:induction false} LandsFromOut(line: bool, s: seq<byte>)
    requires Out(s).Some? && NoNulOut(s)
    ensures Lands(After(line, s), Weight(Out(s).value.strings + 1, 0, 0))
    decreases |s|
  {
    hide After, Lands, In, NoNulIn;
    var w := Weight(Out(s).value.strings + 1, 0, 0);
    AfterAt(line, s);
    if s == [] {
      LandsNowhere(w);
    } else if s[0] == '\"' {
      LandsFromIn(line, s[1..]);
      LandsLater(After(line, s), In(s[1..], false).value, w);
    } else if line && s[0] == '\n' {
      LandsOutside(s[1..], w);
    } else {
      LandsFromOut(line, s[1..]);
    }
  }

  lemma LandsNowhere(w: Weight)
    ensures Lands([], w)
  {
  }

  lemma LandsOutside(r: seq<byte>, w: Weight)
    requires Out(r).Some? && NoNulOut(r) && Out(r).value.strings < w.strings
    ensures Lands(r, w)
  {
  }

  /** What Minify goes on with after a slash that it takes to be outside of a string. */
  lemma SlashLands(s: seq<byte>) returns (r: seq<byte>)
    requires In(s, false).Some? && NoNulIn(s)
    ensures Minified(['/'] + s) == Minified(r) && |r| <= |s| && Lands(r, In(s, false).value)
  {
    hide Minified, Lands;
    SlashMinified(s);
    var w := In(s, false).value;
    if s != [] && (s[0] == '/' || s[0] == '*') {
      var line := s[0] == '/';
      LandsFromIn(line, s[1..]);
      r := After(line, s[1..]);
      LandsLater(r, In(s[1..], false).value, w);
    } else {
      r := s;
      LandsHere(s, w);
    }
  }

  lemma SlashMinified(s: seq<byte>)
    ensures Minified(['/'] + s) ==
            if s != [] && (s[0] == '/' || s[0] == '*') then Minified(After(s[0] == '/', s[1..])) else Minified(s)
  {
    var t := ['/'] + s;
    assert t[1..] == s;
    if s != [] { assert t[2..] == s[1..]; }
  }

  // ---------- Minify, the parser before it and the parser after it ----------

  lemma MiniStep(s: seq<byte>, x: bool)
    ensures s == [] ==> Mini(x, s) == []
    ensures s != [] && s[0] == '\"' ==> Mini(x, s) == ['\"'] + Mini(!x, s[1..])
    ensures s != [] && s[0] != '\"' && s[0] != '\\' && (x || !Dropped(s[0])) ==> Mini(x, s) == [s[0]] + Mini(x, s[1..])
    ensures s != [] && Blank(s[0]) && !x ==> Mini(x, s) == Mini(x, s[1..])
    ensures |s| > 1 && s[0] == '\\' && (x || !Dropped(s[1])) ==>
              Mini(x, s) == ['\\', s[1]] + Mini(Behind(s, x), s[2..])
    ensures s != [] && s[0] == '\\' && !x ==> Mini(x, s) == ['\\'] + Mini(x, s[1..])
    ensures s != [] && s[0] == '\\' ==> Mini(x, s) != [] && Mini(x, s)[0] == '\\'
  {
    hide Mini;
    assert s[0..] == s;
    MiniAt(s, 0, x);
    if |s| > 1 && s[0] == '\\' && (x || !Dropped(s[1])) { MiniEscape(s, 0, x); }
  }

  lemma MiniDigits(s: seq<byte>, x: bool)
    requires |s| >= 4 && HexDigits(s[..4])
    ensures Mini(x, s) == s[..4] + Mini(x, s[4..]) && KeptIn(s, x) == KeptIn(s[4..], x)
  {
    hide Mini, KeptIn, HexDigits;
    DigitsAt(s);
    MiniDigit(s, 0, x);
    MiniDigit(s, 1, x);
    MiniDigit(s, 2, x);
    MiniDigit(s, 3, x);
    assert s[0..] == s && s[..4] == [s[0]] + [s[1]] + [s[2]] + [s[3]];
  }

  lemma MiniDigit(s: seq<byte>, k: nat, x: bool)
    requires k < |s| && s[k] != '\"' && s[k] != '\\' && !Dropped(s[k])
    ensures Mini(x, s[k..]) == [s[k]] + Mini(x, s[k + 1..]) && KeptIn(s[k..], x) == KeptIn(s[k + 1..], x)
  {
    MiniAt(s, k, x);
    KeptInAt(s, k, x);
  }

  /**
   All of them outside, or Minify in a string that has ended: the weight does not grow, and
   it shrinks if anything is dropped from a string.
   */
  lemma {:induction false} Outside(s: seq<byte>, x: bool)
    requires Out(s).Some? && NoNulOut(s)
    ensures AtMost(Out(Mini(x, s)), Out(s).value)
    ensures !KeptOut(s, x) ==> Below(Out(Mini(x, s)), Out(s).value)
    decreases |s|, 2
  {
    hide Mini, In, NoNulIn, KeptIn;
    MiniStep(s, x);
    if s == [] {
    } else if s[0] == '\"' {
      OutCons('\"', Mini(!x, s[1..]));
      Inside(s[1..], !x, false);
    } else {
      OutCons(s[0], Mini(x, s[1..]));
      Outside(s[1..], x);
    }
  }

  /** Both parsers in a string, and Minify too or, out of step, not. */
  lemma {:induction false} Inside(s: seq<byte>, x: bool, cut: bool)
    requires In(s, false).Some? && NoNulIn(s)
    ensures AtMost(In(Mini(x, s), cut), In(s, false).value)
    ensures !cut && !KeptIn(s, x) ==> Below(In(Mini(x, s), cut), In(s, false).value)
    decreases |s|, 1
  {
    hide Mini, Out, NoNulOut, KeptOut, Hex4;
    MiniStep(s, x);
    if s[0] == '\"' {
      InCons('\"', Mini(!x, s[1..]), cut);
      Outside(s[1..], !x);
    } else if s[0] == '\\' && (x || !Dropped(s[1])) {
      InsideEscape(s, x, cut);
    } else if s[0] == '\\' {
      InsideSlash(s, cut);
    } else if x || !Dropped(s[0]) {
      InCons(s[0], Mini(x, s[1..]), cut);
      Inside(s[1..], x, cut);
    } else if s[0] == '/' {
      RawSlash(s, cut);
    } else {
      Inside(s[1..], x, cut);
    }
  }

  lemma {:induction false} InsideEscape(s: seq<byte>, x: bool, cut: bool)
    requires In(s, false).Some? && NoNulIn(s) && s[0] == '\\' && |s| > 1 && (x || !Dropped(s[1]))
    ensures AtMost(In(Mini(x, s), cut), In(s, false).value)
    ensures !cut && !KeptIn(s, x) ==> Below(In(Mini(x, s), cut), In(s, false).value)
    decreases |s|, 0
  {
    hide Mini, Out, NoNulOut, KeptOut, Hex4;
    MiniStep(s, x);
    var y := Behind(s, x);
    InEscape(s[1], Mini(y, s[2..]), cut);
    if s[1] != 'u' {
      Inside(s[2..], y, cut);
    } else {
      var d := s[2..6];
      NoNulHex(d);
      assert s[2..][..4] == d && s[2..][4..] == s[6..];
      MiniDigits(s[2..], y);
      assert (d + Mini(y, s[6..]))[..4] == d && (d + Mini(y, s[6..]))[4..] == Mini(y, s[6..]);
      if cut { InDigits(d + Mini(y, s[6..]), true); }
      Inside(s[6..], y, cut);
    }
  }

  /** A slash is dropped, or a comment that starts with it. */
  lemma {:induction false} RawSlash(s: seq<byte>, cut: bool)
    requires s != [] && In(s, false).Some? && NoNulIn(s) && s[0] == '/'
    ensures Below(In(Mini(false, s), cut), In(s, false).value)
    decreases |s|, 0
  {
    hide In, Out, NoNulIn, NoNulOut, Minified;
    Unit(s);
    var r := SlashLands(s[1..]);
    assert s == ['/'] + s[1..];
    if r == [] {
      Nothing();
    } else if In(r, false).Some? && NoNulIn(r) && Le(In(r, false).value, In(s[1..], false).value) {
      Inside(r, false, cut);
    } else {
      LostOut(r, cut);
    }
  }

  lemma Unit(s: seq<byte>)
    requires In(s, false).Some? && NoNulIn(s) && s[0] != '\"' && s[0] != '\\'
    ensures In(s, false) == Add(One(s[0], false), In(s[1..], false)) && NoNulIn(s[1..])
  {
  }

  lemma Nothing()
    ensures Minified([]) == [] && Mini(false, []) == [] && Out([]) == Some(Weight(0, 0, 0))
    ensures In([], false) == None && In([], true) == None && In(['\\'], false) == None && In(['\\'], true) == None
  {
  }

  /** The slash of a backslash and a slash is dropped, and the backslash left alone. */
  lemma {:induction false} InsideSlash(s: seq<byte>, cut: bool)
    requires In(s, false).Some? && NoNulIn(s) && s[0] == '\\' && |s| > 1 && Dropped(s[1])
    ensures Below(In(Mini(false, s), cut), In(s, false).value)
    decreases |s|, 0
  {
    hide In, Out, NoNulIn, NoNulOut, Minified;
    EscapedSlash(s);
    var r := SlashLands(s[2..]);
    MinifiedBackslash(s);
    assert s[1..] == ['/'] + s[2..];
    Trailing(s[2..], r, cut);
  }

  lemma EscapedSlash(s: seq<byte>)
    requires In(s, false).Some? && NoNulIn(s) && s[0] == '\\' && |s| > 1 && Dropped(s[1])
    ensures s[1] == '/' && In(s, false) == Add(One('/', false), In(s[2..], false)) && NoNulIn(s[2..])
  {
  }

  lemma MinifiedBackslash(s: seq<byte>)
    requires s != [] && s[0] == '\\'
    ensures Minified(s) == ['\\'] + Minified(s[1..])
  {
  }

  /** A backslash, and what Minify makes of the text from where a dropped slash leads. */
  lemma {:induction false} Trailing(s: seq<byte>, r: seq<byte>, cut: bool)
    requires In(s, false).Some? && Lands(r, In(s, false).value) && |r| <= |s|
    ensures var w := In(s, false).value;
            AtMost(In(['\\'] + Minified(r), cut), Weight(w.strings, w.slashes + 1, w.bytes))
    decreases |r|, 3
  {
    hide In, Out, NoNulIn, NoNulOut, Minified;
    var w := In(s, false).value;
    if r == [] {
      Nothing();
      assert ['\\'] + [] == ['\\'];
    } else if In(r, false).Some? && NoNulIn(r) && Le(In(r, false).value, w) {
      Dangling(r, cut);
    } else {
      LostDangling(r, cut);
    }
  }

  /** In a string, with a backslash before that is not of this text. */
  lemma {:induction false} Dangling(s: seq<byte>, cut: bool)
    requires In(s, false).Some? && NoNulIn(s)
    ensures var w := In(s, false).value;
            AtMost(In(['\\'] + Minified(s), cut), Weight(w.strings, w.slashes + 1, w.bytes))
    decreases |s|, 2
  {
    hide Mini, Out, NoNulOut, Minified, Hex4;
    if s[0] == '\"' {
      DanglingQuote(s, cut);
    } else if s[0] == '\\' {
      MinifiedBackslash(s);
      DanglingEscape(s, cut);
    } else if Blank(s[0]) {
      MinifiedBlank(s);
      Dangling(s[1..], cut);
    } else if s[0] == '/' {
      var r := SlashLands(s[1..]);
      assert s == ['/'] + s[1..];
      Trailing(s[1..], r, cut);
    } else {
      MinifiedPlain(s);
      Inside(s[1..], false, true);
      Inside(s[1..], false, false);
      Escaping(s[0], Minified(s[1..]), cut);
      assert Mini(false, s[1..]) == Minified(s[1..]) by { MiniIs(s[1..]); }
    }
  }

  lemma MiniIs(s: seq<byte>)
    ensures Mini(false, s) == Minified(s) && Mini(true, s) == InString(s)
  {
  }

  lemma MinifiedBlank(s: seq<byte>)
    requires s != [] && Blank(s[0])
    ensures Minified(s) == Minified(s[1..])
  {
  }

  lemma MinifiedPlain(s: seq<byte>)
    requires s != [] && s[0] != '\"' && !Dropped(s[0])
    ensures Minified(s) == [s[0]] + Minified(s[1..])
  {
  }

  /** A plain byte becomes an escape: no more than it was, but perhaps a slash. */
  lemma Escaping(c: byte, y: seq<byte>, cut: bool)
    requires c != '\"' && c != '\\' && c != '/'
    ensures var o := In(['\\'] + ([c] + y), cut);
            && (cut || c != 'u' ==> o == None || o == In(y, true) || o == Add(One(c, false), In(y, false)))
            && (!cut && c == 'u' ==> o == None || o == In(y, true) || Shorter(o, In(y, false)))
  {
    hide In, Hex4;
    assert ['\\'] + ([c] + y) == ['\\', c] + y;
    InEscape(c, y, cut);
    if !cut && c == 'u' && |y| >= 4 && Hex4(y[..4]) != 0 {
      NoNulHex(y[..4]);
      InDigits(y, false);
      HexBound(y[..4]);
    }
  }

  predicate Shorter(o: Option<Weight>, p: Option<Weight>) {
    o.Some? ==>
      && p.Some? && o.value.strings == p.value.strings
      && o.value.slashes <= p.value.slashes + 1 && o.value.bytes < p.value.bytes
  }

  lemma {:induction false} DanglingQuote(s: seq<byte>, cut: bool)
    requires s != [] && s[0] == '\"' && In(s, false).Some? && NoNulIn(s)
    ensures var w := In(s, false).value;
            AtMost(In(['\\'] + Minified(s), cut), Weight(w.strings, w.slashes + 1, w.bytes))
    decreases |s|, 1
  {
    hide Mini, Out, NoNulOut, Minified, InString;
    var y := InString(s[1..]);
    MinifiedQuote(s);
    assert ['\\'] + (['\"'] + y) == ['\\', '\"'] + y;
    InEscape('\"', y, cut);
    MiniIs(s[1..]);
    HalfOut(s[1..], cut);
  }

  lemma MinifiedQuote(s: seq<byte>)
    requires s != [] && s[0] == '\"'
    ensures Minified(s) == ['\"'] + InString(s[1..])
  {
  }

  lemma EscapeOf(s: seq<byte>)
    requires s != [] && s[0] == '\\' && In(s, false).Some? && NoNulIn(s)
    ensures |s| > 1
    ensures s[1] != 'u' ==>
              && Unescape(s[1]).Some? && NoNulIn(s[2..])
              && In(s, false) == Add(One(Unescape(s[1]).value, false), In(s[2..], false))
  {
  }

  /** The backslash swallows another one, and the byte behind that is plain. */
  lemma {:induction false} DanglingEscape(s: seq<byte>, cut: bool)
    requires s != [] && s[0] == '\\' && In(s, false).Some? && NoNulIn(s)
    ensures var w := In(s, false).value;
            AtMost(In(['\\'] + (['\\'] + Minified(s[1..])), cut), Weight(w.strings, w.slashes + 1, w.bytes))
    decreases |s|, 1
  {
    hide Mini, Out, NoNulOut, Minified, InString, In, NoNulIn;
    EscapeOf(s);
    var y := Minified(s[1..]);
    assert ['\\'] + (['\\'] + y) == ['\\', '\\'] + y;
    InEscape('\\', y, cut);
    var u := s[1..];
    assert u[1..] == s[2..];
    if s[1] == '\"' {
      MinifiedQuote(u);
      InCons('\"', InString(s[2..]), cut);
      MiniIs(s[2..]);
      LostIn(s[2..]);
    } else if s[1] == '\\' {
      MinifiedBackslash(u);
      Dangling(s[2..], cut);
    } else if s[1] == '/' {
      var r := SlashLands(s[2..]);
      assert u == ['/'] + s[2..];
      Aligned(s[2..], r, cut);
    } else if s[1] != 'u' {
      MinifiedPlain(u);
      InCons(s[1], Minified(s[2..]), cut);
      MiniIs(s[2..]);
      Inside(s[2..], false, cut);
    } else {
      DanglingLiteral(s, cut);
    }
  }

  lemma {:induction false} DanglingLiteral(s: seq<byte>, cut: bool)
    requires |s| > 1 && s[0] == '\\' && s[1] == 'u' && In(s, false).Some? && NoNulIn(s)
    ensures AtMost(In(Minified(s[1..]), cut), Weight(In(s, false).value.strings, In(s, false).value.slashes, In(s,
                   false).value.bytes + 5))
    decreases |s|, 0
  {
    hide Mini, Out, NoNulOut, Minified, Hex4;
    var d, y := s[2..6], Minified(s[6..]);
    NoNulHex(d);
    assert s[1..][1..] == s[2..] && s[2..][..4] == d && s[2..][4..] == s[6..];
    MinifiedPlain(s[1..]);
    MiniDigits(s[2..], false);
    MiniIs(s[2..]);
    MiniIs(s[6..]);
    InCons('u', d + y, cut);
    assert (d + y)[..4] == d && (d + y)[4..] == y;
    InDigits(d + y, cut);
    Inside(s[6..], false, cut);
  }

  /** What Minify makes of the text from where a dropped slash leads. */
  lemma {:induction false} Aligned(s: seq<byte>, r: seq<byte>, cut: bool)
    requires In(s, false).Some? && Lands(r, In(s, false).value) && |r| <= |s|
    ensures AtMost(In(Minified(r), cut), In(s, false).value)
    decreases |r|, 2
  {
    hide In, Out, NoNulIn, NoNulOut, Minified;
    MiniIs(r);
    if r == [] {
      Nothing();
    } else if In(r, false).Some? && NoNulIn(r) && Le(In(r, false).value, In(s, false).value) {
      Inside(r, false, cut);
    } else {
      LostOut(r, cut);
    }
  }

  // ---------- the parsers apart ----------

  /** Only the parser after Minify is in a string: it will close one for every one that the other opens. */
  lemma {:induction false} HalfOut(s: seq<byte>, cut: bool)
    requires Out(s).Some? && NoNulOut(s)
    ensures var o := In(Mini(true, s), cut); o.Some? ==> o.value.strings <= Out(s).value.strings
    decreases |s|, 0
  {
    hide Mini, In, NoNulIn;
    MiniStep(s, true);
    if s == [] {
      Nothing();
      MiniIs([]);
    } else if s[0] == '\"' {
      InCons('\"', Mini(false, s[1..]), cut);
      HalfIn(s[1..]);
    } else {
      InCons(s[0], Mini(true, s[1..]), cut);
      HalfOut(s[1..], cut);
    }
  }

  /** Only the parser before Minify is. */
  lemma {:induction false} HalfIn(s: seq<byte>)
    requires In(s, false).Some? && NoNulIn(s)
    ensures var o := Out(Mini(false, s)); o.Some? ==> o.value.strings < In(s, false).value.strings
    decreases |s|, 0
  {
    hide Mini, Out, NoNulOut;
    MiniStep(s, false);
    if s[0] == '\"' {
      OutCons('\"', Mini(true, s[1..]));
      HalfOut(s[1..], false);
    } else if s[0] == '\\' {
      OutCons('\\', Mini(false, s[1..]));
    } else if s[0] == '/' {
      var r := SlashLands(s[1..]);
      assert s == ['/'] + s[1..];
      MiniIs(s);
      HalfLands(s[1..], r);
    } else if Blank(s[0]) {
      HalfIn(s[1..]);
    } else {
      OutCons(s[0], Mini(false, s[1..]));
      HalfIn(s[1..]);
    }
  }

  lemma {:induction false} HalfLands(s: seq<byte>, r: seq<byte>)
    requires In(s, false).Some? && Lands(r, In(s, false).value) && |r| <= |s|
    ensures var o := Out(Minified(r)); o.Some? ==> o.value.strings < In(s, false).value.strings
    decreases |r|, 3
  {
    hide In, Out, NoNulIn, NoNulOut, Minified;
    InHasString(s, false);
    MiniIs(r);
    if r == [] {
      Nothing();
    } else if In(r, false).Some? && NoNulIn(r) && Le(In(r, false).value, In(s, false).value) {
      HalfIn(r);
    } else {
      Outside(r, false);
    }
  }

  /** One of them is in a string, and Minify in step with the other: they do not meet again... */
  lemma {:induction false} LostOut(s: seq<byte>, cut: bool)
    requires Out(s).Some?
    ensures In(Mini(false, s), cut) == None
    decreases |s|
  {
    hide Mini, In;
    MiniStep(s, false);
    if s == [] {
      Nothing();
    } else if s[0] == '\"' {
      InCons('\"', Mini(true, s[1..]), cut);
      LostIn(s[1..]);
    } else {
      InCons(s[0], Mini(false, s[1..]), cut);
      LostOut(s[1..], cut);
    }
  }

  lemma {:induction false} LostIn(s: seq<byte>)
    requires In(s, false).Some?
    ensures Out(Mini(true, s)) == None
    decreases |s|
  {
    hide Mini, Out, Hex4;
    MiniStep(s, true);
    if s[0] == '\"' {
      OutCons('\"', Mini(false, s[1..]));
      LostOut(s[1..], false);
    } else if s[0] == '\\' {
      assert Mini(true, s) == ['\\'] + Mini(true, s)[1..];
      OutCons('\\', Mini(true, s)[1..]);
    } else {
      OutCons(s[0], Mini(true, s[1..]));
      LostIn(s[1..]);
    }
  }

  /** ... unless a backslash is left alone before the next quote. */
  lemma {:induction false} LostDangling(s: seq<byte>, cut: bool)
    requires Out(s).Some? && NoNulOut(s)
    ensures var o := In(['\\'] + Minified(s), cut); o.Some? ==> o.value.strings <= Out(s).value.strings
    decreases |s|, 2
  {
    hide Mini, In, NoNulIn, Minified;
    if s == [] {
      Nothing();
      assert ['\\'] + [] == ['\\'];
    } else if s[0] == '\"' {
      var y := InString(s[1..]);
      MinifiedQuote(s);
      assert ['\\'] + (['\"'] + y) == ['\\', '\"'] + y;
      InEscape('\"', y, cut);
      MiniIs(s[1..]);
      Inside(s[1..], true, cut);
    } else if Blank(s[0]) {
      MinifiedBlank(s);
      LostDangling(s[1..], cut);
    } else {
      MinifiedPlain(s);
      MiniIs(s[1..]);
      LostOut(s[1..], true);
      LostOut(s[1..], false);
      Escaping(s[0], Minified(s[1..]), cut);
    }
  }
}
