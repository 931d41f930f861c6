/**
 What is read from a minified text: the same tree exactly when nothing is dropped from a string,
 on every text that is accepted and in which no string holds an escaped NUL.
 */
module MinifyMeaning {
  import opened Basics
  import opened JsonText
  import opened JsonParse
  import opened Minify
  import opened MinifyPhases
  import opened MinifyExact
  import opened MinifyParse
  import opened StringBound
  import RoundTrip
  import Utf8Literals

  // ---------- the weight of a tree ----------

  function Slashes(s: seq<byte>): nat {
    if s == [] then 0 else (if s[0] == '/' then 1 else 0) + Slashes(s[1..])
  }

  function OfText(s: seq<byte>): Weight { Weight(1, Slashes(s), |s|) }

  function Plus(v: Weight, w: Weight): Weight {
    Weight(v.strings + w.strings, v.slashes + w.slashes, v.bytes + w.bytes)
  }

  const Weightless: Weight := Weight(0, 0, 0)

  function OfTree(v: Json): Weight {
    match v
    case Str(s) => OfText(s)
    case Arr(items) => OfItems(items)
    case Obj(members) => OfMembers(members)
    case _ => Weightless
  }

  function OfItems(items: Items): Weight {
    match items
    case INil => Weightless
    case ICons(v, tail) => Plus(OfTree(v), OfItems(tail))
  }

  function OfMembers(members: Members): Weight {
    match members
    case MNil => Weightless
    case MCons(k, v, rest) => Plus(OfText(k), Plus(OfTree(v), OfMembers(rest)))
  }

  lemma AddTwice(v: Weight, w: Weight, o: Option<Weight>)
    ensures Add(v, Add(w, o)) == Add(Plus(v, w), o)
  {
  }

  // ---------- strings ----------

  lemma {:induction false} SlashesJoin(s: seq<byte>, t: seq<byte>)
    ensures Slashes(s + t) == Slashes(s) + Slashes(t)
  {
    if s == [] {
      assert s + t == t;
    } else {
      assert (s + t)[1..] == s[1..] + t;
      SlashesJoin(s[1..], t);
    }
  }

  lemma {:induction false} CStringJoin(s: seq<byte>, t: seq<byte>)
    requires NUL !in s
    ensures CString(s + t) == s + CString(t)
  {
    if s == [] {
      assert s + t == t;
    } else {
      assert (s + t)[1..] == s[1..] + t;
      CStringJoin(s[1..], t);
    }
  }

  lemma TextJoin(s: seq<byte>, t: seq<byte>)
    requires NUL !in s
    ensures OfText(CString(s + t)) == Plus(Weight(0, Slashes(s), |s|), OfText(CString(t)))
  {
    hide Slashes, CString;
    CStringJoin(s, t);
    SlashesJoin(s, CString(t));
  }

  /** Behind a NUL only the end of the string counts. */
  lemma {:induction false} CutString(x: seq<byte>, p: nat, e: nat)
    requires p <= |x| && Scan(x, p) == Some(e)
    ensures In(x[p..], true) == Add(AString, Out(x[e + 1..]))
    decreases |x| - p
  {
    hide Out;
    assert x[p..][1..] == x[p + 1..];
    if x[p] == '\"' {
    } else if x[p] != '\\' {
      CutString(x, p + 1, e);
    } else {
      assert x[p..][2..] == x[p + 2..];
      CutString(x, p + 2, e);
    }
  }

  lemma Utf8Weight(u: nat)
    requires 0 < u <= 0x10FFFF
    ensures NUL !in Utf8(u) && |Utf8(u)| == Utf8Length(u) && Slashes(Utf8(u)) == if u == 0x2F then 1 else 0
  {
    hide Utf8;
    Utf8Literals.Utf8Spelled(u);
    var b := Utf8(u);
    assert forall i :: 0 <= i < |b| ==> b[i] != NUL && (u != 0x2F ==> b[i] != '/');
    if u == 0x2F {
      assert b == "/";
      assert Slashes("/") == 1;
    } else {
      NoSlashes(b);
    }
  }

  lemma {:induction false} NoSlashes(s: seq<byte>)
    requires '/' !in s
    ensures Slashes(s) == 0
  {
    if s == [] {
    } else {
      NoSlashes(s[1..]);
    }
  }

  lemma UnescapeWeight(c: byte)
    requires Unescape(c).Some?
    ensures Unescape(c).value != NUL
  {
  }

  lemma ByteWeight(c: byte)
    ensures Slashes([c]) == if c == '/' then 1 else 0
  {
  }

  /** One byte of a string. */
  lemma ByteJoin(c: byte, rest: seq<byte>, o: Option<Weight>)
    requires c != NUL
    ensures Add(One(c, false), Add(OfText(CString(rest)), o)) == Add(OfText(CString([c] + rest)), o)
  {
    hide CString, Slashes;
    ByteWeight(c);
    PartJoin([c], rest, o);
  }

  lemma PartJoin(part: seq<byte>, rest: seq<byte>, o: Option<Weight>)
    requires NUL !in part
    ensures Add(Weight(0, Slashes(part), |part|), Add(OfText(CString(rest)), o)) == Add(OfText(CString(part + rest)), o)
  {
    hide CString, Slashes;
    TextJoin(part, rest);
    AddTwice(Weight(0, Slashes(part), |part|), OfText(CString(rest)), o);
  }

  lemma {:induction false} StringWeight(x: cstring, p: nat, e: nat)
    requires p <= |x| && Scan(x, p) == Some(e) && p <= e < |x| && Decode(Z(x), p, e).Ok?
    ensures In(x[p..], false) == Add(OfText(CString(Decode(Z(x), p, e).value)), Out(x[e + 1..]))
    decreases |x| - p, 2
  {
    hide Out, In, CString, Slashes, Z, Utf16Literal, OfText;
    ScanAt(x, p);
    ZAt(x, p);
    ZAt(x, e);
    if p == e {
      EmptyText();
      InFrom(x, p);
    } else if x[p] != '\\' {
      InFrom(x, p);
      var rest := Decode(Z(x), p + 1, e).value;
      StringWeight(x, p + 1, e);
      ByteJoin(x[p], rest, Out(x[e + 1..]));
    } else {
      ScanAt(x, p + 2);
      ZAt(x, p + 1);
      if x[p + 1] == 'u' {
        LiteralWeight(x, p, e);
      } else {
        InFrom(x, p);
        var c, rest := Unescape(x[p + 1]).value, Decode(Z(x), p + 2, e).value;
        UnescapeWeight(x[p + 1]);
        StringWeight(x, p + 2, e);
        ByteJoin(c, rest, Out(x[e + 1..]));
      }
    }
  }

  lemma EmptyText()
    ensures OfText(CString([])) == AString
  {
  }

  lemma InFrom(x: seq<byte>, p: nat)
    requires p < |x|
    ensures x[p] == '\"' ==> In(x[p..], false) == Add(AString, Out(x[p + 1..]))
    ensures x[p] != '\"' && x[p] != '\\' ==> In(x[p..], false) == Add(One(x[p], false), In(x[p + 1..], false))
    ensures x[p] == '\\' && p + 1 < |x| && x[p + 1] != 'u' && Unescape(x[p + 1]).Some? ==>
              In(x[p..], false) == Add(One(Unescape(x[p + 1]).value, false), In(x[p + 2..], false))
    ensures x[p] == '\\' && p + 6 <= |x| && x[p + 1] == 'u' ==>
              var h := Hex4(x[p + 2..p + 6]);
              In(x[p..], false) ==
              if h == 0 then In(x[p + 2..], true) else Add(MinifyExact.Literal(h), In(x[p + 6..], false))
  {
    hide Hex4;
    assert x[p..][1..] == x[p + 1..];
    if p + 1 < |x| { assert x[p..][2..] == x[p + 2..]; }
    if p + 6 <= |x| { assert x[p..][6..] == x[p + 6..] && x[p..][2..6] == x[p + 2..p + 6]; }
  }

  lemma {:induction false} LiteralWeight(x: cstring, p: nat, e: nat)
    requires p < e < |x| && Scan(x, p) == Some(e) && x[p] == '\\' && x[p + 1] == 'u'
    requires e < |Z(x)| && Z(x)[p] == x[p] && Z(x)[p + 1] == x[p + 1]
    requires Scan(x, p + 2) == Some(e) && Decode(Z(x), p, e).Ok?
    ensures In(x[p..], false) == Add(OfText(CString(Decode(Z(x), p, e).value)), Out(x[e + 1..]))
    decreases |x| - p, 1
  {
    hide Out, In, CString, Slashes, Z, OfText, Hex4, Utf8, Scan;
    assert e - p >= 6 by { assert DecodeStep(Z(x), p, e).Emit?; }
    ZSlice(x, p + 2, p + 6);
    var h := Hex4(x[p + 2..p + 6]);
    var o := Out(x[e + 1..]);
    InFrom(x, p);
    if h == 0 {
      CutString(x, p + 2, e);
      NulText(Decode(Z(x), p + 6, e).value);
    } else {
      HexBound(x[p + 2..p + 6]);
      ScanLiteral(x, p + 2);
      if HighSurrogate(h) {
        PairWeight(x, p, e);
      } else {
        StringWeight(x, p + 6, e);
        Utf8Weight(h);
        PartJoin(Utf8(h), Decode(Z(x), p + 6, e).value, o);
      }
    }
  }

  lemma ZSlice(x: seq<byte>, i: nat, j: nat)
    requires i <= j <= |x|
    ensures |Z(x)| == |x| + 1 && Z(x)[i..j] == x[i..j]
  {
  }

  lemma NulText(rest: seq<byte>)
    ensures OfText(CString(Utf8(0) + rest)) == AString
  {
    hide Utf8;
    Utf8Literals.Utf8Spelled(0);
    assert Utf8(0) == [NUL];
  }

  lemma ScanLiteral(x: seq<byte>, i: nat)
    requires i + 4 <= |x| && Hex4(x[i..i + 4]) != 0
    ensures Scan(x, i) == Scan(x, i + 4)
  {
    hide Scan, HexValue;
    forall k | i <= k < i + 4 ensures HexValue(x[k]).Some? { assert x[i..i + 4][k - i] == x[k]; }
    RoundTrip.ScanHex(x, i);
  }

  lemma {:induction false} PairWeight(x: cstring, p: nat, e: nat)
    requires p + 6 <= e < |x| && x[p] == '\\' && x[p + 1] == 'u'
    requires e < |Z(x)| && Z(x)[p] == x[p] && Z(x)[p + 1] == x[p + 1] && Z(x)[p + 2..p + 6] == x[p + 2..p + 6]
    requires Scan(x, p + 6) == Some(e) && HighSurrogate(Hex4(x[p + 2..p + 6])) && Decode(Z(x), p, e).Ok?
    ensures In(x[p..], false) == Add(OfText(CString(Decode(Z(x), p, e).value)), Out(x[e + 1..]))
    decreases |x| - p, 0
  {
    hide Out, In, CString, Slashes, Z, OfText, Hex4, Utf8, Scan;
    assert e - p >= 12 by { assert DecodeStep(Z(x), p, e).Emit?; }
    ZAt(x, p + 6);
    ZAt(x, p + 7);
    ZSlice(x, p + 8, p + 12);
    var h, l := Hex4(x[p + 2..p + 6]), Hex4(x[p + 8..p + 12]);
    InFrom(x, p);
    InFrom(x, p + 6);
    ScanAt(x, p + 6);
    ScanLiteral(x, p + 8);
    StringWeight(x, p + 12, e);
    var u, o := Combine(h, l), Out(x[e + 1..]);
    Utf8Weight(u);
    PartJoin(Utf8(u), Decode(Z(x), p + 12, e).value, o);
    AddTwice(MinifyExact.Literal(h), MinifyExact.Literal(l), In(x[p + 12..], false));
  }

  // ---------- values ----------

  predicate Inert(c: byte) { c != '\"' && c != '\\' && c != '/' }

  lemma {:induction false} SkipInert(x: seq<byte>, i: nat, j: nat)
    requires i <= j <= |x| && forall k :: i <= k < j ==> Inert(x[k])
    ensures Out(x[i..]) == Out(x[j..])
    decreases j - i
  {
    if i == j {
    } else {
      assert x[i..][1..] == x[i + 1..];
      SkipInert(x, i + 1, j);
    }
  }

  /** Blanks before a byte, and the byte. */
  lemma SkipTo(x: seq<byte>, i: nat, c: byte) returns (q: nat)
    requires i <= |x| + 1 && SkipWs(Z(x), i) <= |Z(x)| && ByteAt(Z(x), SkipWs(Z(x), i), c) && c > ' ' && Inert(c)
    ensures i <= |x| && q == SkipWs(Z(x), i) < |x| && i <= q && Out(x[i..]) == Out(x[q + 1..])
  {
    hide Out;
    if i <= |x| {
      SkipOfBuffer(x, i);
      q := WsEnd(x, i);
      SkipInert(x, i, q + 1);
    } else {
      SkipAtEnd(Z(x));
    }
  }

  lemma SkipBlanks(x: seq<byte>, i: nat) returns (q: nat)
    requires i <= |x|
    ensures q == SkipWs(Z(x), i) <= |x| && i <= q && Out(x[i..]) == Out(x[q..])
  {
    hide Out;
    SkipOfBuffer(x, i);
    q := WsEnd(x, i);
    SkipInert(x, i, q);
  }

  lemma WordWeight(x: seq<byte>, i: nat, w: seq<byte>)
    requires i <= |x| && Word(w) && At(Z(x), i, w)
    ensures i + |w| <= |x| && Out(x[i..]) == Out(x[i + |w|..])
  {
    hide Out;
    forall k | 0 <= k < |w| ensures Z(x)[i + k] == w[k] { assert Z(x)[i..i + |w|][k] == w[k]; }
    if w != [] { assert Z(x)[i + (|w| - 1)] == w[|w| - 1]; }
    assert forall k :: i <= k < i + |w| ==> x[k] == w[k - i];
    SkipInert(x, i, i + |w|);
  }

  lemma NumberWeight(x: seq<byte>, i: nat)
    requires i <= |x| && ParseNumber(Z(x), i).Ok?
    ensures var pos := ParseNumber(Z(x), i).pos; pos <= |x| && Out(x[i..]) == Out(x[pos..])
    ensures OfTree(ParseNumber(Z(x), i).value) == Weightless
  {
    hide Out, Strtod;
    var e, pos := NumberRun(Z(x), i), ParseNumber(Z(x), i).pos;
    assert IsNumberByte(Z(x)[e - 1]) && !IsNumberByte(NUL) && Z(x)[|x|] == NUL;
    forall k | i <= k < pos ensures Inert(x[k]) { assert IsNumberByte(Z(x)[k]); }
    SkipInert(x, i, pos);
  }

  lemma QuotedWeight(x: cstring, i: nat)
    requires i < |Z(x)| && ParseString(Z(x), i).Ok?
    ensures var r := ParseString(Z(x), i);
            i < r.pos <= |x| && Out(x[i..]) == Add(OfText(r.value), Out(x[r.pos..]))
  {
    hide In, Scan, Decode, CString, OfText;
    ScanOfBuffer(x, i + 1);
    var e := Scan(x, i + 1).value;
    assert x[i] == '\"' && x[i..][1..] == x[i + 1..];
    StringWeight(x, i + 1, e);
  }

  lemma {:induction false} ValueWeight(x: cstring, i: nat, d: nat)
    requires i <= |x| && ParseValue(Z(x), i, d).Ok?
    ensures var r := ParseValue(Z(x), i, d);
            r.pos <= |x| && Out(x[i..]) == Add(OfTree(r.value), Out(x[r.pos..]))
    decreases |x| - i, 2
  {
    hide Out, At, ParseString, ParseNumber, ParseArray, ParseObject, Z, OfText;
    ValueStarts(x, i, d);
    ZAt(x, i);
    AddNothing(Out(x[i..]));
    if At(Z(x), i, "null") {
      WordWeight(x, i, "null");
    } else if At(Z(x), i, "false") {
      WordWeight(x, i, "false");
    } else if At(Z(x), i, "true") {
      WordWeight(x, i, "true");
    } else if x[i] == '\"' {
      QuotedWeight(x, i);
    } else if x[i] == '[' {
      ArrayWeight(x, i, d);
    } else if x[i] == '{' {
      ObjectWeight(x, i, d);
    } else {
      NumberWeight(x, i);
    }
  }

  lemma AddNothing(o: Option<Weight>)
    ensures Add(Weightless, o) == o
  {
  }

  lemma {:induction false} ArrayWeight(x: cstring, i: nat, d: nat)
    requires i < |x| && x[i] == '[' && ParseArray(Z(x), i, d).Ok?
    ensures var r := ParseArray(Z(x), i, d);
            r.pos <= |x| && Out(x[i..]) == Add(OfTree(r.value), Out(x[r.pos..]))
    decreases |x| - i, 1
  {
    hide Out, SkipWs, ParseElements, Z;
    Lengths(x, x);
    SkipInert(x, i, i + 1);
    var p := SkipWs(Z(x), i + 1);
    if Z(x)[p] == ']' {
      var q := SkipTo(x, i + 1, ']');
      AddNothing(Out(x[q + 1..]));
    } else {
      var q := SkipBlanks(x, i + 1);
      ElementsWeight(x, q, d + 1);
    }
  }

  lemma {:induction false} ElementsWeight(x: cstring, i: nat, d: nat)
    requires 0 < i <= |x| && ParseElements(Z(x), i - 1, d).Ok?
    ensures var r := ParseElements(Z(x), i - 1, d);
            r.pos <= |x| && Out(x[i..]) == Add(OfItems(r.value), Out(x[r.pos..]))
    decreases |x| - i, 3
  {
    hide Out, SkipWs, ParseValue, Z, OfTree;
    Lengths(x, x);
    var w := SkipBlanks(x, i);
    var v := ParseValue(Z(x), w, d);
    ValueWeight(x, w, d);
    if ByteAt(Z(x), SkipWs(Z(x), v.pos), ',') {
      var e := SkipTo(x, v.pos, ',');
      ElementsWeight(x, e + 1, d);
      var tail := ParseElements(Z(x), e, d);
      AddTwice(OfTree(v.value), OfItems(tail.value), Out(x[tail.pos..]));
    } else {
      var e := SkipTo(x, v.pos, ']');
      AddTwice(OfTree(v.value), Weightless, Out(x[e + 1..]));
      AddNothing(Out(x[e + 1..]));
    }
  }

  lemma {:induction false} ObjectWeight(x: cstring, i: nat, d: nat)
    requires i < |x| && x[i] == '{' && ParseObject(Z(x), i, d).Ok?
    ensures var r := ParseObject(Z(x), i, d);
            r.pos <= |x| && Out(x[i..]) == Add(OfTree(r.value), Out(x[r.pos..]))
    decreases |x| - i, 1
  {
    hide Out, SkipWs, ParseMembers, Z;
    Lengths(x, x);
    SkipInert(x, i, i + 1);
    var p := SkipWs(Z(x), i + 1);
    if Z(x)[p] == '}' {
      var q := SkipTo(x, i + 1, '}');
      AddNothing(Out(x[q + 1..]));
    } else {
      var q := SkipBlanks(x, i + 1);
      MembersWeight(x, q, d + 1);
    }
  }

  lemma {:induction false} MembersWeight(x: cstring, i: nat, d: nat)
    requires 0 < i <= |x| && ParseMembers(Z(x), i - 1, d).Ok?
    ensures var r := ParseMembers(Z(x), i - 1, d);
            r.pos <= |x| && Out(x[i..]) == Add(OfMembers(r.value), Out(x[r.pos..]))
    decreases |x| - i, 3
  {
    hide Out, SkipWs, ParseValue, ParseString, Z, OfTree, OfText;
    Lengths(x, x);
    var w := SkipBlanks(x, i);
    var k := ParseString(Z(x), w);
    QuotedWeight(x, w);
    var c := SkipTo(x, k.pos, ':');
    var b := SkipBlanks(x, c + 1);
    var v := ParseValue(Z(x), b, d);
    ValueWeight(x, b, d);
    if ByteAt(Z(x), SkipWs(Z(x), v.pos), ',') {
      var e := SkipTo(x, v.pos, ',');
      MembersWeight(x, e + 1, d);
      var rest := ParseMembers(Z(x), e, d);
      AddThrice(OfText(k.value), OfTree(v.value), OfMembers(rest.value), Out(x[rest.pos..]));
    } else {
      var e := SkipTo(x, v.pos, '}');
      AddThrice(OfText(k.value), OfTree(v.value), Weightless, Out(x[e + 1..]));
      AddNothing(Out(x[e + 1..]));
    }
  }

  lemma AddThrice(u: Weight, v: Weight, w: Weight, o: Option<Weight>)
    ensures Add(u, Add(v, Add(w, o))) == Add(Plus(u, Plus(v, w)), o)
  {
  }

  /** An accepted text weighs what its tree does. */
  lemma TextWeight(x: cstring)
    requires Read(x).Some?
    ensures Out(x) == Some(OfTree(Read(x).value))
  {
    hide Out, SkipWs, ParseValue, Z, OfTree;
    Lengths(x, x);
    var b := SkipBom(Z(x));
    BomInert(x);
    var w := SkipBlanks(x, b);
    var v := ParseValue(Z(x), w, 0);
    ValueWeight(x, w, 0);
    Ending(x, v.pos);
    SkipInert(x, v.pos, |x|);
    EndWeight(x, OfTree(v.value));
  }

  lemma BomInert(x: cstring)
    ensures SkipBom(Z(x)) <= |x| && Out(x) == Out(x[SkipBom(Z(x))..])
  {
    hide Out;
    var b := SkipBom(Z(x));
    if b == 3 {
      assert forall k :: 0 <= k < 3 ==> x[k] == Z(x)[k] == Z(x)[0..3][k];
    }
    SkipInert(x, 0, b);
    assert x[0..] == x;
  }

  lemma EndWeight(x: seq<byte>, w: Weight)
    ensures Add(w, Out(x[|x|..])) == Some(w)
  {
    assert x[|x|..] == [];
  }

  // ---------- what Minify does to the meaning ----------

  /**
   On an accepted text without an escaped NUL: reading the minified text gives the same tree if
   and only if Minify drops nothing from a string.
   */
  lemma MinifyKeepsMeaning(t: cstring)
    requires Read(t).Some? && NoNulOut(t)
    ensures NUL !in Minified(t)
    ensures Read(Minified(t)) == Read(t) <==> KeptOut(t, false)
  {
    hide Read, Out, Minified, KeptOut, NoNulOut;
    MinifiedNoNul(t);
    if KeptOut(t, false) {
      KeptIsReadAlike(t);
    } else {
      TextWeight(t);
      Outside(t, false);
      MiniIs(t);
      if Read(Minified(t)) == Read(t) { TextWeight(Minified(t)); }
    }
  }

  // ---------- why an escaped NUL is left out ----------

  /** ["\\", "\u0000"], and a blank behind the NUL perhaps, which no reader sees. */
  function NulPair(s: cstring): cstring
    requires s == "" || s == " "
  {
    "[\"\\\\\",\"\\u0000" + s + "\"]"
  }

  lemma FirstString(z: seq<byte>)
    requires |z| > 5 && z[1] == '\"' && z[2] == z[3] == '\\' && z[4] == '\"'
    ensures ParseString(z, 1) == Ok("\\", 5)
  {
    assert Scan(z, 2) == Scan(z, 4) == Some(4);
    assert Decode(z, 4, 4) == Ok([], 4);
    assert DecodeStep(z, 2, 4) == Emit(['\\'], 4);
    assert ['\\'] + [] == ['\\'];
    assert Decode(z, 2, 4) == Ok(['\\'], 4);
    assert ['\\'][1..] == [] && CString([]) == [];
    assert CString(['\\']) == ['\\'];
  }

  lemma SecondString(z: seq<byte>, n: nat)
    requires n <= 1 && |z| > 14 + n && z[6] == '\"' && z[7] == '\\'
    requires z[8] == 'u' && z[9..13] == "0000" && z[13 + n] == '\"'
    requires n == 1 ==> z[13] == ' '
    ensures ParseString(z, 6) == Ok("", 14 + n)
  {
    hide Utf8, Decode;
    var end := 13 + n;
    forall k | 9 <= k < 13 ensures z[k] == '0' { assert z[9..13][k - 9] == z[k]; }
    RoundTrip.ScanHex(z, 9);
    assert Scan(z, 7) == Scan(z, 9) == Scan(z, 13) == Some(end);
    assert Hex4(z[9..13]) == 0 by { HexZero(); }
    assert Utf16Literal(z, 7, end) == CodePoint(0, 6);
    assert Decode(z, 13, end).Ok? by { LastByteDecodes(z, n); }
    DecodeCut(z, 7, end);
  }

  lemma HexZero()
    ensures Hex4("0000") == 0
  {
    assert HexNumber("0") == 16 * HexNumber("0"[..0]) + 0;
    assert "00"[..1] == "0" && "000"[..2] == "00" && "0000"[..3] == "000";
    assert HexNumber("00") == 0;
    assert HexNumber("000") == 0;
  }

  lemma LastByteDecodes(z: seq<byte>, n: nat)
    requires n <= 1 && 13 + n < |z| && (n == 1 ==> z[13] == ' ')
    ensures Decode(z, 13, 13 + n).Ok?
  {
    assert Decode(z, 13 + n, 13 + n) == Ok([], 13 + n);
  }

  lemma DecodeCut(z: seq<byte>, p: nat, end: nat)
    requires p < end < |z| && z[p] == '\\' && z[p + 1] == 'u' && Utf16Literal(z, p, end) == CodePoint(0, 6)
    requires p + 6 <= end + 1 && Decode(z, p + 6, end).Ok?
    ensures Decode(z, p, end).Ok? && CString(Decode(z, p, end).value) == ""
  {
    hide Utf8, Utf16Literal;
    Utf8Literals.Utf8Spelled(0);
    assert Utf8(0) == [NUL];
  }

  lemma TwoStrings(z: seq<byte>, n: nat)
    requires n <= 1 && |z| == 16 + n && z[0] == '[' && z[1] == '\"' && z[5] == ',' && z[6] == '\"' && z[14 + n] == ']'
    requires ParseString(z, 1) == Ok("\\", 5) && ParseString(z, 6) == Ok("", 14 + n)
    ensures ParseValue(z, 0, 0) == Ok(Pair(""), 15 + n)
  {
    hide ParseString, At;
    RoundTrip.Dispatch(z, 1, 1);
    RoundTrip.Dispatch(z, 6, 1);
    RoundTrip.Dispatch(z, 0, 0);
    RoundTrip.SkipsTo(z, 1, 1);
    RoundTrip.SkipsTo(z, 5, 5);
    RoundTrip.SkipsTo(z, 6, 6);
    RoundTrip.SkipsTo(z, 14 + n, 14 + n);
    assert ParseElements(z, 5, 1) == Ok(ICons(Str(""), INil), 15 + n);
    assert ParseElements(z, 0, 1) == Ok(ICons(Str("\\"), ICons(Str(""), INil)), 15 + n);
  }

  lemma NulTextRead(s: cstring)
    requires s == "" || s == " "
    ensures Read(NulPair(s)) == Some(Pair(""))
  {
    hide Read, In, Hex4, ParseValue, ParseString, ParseElements;
    var t, n := NulPair(s), |s|;
    var z := Z(t);
    var front: seq<byte> := "[\"\\\\\",\"\\u0000";
    assert z == front + (s + "\"]" + [NUL]) && |front| == 13 && front[9..13] == "0000";
    assert z[9..13] == front[9..13];
    assert |z| == 16 + n && z[0] == '[' && z[1] == '\"' && z[2] == z[3] == '\\' && z[4] == '\"' && z[5] == ',';
    assert z[6] == '\"' && z[7] == '\\' && z[8] == 'u' && z[9..13] == "0000" && z[13 + n] == '\"';
    assert z[14 + n] == ']' && z[15 + n] == NUL;
    FirstString(z);
    SecondString(z, n);
    TwoStrings(z, n);
    ReadOf(t, n);
  }

  lemma ReadOf(t: cstring, n: nat)
    requires |Z(t)| == 16 + n && Z(t)[0] == '[' && Z(t)[15 + n] == NUL && ParseValue(Z(t), 0, 0) == Ok(Pair(""), 15 + n)
    ensures Read(t) == Some(Pair(""))
  {
    hide ParseValue, At;
    var z := Z(t);
    if At(z, 0, BOM) { FirstOf(z, 0, BOM); }
    RoundTrip.SkipsTo(z, 0, 0);
    LastIsNul(z);
  }

  lemma LastIsNul(z: seq<byte>)
    requires z != [] && z[|z| - 1] == NUL
    ensures SkipWs(z, |z| - 1) == |z| - 1
  {
    assert WsEnd(z, |z|) == |z|;
  }

  lemma NulPairMinified()
    ensures Minified(NulPair(" ")) == NulPair("") && !KeptOut(NulPair(" "), false)
  {
    hide InString, Minified, KeptOut, KeptIn;
    var s := "\\u0000 \"]";
    NulTail();
    NulTailDropped();
    NulHead(s, "\\u0000\"]");
    assert NulPair(" ") == "[\"\\\\\",\"" + s && NulPair("") == "[\"\\\\\",\"" + "\\u0000\"]";
  }

  lemma NulTail()
    ensures Minified("\\u0000 \"]") == "\\u0000\"]"
  {
    assert InString("]") == "]";
    assert Minified(" \"]") == "\"]";
    assert Minified("00 \"]") == "00\"]";
    assert Minified("0000 \"]") == "0000\"]";
  }

  lemma NulTailDropped()
    ensures !KeptIn("\\u0000 \"]", false)
  {
    assert !KeptIn(" \"]", false);
    assert !KeptIn("00 \"]", false);
    assert !KeptIn("0000 \"]", false);
  }

  lemma NulHead(s: seq<byte>, m: seq<byte>)
    requires Minified(s) == m && !KeptIn(s, false)
    ensures Minified("[\"\\\\\",\"" + s) == "[\"\\\\\",\"" + m && !KeptOut("[\"\\\\\",\"" + s, false)
  {
    hide InString, Minified, KeptOut, KeptIn, Mini;
    var t := "[\"\\\\\",\"" + s;
    assert t[7..] == s && t[0..] == t;
    MiniIs(s);
    MiniIs(t);
    MiniAt(t, 6, true);
    MiniAt(t, 5, true);
    MiniEscape(t, 2, true);
    MiniAt(t, 4, false);
    MiniAt(t, 1, false);
    MiniAt(t, 0, false);
    KeptOutAt(t, 0, false);
    KeptOutAt(t, 1, false);
    KeptInAt(t, 2, true);
    KeptInAt(t, 4, false);
    KeptOutAt(t, 5, true);
    KeptOutAt(t, 6, true);
    assert t[2..][1] == '\\' && t[2..][2] == '\"';
  }

  /** The blank is dropped, and the text read as before. */
  lemma NulHidesBlank() returns (t: cstring)
    ensures Read(t).Some? && !KeptOut(t, false)
    ensures NUL !in Minified(t) && Read(Minified(t)) == Read(t)
  {
    hide Read, Minified, NulPair, KeptOut;
    var blank, none: cstring := " ", "";
    t := NulPair(blank);
    NulTextRead(blank);
    NulTextRead(none);
    NulPairMinified();
  }
}
