/** Where a parse that fails says it failed, and what it passes over at the front of a text. */
module Errors {
  import opened Basics
  import opened JsonText
  import opened JsonParse
  import opened RoundTrip

  /** A byte that no value starts with is where the error is, behind a byte order mark and blanks. */
  lemma BadStart(s: seq<byte>, requireNul: bool)
    requires s != []
    requires var p := SkipWs(s, SkipBom(s)); p < |s| && s[p] !in "nft\"-[{" && !IsDigit(s[p])
    ensures Parse(s, requireNul) == Fail(SkipWs(s, SkipBom(s)))
  {
    hide SkipWs, SkipBom;
    Dispatch(s, SkipWs(s, SkipBom(s)), 0);
  }

  /** Something behind a whole value is the error, if all of the text is to be read; or else it does not matter. */
  lemma SomethingBehind(v: Json, fmt: bool, c: byte, rest: seq<byte>)
    requires Plain(v) && Depth(v) <= 1000 && c > ' ' && !IsNumberByte(c)
    ensures var t := Render(v, fmt, 0);
            Parse(t + [c] + rest, true) == Fail(|t|) && Parse(t + [c] + rest, false) == Ok(v, |t|)
  {
    hide Render, ParseValue, Depth, SkipWs;
    var t := Render(v, fmt, 0);
    var s := t + [c] + rest;
    assert s == t + ([c] + rest) && s[|t|] == c;
    WholeBack(v, fmt, s);
    SkipsTo(s, |t|, |t|);
  }

  /** A string that is never closed is an error behind its opening quote. */
  lemma UnclosedString(t: seq<byte>, requireNul: bool)
    requires '\"' !in t
    ensures Parse(['\"'] + t, requireNul) == Fail(if t == [] then 0 else 1)
  {
    hide ParseValue, SkipWs;
    var s := ['\"'] + t;
    NoMark(s);
    SkipsTo(s, 0, 0);
    Dispatch(s, 0, 0);
    NoQuote(s, 1);
  }

  lemma {:induction false} NoQuote(s: seq<byte>, i: nat)
    requires i <= |s| && forall k :: i <= k < |s| ==> s[k] != '\"'
    ensures Scan(s, i) == None
    decreases |s| - i
  {
    if i == |s| {
    } else if s[i] == '\\' {
      if i + 1 < |s| { NoQuote(s, i + 2); }
    } else {
      NoQuote(s, i + 1);
    }
  }

  /** An element with neither a comma nor a bracket behind it: the error is at what is there instead... */
  lemma ElementThenNeither(v: Json, fmt: bool, c: byte, rest: seq<byte>, requireNul: bool)
    requires Plain(v) && Depth(v) < 1000 && c > ' ' && !IsNumberByte(c) && c != ',' && c != ']'
    ensures var t := "[" + Render(v, fmt, 1);
            Parse(t + [c] + rest, requireNul) == Fail(|t|)
  {
    hide Render, ParseValue, Depth, SkipWs, ParseElements, At;
    var x := Render(v, fmt, 1);
    var s := "[" + x + [c] + rest;
    OneElement(v, fmt, [c] + rest, s);
    assert s[1 + |x|] == c;
    SkipsTo(s, 1 + |x|, 1 + |x|);
    ElementAlone(s, 1 + |x|);
    ArrayFails(s, requireNul, 1 + |x|);
  }

  lemma OneElement(v: Json, fmt: bool, rest: seq<byte>, s: seq<byte>)
    requires Plain(v) && Depth(v) < 1000
    requires s == "[" + Render(v, fmt, 1) + rest && (rest != [] ==> !IsNumberByte(rest[0]))
    ensures var q := 1 + |Render(v, fmt, 1)|;
            && |s| > 1 && s[0] == '[' && s[1] > ' ' && s[1] != ']' && SkipWs(s, 0) == 0 && SkipWs(s, 1) == 1
            && q <= |s| && ParseValue(s, 1, 1) == Ok(v, q)
  {
    hide Render, ParseValue, Depth, SkipWs, At;
    var x := Render(v, fmt, 1);
    RenderStart(v, fmt, 1);
    Framed("[", x, rest, s);
    SkipsTo(s, 0, 0);
    SkipsTo(s, 1, 1);
    ValueBack(v, fmt, 1, s, 1, 1);
  }

  lemma Framed(a: seq<byte>, x: seq<byte>, b: seq<byte>, s: seq<byte>)
    requires s == a + x + b
    ensures At(s, |a|, x) && (x != [] ==> s[|a|] == x[0]) && (a != [] ==> s[0] == a[0])
    ensures |s| == |a| + |x| + |b| && (b != [] ==> s[|a| + |x|] == b[0])
  {
  }

  lemma ElementAlone(s: seq<byte>, q: nat)
    requires s != [] && SkipWs(s, 1) == 1 && q <= |s|
    requires ParseValue(s, 1, 1).Ok? && ParseValue(s, 1, 1).pos == q
    requires !ByteAt(s, SkipWs(s, q), ',') && !ByteAt(s, SkipWs(s, q), ']')
    ensures ParseElements(s, 0, 1) == Fail(SkipWs(s, q))
  {
    hide ParseValue, SkipWs;
  }

  lemma ArrayFails(s: seq<byte>, requireNul: bool, e: nat)
    requires |s| > 1 && s[0] == '[' && s[1] != ']' && SkipWs(s, 0) == 0 && SkipWs(s, 1) == 1
    requires ParseElements(s, 0, 1) == Fail(e) && e <= |s|
    ensures Parse(s, requireNul) == Fail(if e < |s| then e else |s| - 1)
  {
    hide ParseValue, SkipWs, ParseElements;
    NoMark(s);
    Dispatch(s, 0, 0);
  }

  /** ... and at the last byte, if nothing is. */
  lemma ElementThenNothing(v: Json, fmt: bool, requireNul: bool)
    requires Plain(v) && Depth(v) < 1000
    ensures var t := "[" + Render(v, fmt, 1);
            Parse(t, requireNul) == Fail(|t| - 1) && Parse(t + [NUL], requireNul) == Fail(|t|)
  {
    hide Render, ParseValue, Depth, SkipWs, ParseElements, At;
    var x := Render(v, fmt, 1);
    var t := "[" + x;
    assert t == "[" + x + [];
    OneElement(v, fmt, [], t);
    SkipsNowhere(t);
    ElementAlone(t, |t|);
    ArrayFails(t, requireNul, |t|);
    OneElement(v, fmt, [NUL], t + [NUL]);
    assert (t + [NUL])[|t|] == NUL;
    LastSkipped(t + [NUL]);
    ElementAlone(t + [NUL], |t|);
    ArrayFails(t + [NUL], requireNul, |t|);
  }

  lemma SkipsNowhere(s: seq<byte>)
    ensures SkipWs(s, |s|) == |s|
  {
  }

  lemma LastSkipped(s: seq<byte>)
    requires s != [] && s[|s| - 1] <= ' '
    ensures SkipWs(s, |s| - 1) == |s| - 1
  {
    assert WsEnd(s, |s|) == |s|;
  }

  /** A key without a colon: the error is at what is there instead. */
  lemma KeyThenNoColon(key: cstring, c: byte, rest: seq<byte>, requireNul: bool)
    requires c > ' ' && c != ':'
    ensures var t := "{" + Quoted(key);
            Parse(t + [c] + rest, requireNul) == Fail(|t|)
  {
    hide ParseValue, SkipWs, Quoted, ParseString, At;
    var q := Quoted(key);
    var s := "{" + q + [c] + rest;
    QuotedStart(key);
    assert s == "{" + q + ([c] + rest);
    Framed("{", q, [c] + rest, s);
    StringBack(key, s, 1);
    SkipsTo(s, 0, 0);
    SkipsTo(s, 1, 1);
    SkipsTo(s, 1 + |q|, 1 + |q|);
    NoMark(s);
    Dispatch(s, 0, 0);
  }

  /** The container that is one too many is the error, whatever comes behind it. */
  lemma TooDeep(s: seq<byte>, requireNul: bool)
    requires |s| > 1000 && forall i :: 0 <= i <= 1000 ==> s[i] == '['
    ensures Parse(s, requireNul) == Fail(1000)
  {
    hide ParseValue, SkipWs;
    NoMark(s);
    SkipsTo(s, 0, 0);
    Deeper(s, 0);
  }

  lemma {:induction false} Deeper(s: seq<byte>, i: nat)
    requires i <= 1000 < |s| && forall k :: 0 <= k <= 1000 ==> s[k] == '['
    ensures ParseValue(s, i, i) == Fail(1000)
    decreases 1000 - i
  {
    hide ParseValue, SkipWs;
    Dispatch(s, i, i);
    if i < 1000 {
      SkipsTo(s, i + 1, i + 1);
      Deeper(s, i + 1);
    }
  }

  /** A byte order mark is passed over. */
  lemma MarkPassedOver(v: Json, fmt: bool)
    requires Plain(v) && Depth(v) <= 1000
    ensures var t := Render(v, fmt, 0);
            Parse([0xEF as char, 0xBB as char, 0xBF as char] + t + [NUL], true) == Ok(v, 3 + |t|)
  {
    hide Render, ParseValue, Depth, SkipWs, At;
    var t := Render(v, fmt, 0);
    var mark: seq<byte> := [0xEF as char, 0xBB as char, 0xBF as char];
    var s := mark + t + [NUL];
    RenderStart(v, fmt, 0);
    Framed(mark, t, [NUL], s);
    MarkThere(s);
    SkipsTo(s, 3, 3);
    ValueBack(v, fmt, 0, s, 3, 0);
    assert s[|s| - 1] == NUL;
    LastSkipped(s);
  }

  lemma MarkThere(s: seq<byte>)
    requires |s| > 4 && s[0] as int == 0xEF && s[1] as int == 0xBB && s[2] as int == 0xBF
    ensures SkipBom(s) == 3
  {
    assert s[0..3] == [s[0], s[1], s[2]];
  }

  lemma NoMark(s: seq<byte>)
    requires s != [] && s[0] as int != 0xEF
    ensures SkipBom(s) == 0
  {
    assert |s| >= 3 ==> s[0..3][0] == s[0];
  }
}
