/**
 Minifying keeps the meaning: a text that the parser accepts in full, and of whose strings
 `cJSON_Minify` drops nothing, parses to the same tree afterwards.
 */
module MinifyParse {
  import opened Basics
  import opened JsonText
  import opened JsonParse
  import opened Minify
  import opened MinifyPhases
  import RoundTrip
  import MinifyPrint

  /** The buffer that holds a text. */
  function Z(t: seq<byte>): seq<byte> { t + [NUL] }

  /**
   Reading `t` from `i` on and its minified form `m` from `j` on. The parser is outside of any
   string; `x` says whether Minify took itself to be in one.
   */
  ghost predicate Track(t: seq<byte>, m: seq<byte>, i: nat, j: nat, x: bool) {
    i <= |t| && j <= |m| && m[j..] == Mini(x, t[i..]) && KeptOut(t[i..], x)
  }

  lemma Step(t: seq<byte>, m: seq<byte>, i: nat, j: nat, x: bool)
    requires Track(t, m, i, j, x) && i < |t| && t[i] != '/' && t[i] != '\"' && t[i] != '\\'
    ensures if Blank(t[i]) && !x then Track(t, m, i + 1, j, x)
            else j < |m| && m[j] == t[i] && Track(t, m, i + 1, j + 1, x)
  {
    hide Mini, KeptOut;
    MiniAt(t, i, x);
    KeptOutAt(t, i, x);
    if !Blank(t[i]) || x { assert m[j..][0] == t[i] && m[j..][1..] == m[j + 1..]; }
  }

  lemma Stands(t: seq<byte>, m: seq<byte>, i: nat, j: nat, x: bool)
    requires Track(t, m, i, j, x) && (i < |t| ==> t[i] != '/' && t[i] != '\\' && (x || !Blank(t[i])))
    ensures i == |t| <==> j == |m|
    ensures i < |t| ==> m[j] == t[i]
  {
    hide Mini, KeptOut;
    MiniAt(t, i, x);
    if i < |t| { assert m[j..][0] == t[i]; }
  }

  // ---------- whitespace ----------

  lemma {:induction false} WsOfBuffer(t: seq<byte>, i: nat)
    requires i <= |t|
    ensures WsEnd(Z(t), i) == if WsEnd(t, i) == |t| then |t| + 1 else WsEnd(t, i)
    decreases |t| - i
  {
    if i < |t| && t[i] <= ' ' {
      WsOfBuffer(t, i + 1);
    } else if i == |t| {
      assert WsEnd(Z(t), i + 1) == i + 1;
    }
  }

  lemma SkipOfBuffer(t: seq<byte>, i: nat)
    requires i <= |t|
    ensures SkipWs(Z(t), i) == WsEnd(t, i)
  {
    WsOfBuffer(t, i);
  }

  lemma {:induction false} Blanks(t: seq<byte>, m: seq<byte>, i: nat, j: nat, x: bool) returns (q: nat, r: nat)
    requires Track(t, m, i, j, x)
    requires WsEnd(t, i) < |t| ==> t[WsEnd(t, i)] != '/' && t[WsEnd(t, i)] != '\\'
    ensures q == WsEnd(t, i) && r == WsEnd(m, j) && Track(t, m, q, r, x)
    ensures (q == |t| <==> r == |m|) && (q < |t| ==> m[r] == t[q] > ' ')
    decreases |t| - i
  {
    hide Track;
    if i < |t| && t[i] <= ' ' {
      Step(t, m, i, j, x);
      q, r := Blanks(t, m, i + 1, if Blank(t[i]) && !x then j else j + 1, x);
    } else {
      Bounded(t, m, i, j, x);
      Stands(t, m, i, j, x);
      q, r := i, j;
    }
  }

  lemma Bounded(t: seq<byte>, m: seq<byte>, i: nat, j: nat, x: bool)
    requires Track(t, m, i, j, x)
    ensures i <= |t| && j <= |m|
  {
  }

  // ---------- words and numbers ----------

  /** Bytes that Minify copies one by one. */
  lemma {:induction false} Copied(t: seq<byte>, m: seq<byte>, i: nat, j: nat, x: bool, n: nat)
    requires Track(t, m, i, j, x) && i + n <= |t|
    requires forall k :: i <= k < i + n ==> t[k] > ' ' && t[k] != '/' && t[k] != '\"' && t[k] != '\\'
    ensures j + n <= |m| && t[i..i + n] == m[j..j + n] && Track(t, m, i + n, j + n, x)
    decreases n
  {
    hide Track;
    Bounded(t, m, i, j, x);
    if n > 0 {
      Step(t, m, i, j, x);
      Copied(t, m, i + 1, j + 1, x, n - 1);
      assert t[i..i + n] == [t[i]] + t[i + 1..i + n] && m[j..j + n] == [m[j]] + m[j + 1..j + n];
    }
  }

  predicate Word(w: seq<byte>) { forall k :: 0 <= k < |w| ==> 'a' <= w[k] <= 'z' }

  lemma WordKept(t: seq<byte>, m: seq<byte>, i: nat, j: nat, x: bool, w: seq<byte>)
    requires Track(t, m, i, j, x) && Word(w) && At(Z(t), i, w)
    ensures At(Z(m), j, w) && i + |w| <= |t| && Track(t, m, i + |w|, j + |w|, x)
  {
    hide Track;
    Bounded(t, m, i, j, x);
    forall k | 0 <= k < |w| ensures Z(t)[i + k] == w[k] { assert Z(t)[i..i + |w|][k] == w[k]; }
    if w != [] { assert Z(t)[i + (|w| - 1)] == w[|w| - 1]; }
    assert forall k :: i <= k < i + |w| ==> t[k] == w[k - i];
    Copied(t, m, i, j, x, |w|);
    assert Z(m)[j..j + |w|] == m[j..j + |w|] == t[i..i + |w|] == Z(t)[i..i + |w|];
  }

  /** What may come behind a value: blanks, and then a closing or dividing byte, or the end. */
  predicate Follows(t: seq<byte>, i: nat) {
    i <= |t| && (WsEnd(t, i) < |t| ==> t[WsEnd(t, i)] == ',' || t[WsEnd(t, i)] == ']' || t[WsEnd(t, i)] == '}')
  }

  lemma {:induction false} RunOf(t: seq<byte>, i: nat, e: nat)
    requires i <= e <= |t| && (forall k :: i <= k < e ==> IsNumberByte(t[k])) && (e < |t| ==> !IsNumberByte(t[e]))
    ensures NumberRun(t, i) == e
    decreases e - i
  {
    if i < e { RunOf(t, i + 1, e); }
  }

  lemma RunByte(s: seq<byte>, i: nat, k: nat)
    requires i <= k < |s|
    ensures k < NumberRun(s, i) ==> IsNumberByte(s[k])
  {
  }

  lemma {:induction false} NoNumber(t: seq<byte>, m: seq<byte>, i: nat, j: nat, x: bool)
    requires Track(t, m, i, j, x) && Follows(t, i)
    ensures i <= |t| && j <= |m| && (i < |t| ==> !IsNumberByte(t[i])) && (j < |m| ==> !IsNumberByte(m[j]))
    decreases |t| - i
  {
    hide Track;
    Bounded(t, m, i, j, x);
    if i < |t| && Blank(t[i]) && !x {
      Step(t, m, i, j, x);
      NoNumber(t, m, i + 1, j, x);
    } else {
      Stands(t, m, i, j, x);
    }
  }

  lemma NumberKept(t: seq<byte>, m: seq<byte>, i: nat, j: nat, x: bool) returns (j': nat)
    requires Track(t, m, i, j, x) && ParseNumber(Z(t), i).Ok? && Follows(t, ParseNumber(Z(t), i).pos)
    ensures ParseNumber(Z(m), j) == Ok(ParseNumber(Z(t), i).value, j') && Track(t, m, ParseNumber(Z(t), i).pos, j', x)
  {
    hide Track, Strtod, NumberValue;
    Bounded(t, m, i, j, x);
    var e := NumberRun(Z(t), i);
    assert IsNumberByte(Z(t)[e - 1]) && !IsNumberByte(NUL) && Z(t)[|t|] == NUL;
    var pos := ParseNumber(Z(t), i).pos;
    assert pos <= e;
    forall k | i <= k < pos ensures t[k] > ' ' && t[k] != '/' && t[k] != '\"' && t[k] != '\\' {
      assert IsNumberByte(Z(t)[k]);
    }
    Copied(t, m, i, j, x, pos - i);
    j' := j + (pos - i);
    RunByte(Z(t), i, pos);
    NoNumber(t, m, pos, j', x);
    forall k | j <= k < j' ensures IsNumberByte(Z(m)[k]) {
      assert m[j..j'][k - j] == t[i..pos][k - j];
      assert Z(t)[i + (k - j)] == t[i + (k - j)];
    }
    RunOf(Z(m), j, j');
    assert Z(m)[j..j'] == m[j..j'] == t[i..pos] == Z(t)[i..e];
  }

  // ---------- strings ----------

  lemma {:induction false} ScanOfBuffer(t: seq<byte>, i: nat)
    requires i <= |t|
    ensures Scan(Z(t), i) == Scan(t, i)
    decreases |t| - i
  {
    if i == |t| {
      assert Scan(Z(t), i + 1) == None;
    } else if t[i] == '\\' && i + 1 == |t| {
      assert Scan(Z(t), i + 2) == None;
    } else if t[i] == '\\' {
      ScanOfBuffer(t, i + 2);
    } else if t[i] != '\"' {
      ScanOfBuffer(t, i + 1);
    }
  }

  lemma ScanAt(t: seq<byte>, i: nat)
    requires i <= |t| && Scan(t, i).Some?
    ensures i <= Scan(t, i).value < |t|
    ensures t[i] == '\"' <==> Scan(t, i).value == i
    ensures t[i] == '\\' ==> i + 2 < |t| && Scan(t, i + 2) == Scan(t, i)
    ensures t[i] != '\\' && t[i] != '\"' ==> Scan(t, i + 1) == Scan(t, i)
  {
  }

  /** Minify leaves a string as it is from `i` on, and comes out of it in step or not. */
  lemma {:induction false} StringCopied(t: seq<byte>, i: nat, e: nat, x: bool) returns (x': bool)
    requires i <= |t| && Scan(t, i) == Some(e) && KeptIn(t[i..], x)
    ensures Mini(x, t[i..]) == t[i..e + 1] + Mini(x', t[e + 1..]) && KeptOut(t[e + 1..], x')
    decreases |t| - i
  {
    hide Mini, KeptIn, KeptOut, Scan;
    ScanAt(t, i);
    KeptInAt(t, i, x);
    MiniAt(t, i, x);
    if t[i] == '\"' {
      x' := !x;
      FirstAndRest(t, i, e + 1, Mini(x', t[e + 1..]));
    } else if t[i] != '\\' {
      x' := StringCopied(t, i + 1, e, x);
      FirstAndRest(t, i, e + 1, Mini(x', t[e + 1..]));
    } else {
      ScanAt(t, i + 2);
      MiniEscape(t, i, x);
      x' := StringCopied(t, i + 2, e, Behind(t[i..], x));
      PairAndRest(t, i, e + 1, Mini(x', t[e + 1..]));
    }
  }

  lemma FirstAndRest(t: seq<byte>, i: nat, z: nat, rest: seq<byte>)
    requires i < z <= |t|
    ensures t[i..z] + rest == [t[i]] + (t[i + 1..z] + rest)
  {
  }

  lemma PairAndRest(t: seq<byte>, i: nat, z: nat, rest: seq<byte>)
    requires i + 2 <= z <= |t|
    ensures t[i..z] + rest == [t[i], t[i + 1]] + (t[i + 2..z] + rest)
  {
  }

  /** The bytes of `s` from `p` to `e` and of `t` from `q` to `f` are the same. */
  ghost predicate Same(s: seq<byte>, p: nat, e: nat, t: seq<byte>, q: nat, f: nat) {
    p <= e + 1 && e < |s| && q <= f + 1 && f < |t| && s[p..e + 1] == t[q..f + 1]
  }

  lemma SameAt(s: seq<byte>, p: nat, e: nat, t: seq<byte>, q: nat, f: nat, n: nat)
    requires Same(s, p, e, t, q, f) && n <= e - p
    ensures e - p == f - q && s[p + n] == t[q + n] && Same(s, p + n, e, t, q + n, f)
    ensures Same(s, p + n + 1, e, t, q + n + 1, f)
  {
    assert s[p..e + 1][n] == t[q..f + 1][n];
    assert s[p..e + 1][n..] == s[p + n..e + 1] && t[q..f + 1][n..] == t[q + n..f + 1];
    assert s[p..e + 1][n + 1..] == s[p + n + 1..e + 1] && t[q..f + 1][n + 1..] == t[q + n + 1..f + 1];
  }

  lemma SameLength(s: seq<byte>, p: nat, e: nat, t: seq<byte>, q: nat, f: nat)
    requires Same(s, p, e, t, q, f)
    ensures p <= e + 1 && e < |s| && q <= f + 1 && f < |t| && e - p == f - q
  {
    assert |s[p..e + 1]| == |t[q..f + 1]|;
  }

  lemma SamePart(s: seq<byte>, p: nat, e: nat, t: seq<byte>, q: nat, f: nat, a: nat, b: nat)
    requires Same(s, p, e, t, q, f) && a <= b <= e + 1 - p
    ensures q + b <= |t| && s[p + a..p + b] == t[q + a..q + b]
  {
    assert |s[p..e + 1]| == |t[q..f + 1]|;
    SliceOfSlice(s, p, e + 1, a, b);
    SliceOfSlice(t, q, f + 1, a, b);
  }

  lemma SliceOfSlice(s: seq<byte>, p: nat, z: nat, a: nat, b: nat)
    requires p <= z <= |s| && a <= b <= z - p
    ensures s[p..z][a..b] == s[p + a..p + b]
  {
    var x, y := s[p..z][a..b], s[p + a..p + b];
    assert |x| == |y|;
    assert forall k :: 0 <= k < |x| ==> x[k] == s[p..z][a + k] == s[p + (a + k)] == y[k];
  }

  lemma {:induction false} ScanSame(s: seq<byte>, p: nat, e: nat, t: seq<byte>, q: nat, f: nat)
    requires Same(s, p, e, t, q, f) && p <= e && Scan(s, p) == Some(e)
    ensures Scan(t, q) == Some(f)
    decreases e - p
  {
    SameAt(s, p, e, t, q, f, 0);
    if s[p] != '\"' {
      var n := if s[p] == '\\' then 2 else 1;
      SameAt(s, p, e, t, q, f, n);
      ScanSame(s, p + n, e, t, q + n, f);
    }
  }

  lemma StepSame(s: seq<byte>, p: nat, e: nat, t: seq<byte>, q: nat, f: nat)
    requires Same(s, p, e, t, q, f) && p < e
    ensures match DecodeStep(s, p, e)
            case Stuck => DecodeStep(t, q, f) == Stuck
            case Emit(out, next) => DecodeStep(t, q, f) == Emit(out, q + (next - p))
  {
    hide Hex4, Utf8, Unescape, Same;
    SameAt(s, p, e, t, q, f, 0);
    SameAt(s, p, e, t, q, f, 1);
    if e - p >= 6 { SamePart(s, p, e, t, q, f, 2, 6); }
    if e - p >= 12 {
      SamePart(s, p, e, t, q, f, 8, 12);
      SameAt(s, p, e, t, q, f, 6);
      SameAt(s, p, e, t, q, f, 7);
    }
  }

  lemma {:induction false} DecodeSame(s: seq<byte>, p: nat, e: nat, t: seq<byte>, q: nat, f: nat)
    requires Same(s, p, e, t, q, f)
    ensures Decode(s, p, e).Ok? ==> Decode(t, q, f) == Ok(Decode(s, p, e).value, q + (Decode(s, p, e).pos - p))
    decreases e + 1 - p
  {
    hide DecodeStep, Same;
    SameLength(s, p, e, t, q, f);
    if p < e {
      StepSame(s, p, e, t, q, f);
      var r := DecodeStep(s, p, e);
      if r.Emit? {
        var n := r.next - p;
        SameAt(s, p, e, t, q, f, n - 1);
        DecodeSame(s, p + n, e, t, q + n, f);
      }
    }
  }

  lemma StringKept(t: seq<byte>, m: seq<byte>, i: nat, j: nat, x: bool) returns (j': nat, x': bool)
    requires Track(t, m, i, j, x) && i < |t| && ParseString(Z(t), i).Ok?
    ensures j < |m| && ParseString(Z(m), j) == Ok(ParseString(Z(t), i).value, j')
    ensures ParseString(Z(t), i).pos <= |t| && Track(t, m, ParseString(Z(t), i).pos, j', x')
  {
    hide Scan, Decode, Track, CString, Same, Z;
    Lengths(t, m);
    ScanOfBuffer(t, i + 1);
    assert Z(t)[i] == t[i] by { ZAt(t, i); }
    var e := Scan(t, i + 1).value;
    var f, end := StringAligned(t, m, i, j, x);
    ZAt(m, j);
    ScanSame(Z(t), i + 1, e, Z(m), j + 1, f);
    DecodeSame(Z(t), i + 1, e, Z(m), j + 1, f);
    SameLength(Z(t), i + 1, e, Z(m), j + 1, f);
    j', x' := f + 1, end;
  }

  lemma ZAt(t: seq<byte>, i: nat)
    requires i < |t|
    ensures i < |Z(t)| && Z(t)[i] == t[i]
  {
  }

  lemma Lengths(t: seq<byte>, m: seq<byte>)
    ensures |Z(t)| == |t| + 1 && |Z(m)| == |m| + 1
  {
  }

  lemma StringAligned(t: seq<byte>, m: seq<byte>, i: nat, j: nat, x: bool) returns (f: nat, x': bool)
    requires Track(t, m, i, j, x) && i < |t| && t[i] == '\"' && Scan(t, i + 1).Some?
    ensures var e := Scan(t, i + 1).value;
            && Same(Z(t), i + 1, e, Z(m), j + 1, f) && j < f < |m| && m[j] == '\"' && Track(t, m, e + 1, f + 1, x')
  {
    hide Scan, Mini, KeptOut, KeptIn;
    var e := Scan(t, i + 1).value;
    KeptOutAt(t, i, x);
    x' := StringCopied(t, i + 1, e, !x);
    MiniAt(t, i, x);
    f := j + (e - i);
    FirstAndRest(t, i, e + 1, Mini(x', t[e + 1..]));
    Aligned(m, j, t[i..e + 1], Mini(x', t[e + 1..]));
    assert Z(t)[i + 1..e + 1] == t[i..e + 1][1..];
    assert Z(m)[j + 1..f + 1] == m[j..f + 1][1..];
    assert t[i..e + 1][0] == m[j..f + 1][0];
  }

  lemma Aligned(m: seq<byte>, j: nat, a: seq<byte>, b: seq<byte>)
    requires j <= |m| && m[j..] == a + b
    ensures j + |a| <= |m| && m[j + |a|..] == b && m[j..j + |a|] == a
  {
    assert m[j..][|a|..] == b;
    assert m[j..][..|a|] == a;
  }

  // ---------- values ----------

  /** A value starts with none of these. */
  lemma ValueStarts(t: seq<byte>, i: nat, d: nat)
    requires i <= |t| && ParseValue(Z(t), i, d).Ok?
    ensures i < |t| && t[i] > ' ' && t[i] != '/' && t[i] != '\\'
    ensures t[i] in "nft\"-[{" || IsDigit(t[i])
  {
    hide ParseString, ParseNumber, ParseArray, ParseObject;
    forall w: seq<byte> | w != [] && At(Z(t), i, w) ensures Z(t)[i] == w[0] { assert Z(t)[i..i + |w|][0] == w[0]; }
  }

  lemma FirstOf(s: seq<byte>, i: nat, w: seq<byte>)
    requires At(s, i, w) && w != []
    ensures s[i] == w[0]
  {
    assert s[i..i + |w|][0] == w[0];
  }

  lemma {:induction false} ValueKept(t: seq<byte>, m: seq<byte>, i: nat, j: nat, x: bool, d: nat)
    returns (j': nat, x': bool)
    requires Track(t, m, i, j, x) && i <= |t| && j <= |m|
    requires ParseValue(Z(t), i, d).Ok? && Follows(t, ParseValue(Z(t), i, d).pos)
    ensures ParseValue(Z(m), j, d) == Ok(ParseValue(Z(t), i, d).value, j')
    ensures Track(t, m, ParseValue(Z(t), i, d).pos, j', x')
    decreases |t| - i, 2
  {
    hide Track, At, ParseString, ParseNumber, ParseArray, ParseObject, Z, Follows;
    ValueStarts(t, i, d);
    Stands(t, m, i, j, x);
    Buffers(t, m, i, j);
    var c := t[i];
    if At(Z(t), i, "null") {
      FirstOf(Z(t), i, "null");
      WordKept(t, m, i, j, x, "null");
      j', x' := j + 4, x;
    } else if At(Z(t), i, "false") {
      FirstOf(Z(t), i, "false");
      WordKept(t, m, i, j, x, "false");
      NoWord(m, j, "null", c);
      j', x' := j + 5, x;
    } else if At(Z(t), i, "true") {
      FirstOf(Z(t), i, "true");
      WordKept(t, m, i, j, x, "true");
      NoWord(m, j, "null", c);
      NoWord(m, j, "false", c);
      j', x' := j + 4, x;
    } else {
      assert c == '\"' || c == '-' || IsDigit(c) || c == '[' || c == '{';
      NoWord(m, j, "null", c);
      NoWord(m, j, "false", c);
      NoWord(m, j, "true", c);
      if c == '\"' {
        j', x' := StringKept(t, m, i, j, x);
      } else if c == '[' {
        j', x' := ArrayKept(t, m, i, j, x, d);
      } else if c == '{' {
        j', x' := ObjectKept(t, m, i, j, x, d);
      } else {
        x' := x;
        j' := NumberKept(t, m, i, j, x);
      }
    }
  }

  lemma Buffers(t: seq<byte>, m: seq<byte>, i: nat, j: nat)
    requires i < |t| && j < |m|
    ensures |Z(t)| == |t| + 1 && |Z(m)| == |m| + 1 && Z(t)[i] == t[i] && Z(m)[j] == m[j]
  {
  }

  lemma NoWord(m: seq<byte>, j: nat, w: seq<byte>, c: byte)
    requires j < |m| && m[j] == c && w != [] && w[0] != c
    ensures !At(Z(m), j, w)
  {
    if At(Z(m), j, w) { FirstOf(Z(m), j, w); }
  }

  /** Blanks, and then `c`. */
  lemma Next(t: seq<byte>, m: seq<byte>, i: nat, j: nat, x: bool, c: byte) returns (q: nat, r: nat)
    requires Track(t, m, i, j, x) && i <= |t| && j <= |m|
    requires ByteAt(Z(t), SkipWs(Z(t), i), c) && c > ' ' && c != '/' && c != '\\'
    ensures q == SkipWs(Z(t), i) == WsEnd(t, i) < |t| && t[q] == c && i <= q
    ensures r == SkipWs(Z(m), j) < |m| && ByteAt(Z(m), r, c) && Track(t, m, q, r, x)
    ensures c != '\"' ==> Track(t, m, q + 1, r + 1, x)
  {
    hide Track;
    SkipOfBuffer(t, i);
    SkipOfBuffer(m, j);
    q, r := Blanks(t, m, i, j, x);
    if c != '\"' { Step(t, m, q, r, x); }
  }

  lemma {:induction false} ArrayKept(t: seq<byte>, m: seq<byte>, i: nat, j: nat, x: bool, d: nat)
    returns (j': nat, x': bool)
    requires Track(t, m, i, j, x) && i < |t| && j < |m| && t[i] == m[j] == '[' && ParseArray(Z(t), i, d).Ok?
    ensures ParseArray(Z(m), j, d) == Ok(ParseArray(Z(t), i, d).value, j')
    ensures Track(t, m, ParseArray(Z(t), i, d).pos, j', x')
    decreases |t| - i, 1
  {
    hide Track, SkipWs, ParseElements, Z;
    Step(t, m, i, j, x);
    Bounded(t, m, i + 1, j + 1, x);
    Buffers(t, m, i, j);
    var p := SkipWs(Z(t), i + 1);
    if Z(t)[p] == ']' {
      var q, r := Next(t, m, i + 1, j + 1, x, ']');
      j', x' := r + 1, x;
    } else {
      var q, r := ElementNext(t, m, i + 1, j + 1, x, d + 1);
      j', x' := ElementsKept(t, m, q, r, x, d + 1);
    }
  }

  /** Where the first element starts. */
  lemma ElementNext(t: seq<byte>, m: seq<byte>, i: nat, j: nat, x: bool, d: nat) returns (q: nat, r: nat)
    requires Track(t, m, i, j, x) && 0 < i <= |t| && 0 < j <= |m|
    requires 0 < SkipWs(Z(t), i) <= |Z(t)| && ParseElements(Z(t), SkipWs(Z(t), i) - 1, d).Ok?
    ensures q == SkipWs(Z(t), i) && i <= q < |t| && r == SkipWs(Z(m), j) < |m| && j <= r && Track(t, m, q, r, x)
    ensures Z(m)[r] == t[q] == Z(t)[q]
  {
    hide Track, ParseValue, SkipWs;
    SkipOfBuffer(t, i);
    SkipOfBuffer(m, j);
    var p := WsEnd(t, i);
    SkipOfBuffer(t, p);
    ValueStarts(t, p, d);
    q, r := Blanks(t, m, i, j, x);
  }

  /** Blanks and a value. */
  lemma {:induction false} SpacedValueKept(t: seq<byte>, m: seq<byte>, i: nat, j: nat, x: bool, d: nat)
    returns (j': nat, x': bool)
    requires Track(t, m, i, j, x) && i <= |t| && j <= |m|
    requires var r := ParseValue(Z(t), SkipWs(Z(t), i), d); r.Ok? && Follows(t, r.pos)
    ensures var r := ParseValue(Z(t), SkipWs(Z(t), i), d);
            ParseValue(Z(m), SkipWs(Z(m), j), d) == Ok(r.value, j') && Track(t, m, r.pos, j', x')
    decreases |t| - i, 3
  {
    hide Track, ParseValue, SkipWs, Z, Follows;
    SkipOfBuffer(t, i);
    SkipOfBuffer(m, j);
    ValueStarts(t, WsEnd(t, i), d);
    var q, r := Blanks(t, m, i, j, x);
    j', x' := ValueKept(t, m, q, r, x, d);
  }

  lemma {:induction false} ElementsKept(t: seq<byte>, m: seq<byte>, i: nat, j: nat, x: bool, d: nat)
    returns (j': nat, x': bool)
    requires Track(t, m, i, j, x) && 0 < i <= |t| && 0 < j <= |m| && ParseElements(Z(t), i - 1, d).Ok?
    ensures ParseElements(Z(m), j - 1, d) == Ok(ParseElements(Z(t), i - 1, d).value, j')
    ensures Track(t, m, ParseElements(Z(t), i - 1, d).pos, j', x')
    decreases |t| - i, 4
  {
    hide Track, SkipWs, ParseValue, Z, Follows;
    Lengths(t, m);
    var pos := ParseValue(Z(t), SkipWs(Z(t), i), d).pos;
    Divides(t, pos);
    var r, y := SpacedValueKept(t, m, i, j, x, d);
    Bounded(t, m, pos, r, y);
    if ByteAt(Z(t), SkipWs(Z(t), pos), ',') {
      var e, e' := Next(t, m, pos, r, y, ',');
      Bounded(t, m, e + 1, e' + 1, y);
      j', x' := ElementsKept(t, m, e + 1, e' + 1, y, d);
    } else {
      var e, e' := Next(t, m, pos, r, y, ']');
      j', x' := e' + 1, y;
    }
  }

  /** A value with a comma or a closing byte behind it. */
  lemma Divides(t: seq<byte>, pos: nat)
    requires pos <= |t| + 1
    requires var s := Z(t);
             var z := SkipWs(s, pos);
             ByteAt(s, z, ',') || ByteAt(s, z, ']') || ByteAt(s, z, '}')
    ensures Follows(t, pos)
  {
    if pos <= |t| { SkipOfBuffer(t, pos); }
  }

  lemma {:induction false} ObjectKept(t: seq<byte>, m: seq<byte>, i: nat, j: nat, x: bool, d: nat)
    returns (j': nat, x': bool)
    requires Track(t, m, i, j, x) && i < |t| && j < |m| && t[i] == m[j] == '{' && ParseObject(Z(t), i, d).Ok?
    ensures ParseObject(Z(m), j, d) == Ok(ParseObject(Z(t), i, d).value, j')
    ensures Track(t, m, ParseObject(Z(t), i, d).pos, j', x')
    decreases |t| - i, 1
  {
    hide Track, SkipWs, ParseMembers, Z;
    Step(t, m, i, j, x);
    Bounded(t, m, i + 1, j + 1, x);
    Buffers(t, m, i, j);
    var p := SkipWs(Z(t), i + 1);
    if Z(t)[p] == '}' {
      var q, r := Next(t, m, i + 1, j + 1, x, '}');
      j', x' := r + 1, x;
    } else {
      MemberNext(t, i + 1, d + 1);
      var q, r := Next(t, m, i + 1, j + 1, x, '\"');
      Bounded(t, m, q, r, x);
      j', x' := MembersKept(t, m, q, r, x, d + 1);
    }
  }

  /** The first member starts with a quote. */
  lemma MemberNext(t: seq<byte>, i: nat, d: nat)
    requires 0 < i <= |t|
    requires 0 < SkipWs(Z(t), i) <= |t| && ParseMembers(Z(t), SkipWs(Z(t), i) - 1, d).Ok?
    ensures ByteAt(Z(t), SkipWs(Z(t), i), '\"')
  {
    hide ParseValue, SkipWs, Scan, Decode;
    SkipOfBuffer(t, i);
    var p := WsEnd(t, i);
    SkipOfBuffer(t, p);
    Again(t, i);
  }

  lemma Again(t: seq<byte>, i: nat)
    requires i <= |t|
    ensures WsEnd(t, WsEnd(t, i)) == WsEnd(t, i)
  {
  }

  lemma {:induction false} MembersKept(t: seq<byte>, m: seq<byte>, i: nat, j: nat, x: bool, d: nat)
    returns (j': nat, x': bool)
    requires Track(t, m, i, j, x) && 0 < i <= |t| && 0 < j <= |m| && ParseMembers(Z(t), i - 1, d).Ok?
    ensures ParseMembers(Z(m), j - 1, d) == Ok(ParseMembers(Z(t), i - 1, d).value, j')
    ensures Track(t, m, ParseMembers(Z(t), i - 1, d).pos, j', x')
    decreases |t| - i, 4
  {
    hide Track, SkipWs, ParseValue, ParseString, Z, Follows;
    Lengths(t, m);
    var c, c', k := KeyKept(t, m, i, j, x);
    var pos := ParseValue(Z(t), SkipWs(Z(t), c), d).pos;
    Divides(t, pos);
    var v, y := SpacedValueKept(t, m, c, c', k, d);
    Bounded(t, m, pos, v, y);
    if ByteAt(Z(t), SkipWs(Z(t), pos), ',') {
      var e, e' := Next(t, m, pos, v, y, ',');
      Bounded(t, m, e + 1, e' + 1, y);
      j', x' := MembersKept(t, m, e + 1, e' + 1, y, d);
    } else {
      var e, e' := Next(t, m, pos, v, y, '}');
      j', x' := e' + 1, y;
    }
  }

  /** Blanks, a key and its colon. */
  lemma KeyKept(t: seq<byte>, m: seq<byte>, i: nat, j: nat, x: bool) returns (c: nat, c': nat, x': bool)
    requires Track(t, m, i, j, x) && 0 < i <= |t| && 0 < j <= |m| && SkipWs(Z(t), i) < |Z(t)|
    requires var r := ParseString(Z(t), SkipWs(Z(t), i));
             r.Ok? && ByteAt(Z(t), SkipWs(Z(t), r.pos), ':')
    ensures var r, k := ParseString(Z(t), SkipWs(Z(t), i)), SkipWs(Z(m), j);
            && c == SkipWs(Z(t), r.pos) + 1 && i < c <= |t| && k < |Z(m)|
            && ParseString(Z(m), k).Ok? && ParseString(Z(m), k).value == r.value
            && ByteAt(Z(m), SkipWs(Z(m), ParseString(Z(m), k).pos), ':')
            && c' == SkipWs(Z(m), ParseString(Z(m), k).pos) + 1 && c' <= |m| && Track(t, m, c, c', x')
  {
    hide Track, SkipWs, ParseString, Z;
    Lengths(t, m);
    KeyStarts(t, i);
    var q, r := Next(t, m, i, j, x, '\"');
    var key := ParseString(Z(t), q);
    var k, y := StringKept(t, m, q, r, x);
    Bounded(t, m, key.pos, k, y);
    var colon, colon' := Next(t, m, key.pos, k, y, ':');
    Bounded(t, m, colon + 1, colon' + 1, y);
    c, c', x' := colon + 1, colon' + 1, y;
  }

  lemma KeyStarts(t: seq<byte>, i: nat)
    requires i <= |t| && SkipWs(Z(t), i) < |Z(t)| && ParseString(Z(t), SkipWs(Z(t), i)).Ok?
    ensures ByteAt(Z(t), SkipWs(Z(t), i), '\"')
  {
  }

  // ---------- whole texts ----------

  /** What `cJSON_ParseWithOpts` makes of a text, asked to read all of it. */
  function Read(t: cstring): Option<Json> {
    match Parse(Z(t), true)
    case Fail(_) => None
    case Ok(v, _) => Some(v)
  }

  lemma BomKept(t: cstring, m: seq<byte>)
    requires m == Minified(t) && KeptOut(t, false) && Read(t).Some?
    ensures SkipBom(Z(t)) <= |t| && SkipBom(Z(m)) == SkipBom(Z(t)) && Track(t, m, SkipBom(Z(t)), SkipBom(Z(m)), false)
  {
    hide ParseValue, SkipWs, Minified, KeptOut, Z, At, WsEnd, Track, Follows;
    Lengths(t, m);
    assert Track(t, m, 0, 0, false) by { Begins(t, m); }
    var b := SkipBom(Z(t));
    if b == 3 { BomCopied(t, m); }
    SkipOfBuffer(t, b);
    ValueStarts(t, WsEnd(t, b), 0);
    var q, r := Blanks(t, m, b, b, false);
    if b == 0 && r == 0 {
      NoBom(m, t[q]);
    } else if b == 0 {
      NoBom(m, m[0]);
    }
  }

  lemma Begins(t: cstring, m: seq<byte>)
    requires m == Minified(t) && KeptOut(t, false)
    ensures Track(t, m, 0, 0, false)
  {
    hide Minified, KeptOut;
    assert t[0..] == t && m[0..] == m;
  }

  lemma BomCopied(t: cstring, m: seq<byte>)
    requires Track(t, m, 0, 0, false) && |t| >= 4 && At(Z(t), 0, BOM)
    ensures |m| >= 3 && At(Z(m), 0, BOM) && Track(t, m, 3, 3, false)
  {
    hide Track;
    assert forall k :: 0 <= k < 3 ==> Z(t)[k] == Z(t)[0..3][k] == t[k];
    Copied(t, m, 0, 0, false, 3);
    assert Z(m)[0..3] == m[0..3] == t[0..3] == Z(t)[0..3];
  }

  lemma NoBom(m: seq<byte>, c: byte)
    requires m != [] && m[0] == c && c as int < 0x80
    ensures !At(Z(m), 0, BOM)
  {
    if At(Z(m), 0, BOM) { FirstOf(Z(m), 0, BOM); }
  }

  /** An accepted text of which Minify keeps every string is read as before. */
  lemma KeptIsReadAlike(t: cstring)
    requires KeptOut(t, false) && Read(t).Some?
    ensures NUL !in Minified(t) && Read(Minified(t)) == Read(t)
  {
    hide Track, ParseValue, SkipWs, Z, Follows, SkipBom, Minified, KeptOut;
    var m: seq<byte> := Minified(t);
    MinifiedNoNul(t);
    BomKept(t, m);
    var b := SkipBom(Z(t));
    Lengths(t, m);
    var r := ParseValue(Z(t), SkipWs(Z(t), b), 0);
    Ending(t, r.pos);
    Bounded(t, m, b, b, false);
    var j, x := SpacedValueKept(t, m, b, b, false, 0);
    Bounded(t, m, r.pos, j, x);
    AtEnd(t, m, r.pos, j, x);
  }

  lemma MinifiedNoNul(t: cstring)
    ensures NUL !in Minified(t)
  {
    MinifiedOf(t, NUL);
  }

  lemma {:induction false} MinifiedOf(s: seq<byte>, c: byte)
    ensures c in Minified(s) ==> c in s
    ensures c in InString(s) ==> c in s
    decreases |s|
  {
    if s == [] {
    } else {
      MinifiedOf(s[1..], c);
      if |s| > 1 {
        MinifiedOf(s[2..], c);
        CommentOf(s[2..], c);
        MinifiedOf(AfterLine(s[2..]), c);
        MinifiedOf(AfterComment(s[2..]), c);
      }
    }
  }

  lemma {:induction false} CommentOf(s: seq<byte>, c: byte)
    ensures c in AfterLine(s) ==> c in s
    ensures c in AfterComment(s) ==> c in s
    decreases |s|
  {
    if s == [] {
    } else {
      CommentOf(s[1..], c);
    }
  }

  lemma Ending(t: cstring, pos: nat)
    requires pos <= |t| + 1 && ByteAt(Z(t), SkipWs(Z(t), pos), NUL)
    ensures pos <= |t| && Follows(t, pos) && WsEnd(t, pos) == |t|
  {
    hide WsEnd, SkipWs;
    assert |Z(t)| == |t| + 1 && forall k :: 0 <= k < |t| ==> Z(t)[k] == t[k] && t[k] != NUL;
    if pos <= |t| {
      SkipOfBuffer(t, pos);
    } else {
      SkipAtEnd(Z(t));
    }
  }

  lemma SkipAtEnd(s: seq<byte>)
    ensures SkipWs(s, |s|) == |s|
  {
  }

  lemma AtEnd(t: cstring, m: seq<byte>, i: nat, j: nat, x: bool)
    requires Track(t, m, i, j, x) && i <= |t| && j <= |m| && WsEnd(t, i) == |t|
    ensures ByteAt(Z(m), SkipWs(Z(m), j), NUL)
  {
    hide Track;
    SkipOfBuffer(m, j);
    var q, r := Blanks(t, m, i, j, x);
  }

  function Pair(s: cstring): Json { Arr(ICons(Str("\\"), ICons(Str(s), INil))) }

  function PairText(s: cstring): cstring
    requires s == "" || s == " "
  {
    "[\"\\\\\",\"" + s + "\"]"
  }

  lemma PairRead(s: cstring)
    requires s == "" || s == " "
    ensures Read(PairText(s)) == Some(Pair(s))
  {
    hide Parse, Render, Depth, PairText;
    var v := Pair(s);
    assert Plain(Str(s)) && Plain(Str("\\"));
    assert PlainItems(ICons(Str(s), INil));
    assert Plain(v);
    RoundTrip.PrintThenParse(v, false);
    PairDepth(s);
    PairRender(s);
  }

  lemma PairDepth(s: cstring)
    ensures Depth(Pair(s)) <= 2
  {
    assert ItemsDepth(ICons(Str(s), INil)) == 0;
    assert ItemsDepth(ICons(Str("\\"), ICons(Str(s), INil))) == 0;
  }

  lemma PairRender(s: cstring)
    requires s == "" || s == " "
    ensures Render(Pair(s), false, 0) == PairText(s)
  {
    hide Escape, RenderItems;
    PairEscape(s);
    var tail := ICons(Str(s), INil);
    RoundTrip.RenderICons(tail, false, 1);
    RoundTrip.RenderINil(false, 1);
    RoundTrip.RenderICons(ICons(Str("\\"), tail), false, 1);
  }

  lemma PairEscape(s: cstring)
    requires s == "" || s == " "
    ensures Escape("\\") == "\\\\" && Escape(s) == s
  {
  }

  lemma PairTail()
    ensures InString(",\" \"]") == ",\"\"]"
  {
    assert InString("]") == "]";
    assert Minified(" \"]") == "\"]";
  }

  lemma PairMinified()
    ensures Minified(PairText(" ")) == PairText("")
  {
    hide InString, Minified;
    PairTail();
    var s, m: seq<byte> := ",\" \"]", ",\"\"]";
    MinifyPrint.InStringCons('\\', "\"" + s);
    MinifyPrint.InStringCons('\\', "\\\"" + s);
    MinifyPrint.MinifiedCons('\"', "\\\\\"" + s);
    MinifyPrint.MinifiedCons('[', "\"\\\\\"" + s);
    assert ("\"" + s)[1..] == s;
    assert "\\\"" + s == "\\" + ("\"" + s) && "\\\\\"" + s == "\\" + ("\\\"" + s);
    assert "\"\\\\\"" + s == "\"" + ("\\\\\"" + s) && PairText(" ") == "[" + ("\"\\\\\"" + s);
    assert PairText("") == "[\"\\\\\"" + m;
  }

  /** A closing quote behind a backslash, then a blank in a string: ["\\", " "] is read as ["\\", ""] afterwards. */
  lemma MinifyLosesBlank() returns (t: cstring, before: Json, after: Json)
    ensures NUL !in Minified(t) && before != after
    ensures Read(t) == Some(before) && Read(Minified(t)) == Some(after)
  {
    hide Read, Minified, PairText;
    var blank, none: cstring := " ", "";
    t, before, after := PairText(blank), Pair(blank), Pair(none);
    PairRead(blank);
    PairRead(none);
    PairMinified();
  }
}
