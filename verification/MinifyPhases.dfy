/**
 Where Minify loses step with the parser. It takes every quote behind a backslash for an
 escaped one, so a closing quote behind an escaped backslash leaves it in a string that has
 ended; and the next opening quote takes it out of a string that has begun.
 */
module MinifyPhases {
  import opened Basics
  import opened JsonText
  import opened Minify

  /** What Minify makes of `s`, taking itself to be in a string or not. */
  function Mini(inString: bool, s: seq<byte>): seq<byte> {
    if inString then InString(s) else Minified(s)
  }

  /**
   Nothing of any string's content is dropped: no blank and no slash stands in one where Minify
   takes itself to be outside. The text `s` starts outside of any string; `x` says whether
   Minify takes itself to be in one.
   */
  predicate KeptOut(s: seq<byte>, x: bool)
    decreases |s|
  {
    s != [] ==> if s[0] == '\"' then KeptIn(s[1..], !x) else KeptOut(s[1..], x)
  }

  /** The same, started in a string, between its escapes. */
  predicate KeptIn(s: seq<byte>, x: bool)
    decreases |s|
  {
    if s == [] then true
    else if s[0] == '\"' then KeptOut(s[1..], !x)
    else if s[0] != '\\' then (x || !Dropped(s[0])) && KeptIn(s[1..], x)
    else if |s| == 1 then true
    else (x || !Dropped(s[1])) && KeptIn(s[2..], Behind(s, x))
  }

  /** What Minify takes itself to be in behind an escape: a string that is going to end is as good as none. */
  predicate Behind(s: seq<byte>, x: bool)
    requires |s| >= 2
  {
    s[1] == '\"' || (x && !(s[1] == '\\' && |s| > 2 && s[2] == '\"'))
  }

  predicate Dropped(c: byte) { Blank(c) || c == '/' }

  lemma KeptOutAt(t: seq<byte>, i: nat, x: bool)
    requires i < |t|
    ensures KeptOut(t[i..], x) == if t[i] == '\"' then KeptIn(t[i + 1..], !x) else KeptOut(t[i + 1..], x)
  {
    assert t[i..][1..] == t[i + 1..];
  }

  lemma KeptInAt(t: seq<byte>, i: nat, x: bool)
    requires i < |t|
    ensures t[i] == '\"' ==> KeptIn(t[i..], x) == KeptOut(t[i + 1..], !x)
    ensures t[i] != '\"' && t[i] != '\\' ==> KeptIn(t[i..], x) == ((x || !Dropped(t[i])) && KeptIn(t[i + 1..], x))
    ensures t[i] == '\\' && i + 1 < |t| ==>
              KeptIn(t[i..], x) == ((x || !Dropped(t[i + 1])) && KeptIn(t[i + 2..], Behind(t[i..], x)))
  {
    assert t[i..][1..] == t[i + 1..];
    if i + 1 < |t| { assert t[i..][2..] == t[i + 2..]; }
  }

  lemma MiniAt(t: seq<byte>, i: nat, x: bool)
    requires i <= |t|
    ensures i == |t| ==> Mini(x, t[i..]) == []
    ensures i < |t| && t[i] == '\"' ==> Mini(x, t[i..]) == [t[i]] + Mini(!x, t[i + 1..])
    ensures i < |t| && t[i] != '\"' && t[i] != '\\' && (x || !Dropped(t[i])) ==>
              Mini(x, t[i..]) == [t[i]] + Mini(x, t[i + 1..])
    ensures i < |t| && Blank(t[i]) && !x ==> Mini(x, t[i..]) == Mini(x, t[i + 1..])
    ensures i < |t| && t[i] == '\\' && (x ==> i + 1 == |t| || t[i + 1] != '\"') ==>
              Mini(x, t[i..]) == [t[i]] + Mini(x, t[i + 1..])
    ensures i + 1 < |t| && t[i] == '\\' && t[i + 1] == '\"' ==>
              Mini(x, t[i..]) == [t[i], t[i + 1]] + Mini(true, t[i + 2..])
  {
    hide InString, Minified;
    MinifiedAt(t, i);
    InStringAt(t, i);
    if i + 1 < |t| { MinifiedAt(t, i + 1); }
  }

  /** An escape of which nothing is dropped. */
  lemma MiniEscape(t: seq<byte>, i: nat, x: bool)
    requires i + 1 < |t| && t[i] == '\\' && (x || !Dropped(t[i + 1]))
    ensures Mini(x, t[i..]) == [t[i], t[i + 1]] + Mini(Behind(t[i..], x), t[i + 2..])
  {
    hide Mini;
    MiniAt(t, i, x);
    MiniAt(t, i + 1, x);
    if i + 2 < |t| { MiniAt(t, i + 2, false); }
  }

  // ---------- the simple case ----------

  /** No closing quote comes behind a backslash, which then is an escaped one. */
  predicate CleanOut(s: seq<byte>)
    decreases |s|
  {
    s != [] ==> if s[0] == '\"' then CleanIn(s[1..]) else CleanOut(s[1..])
  }

  predicate CleanIn(s: seq<byte>)
    decreases |s|
  {
    if s == [] then true
    else if s[0] == '\"' then CleanOut(s[1..])
    else if s[0] != '\\' then CleanIn(s[1..])
    else if |s| == 1 then true
    else !(s[1] == '\\' && |s| > 2 && s[2] == '\"') && CleanIn(s[2..])
  }

  /** Then Minify stays in step, and drops nothing from a string. */
  lemma {:induction false} CleanIsKept(s: seq<byte>)
    ensures CleanOut(s) ==> KeptOut(s, false)
    ensures CleanIn(s) ==> KeptIn(s, true)
    decreases |s|
  {
    if s == [] {
    } else {
      CleanIsKept(s[1..]);
      if |s| > 1 { CleanIsKept(s[2..]); }
    }
  }
}
