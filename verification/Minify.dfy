/** `cJSON_Minify`: a text without its blanks and comments, computed in place. */
module Minify {
  import opened Basics
  import opened JsonText

  // ---------- as a function of the text ----------

  predicate Blank(c: byte) { c == ' ' || c == '\t' || c == '\r' || c == '\n' }

  function AfterLine(s: seq<byte>): (r: seq<byte>)
    ensures |r| <= |s|
  {
    if s == [] then [] else if s[0] == '\n' then s[1..] else AfterLine(s[1..])
  }

  function AfterComment(s: seq<byte>): (r: seq<byte>)
    ensures |r| <= |s|
  {
    if s == [] then [] else if s[0] == '*' && |s| > 1 && s[1] == '/' then s[2..] else AfterComment(s[1..])
  }

  /** What is kept of `s`, started outside a string. */
  function Minified(s: seq<byte>): (r: seq<byte>)
    ensures |r| <= |s|
    decreases |s|
  {
    if s == [] then []
    else if Blank(s[0]) then Minified(s[1..])
    else if s[0] == '/' then
      if |s| > 1 && s[1] == '/' then Minified(AfterLine(s[2..]))
      else if |s| > 1 && s[1] == '*' then Minified(AfterComment(s[2..]))
      else Minified(s[1..])
    else if s[0] == '\"' then [s[0]] + InString(s[1..])
    else [s[0]] + Minified(s[1..])
  }

  /** The same, started inside a string. Only a backslash right before a quote is paired with it. */
  function InString(s: seq<byte>): (r: seq<byte>)
    ensures |r| <= |s|
    decreases |s|
  {
    if s == [] then []
    else if s[0] == '\"' then [s[0]] + Minified(s[1..])
    else if s[0] == '\\' && |s| > 1 && s[1] == '\"' then [s[0], s[1]] + InString(s[2..])
    else [s[0]] + InString(s[1..])
  }

  // ---------- what is dropped ----------

  /** Four bytes are blanks; besides them only slashes and comments go, and strings stay till their end. */
  lemma BlanksDropped(c: byte, x: seq<byte>)
    ensures c in " \t\r\n" ==> Minified([c] + x) == Minified(x)
    ensures c !in " \t\r\n/\"" ==> Minified([c] + x) == [c] + Minified(x)
    ensures x == [] || x[0] !in "/*" ==> Minified("/" + x) == Minified(x)
  {
    assert ([c] + x)[1..] == x && ("/" + x)[1..] == x;
  }

  /** A comment goes with the newline that ends it, or all that is left does. */
  lemma {:induction false} LineCommentDropped(a: seq<byte>, x: seq<byte>)
    requires '\n' !in a
    ensures Minified("//" + a + "\n" + x) == Minified(x) && Minified("//" + a) == []
  {
    LineEnds(a, x);
    assert ("//" + a + "\n" + x)[2..] == a + "\n" + x && ("//" + a)[2..] == a;
  }

  lemma {:induction false} LineEnds(a: seq<byte>, x: seq<byte>)
    requires '\n' !in a
    ensures AfterLine(a + "\n" + x) == x && AfterLine(a) == []
    decreases |a|
  {
    if a == [] {
      assert ([] + "\n" + x)[1..] == x;
    } else {
      assert (a + "\n" + x)[1..] == a[1..] + "\n" + x;
      LineEnds(a[1..], x);
    }
  }

  /** The other kind goes with the first closing mark behind the opening one. */
  lemma {:induction false} CommentDropped(a: seq<byte>, x: seq<byte>)
    requires forall i, j :: 0 <= i && j == i + 1 < |a| ==> a[i] != '*' || a[j] != '/'
    ensures Minified("/*" + a + "*/" + x) == Minified(x) && Minified("/*" + a) == []
  {
    CommentEnds(a, x);
    assert ("/*" + a + "*/" + x)[2..] == a + "*/" + x && ("/*" + a)[2..] == a;
  }

  lemma {:induction false} CommentEnds(a: seq<byte>, x: seq<byte>)
    requires forall i, j :: 0 <= i && j == i + 1 < |a| ==> a[i] != '*' || a[j] != '/'
    ensures AfterComment(a + "*/" + x) == x && AfterComment(a) == []
    decreases |a|
  {
    if a == [] {
      assert ([] + "*/" + x)[2..] == x;
    } else {
      var s := a + "*/" + x;
      assert s[1..] == a[1..] + "*/" + x;
      CommentEnds(a[1..], x);
      assert s[0] == a[0] && s[1] == if |a| > 1 then a[1] else '*';
    }
  }

  // ---------- in place ----------

  lemma MinifiedAt(s: seq<byte>, i: nat)
    requires i <= |s|
    ensures i == |s| ==> Minified(s[i..]) == []
    ensures i < |s| ==>
              Minified(s[i..]) ==
              if Blank(s[i]) then Minified(s[i + 1..])
              else if s[i] == '/' then
                if i + 1 < |s| && s[i + 1] == '/' then Minified(AfterLine(s[i + 2..]))
                else if i + 1 < |s| && s[i + 1] == '*' then Minified(AfterComment(s[i + 2..]))
                else Minified(s[i + 1..])
              else if s[i] == '\"' then [s[i]] + InString(s[i + 1..])
              else [s[i]] + Minified(s[i + 1..])
  {
    if i < |s| { assert s[i..][1..] == s[i + 1..]; }
    if i + 1 < |s| { assert s[i..][2..] == s[i + 2..]; }
  }

  lemma InStringAt(s: seq<byte>, i: nat)
    requires i <= |s|
    ensures i == |s| ==> InString(s[i..]) == [] == Minified(s[i..])
    ensures i < |s| ==>
              InString(s[i..]) ==
              if s[i] == '\"' then [s[i]] + Minified(s[i + 1..])
              else if s[i] == '\\' && i + 1 < |s| && s[i + 1] == '\"' then [s[i], s[i + 1]] + InString(s[i + 2..])
              else [s[i]] + InString(s[i + 1..])
  {
    if i < |s| { assert s[i..][1..] == s[i + 1..]; }
    if i + 1 < |s| { assert s[i..][2..] == s[i + 2..]; }
  }

  lemma Grouped(a: seq<byte>, b: seq<byte>, c: seq<byte>)
    ensures a + (b + c) == a + b + c
  {
  }

  class Minifier {
    const json: array<byte>
    var input: nat
    var into: nat

    constructor (json: array<byte>)
      ensures this.json == json && input == 0 && into == 0
    {
      this.json, input, into := json, 0, 0;
    }

    /** The text at `n` ends, what is at and after `input` is untouched, and `into` is not past it. */
    ghost predicate Within(text: seq<byte>)
      reads this, json
    {
      && into <= input <= |text| < json.Length && NUL !in text
      && json[input..|text|] == text[input..] && json[|text|] == NUL
    }

    lemma Here(text: seq<byte>)
      requires Within(text)
      ensures input < |text| ==>
                json[input] == text[input] && json[input] != NUL && text[input..][1..] == text[input + 1..]
                                 && text[input..][0] == text[input]
      ensures input == |text| ==> json[input] == NUL && text[input..] == []
      ensures input + 1 < |text| ==> json[input + 1] == text[input + 1] && text[input..][2..] == text[input + 2..]
                                     && text[input..][1] == text[input + 1] && json[input + 1] != NUL
      ensures input + 1 == |text| ==> json[input + 1] == NUL
    {
      if input < |text| {
        assert json[input] == json[input..|text|][0] == text[input..][0] == text[input];
        assert text[input] in text;
      }
      if input + 1 < |text| {
        assert json[input + 1] == json[input..|text|][1] == text[input..][1] == text[input + 1];
        assert text[input + 1] in text;
      }
    }

    method SkipOnelineComment(ghost text: seq<byte>)
      requires Within(text) && input + 2 <= |text|
      modifies `input
      ensures Within(text) && text[input..] == AfterLine(text[old(input) + 2..])
    {
      input := input + 2;
      assert json[input..|text|] == text[input..];
      Here(text);
      while json[input] != NUL
        invariant Within(text) && input >= old(input) + 2
        invariant AfterLine(text[old(input) + 2..]) == AfterLine(text[input..])
        decreases |text| - input
      {
        Here(text);
        if json[input] == '\n' {
          input := input + 1;
          assert json[input..|text|] == text[input..];
          return;
        }
        input := input + 1;
        assert json[input..|text|] == text[input..];
      }
      Here(text);
    }

    method SkipMultilineComment(ghost text: seq<byte>)
      requires Within(text) && input + 2 <= |text|
      modifies `input
      ensures Within(text) && text[input..] == AfterComment(text[old(input) + 2..])
    {
      input := input + 2;
      assert json[input..|text|] == text[input..];
      Here(text);
      while json[input] != NUL
        invariant Within(text) && input >= old(input) + 2
        invariant AfterComment(text[old(input) + 2..]) == AfterComment(text[input..])
        decreases |text| - input
      {
        Here(text);
        if json[input] == '*' && json[input + 1] == '/' {
          input := input + 2;
          assert json[input..|text|] == text[input..];
          return;
        }
        input := input + 1;
        assert json[input..|text|] == text[input..];
      }
      Here(text);
    }

    /** One byte from `input` to `into`; both move on. */
    method Copy(ghost text: seq<byte>)
      requires Within(text) && input < |text|
      modifies this, json
      ensures Within(text) && input == old(input) + 1 && into == old(into) + 1
      ensures json[..into] == old(json[..into]) + [text[old(input)]]
      ensures json[|text|..] == old(json[|text|..])
    {
      Here(text);
      json[into] := json[input];
      input, into := input + 1, into + 1;
      assert json[input..|text|] == old(json[input..|text|])[1..];
    }

    /** What has been kept and what will be kept of the rest make up `all`. */
    ghost predicate Kept(text: seq<byte>, all: seq<byte>, inString: bool)
      requires Within(text)
      reads this, json
    {
      all == json[..into] + if inString then InString(text[input..]) else Minified(text[input..])
    }

    method MinifyString(ghost text: seq<byte>, ghost all: seq<byte>)
      requires Within(text) && input < |text| && text[input] == '\"' && Kept(text, all, false)
      modifies this, json
      ensures Within(text) && Kept(text, all, false) && input > old(input)
      ensures json[|text|..] == old(json[|text|..])
    {
      hide InString, Minified;
      Here(text);
      MinifiedAt(text, input);
      Grouped(json[..into], [text[input]], InString(text[input + 1..]));
      Copy(text);
      while json[input] != NUL
        invariant Within(text) && input > old(input) && Kept(text, all, true)
        invariant json[|text|..] == old(json[|text|..])
        decreases |text| - input
      {
        Here(text);
        var closed := MinifyStringByte(text, all);
        if closed { return; }
      }
      Here(text);
      InStringAt(text, input);
    }

    /** One round of the loop. */
    method MinifyStringByte(ghost text: seq<byte>, ghost all: seq<byte>) returns (closed: bool)
      requires Within(text) && input < |text| && Kept(text, all, true)
      modifies this, json
      ensures Within(text) && input > old(input) && Kept(text, all, !closed)
      ensures json[|text|..] == old(json[|text|..])
    {
      hide InString, Minified;
      Here(text);
      InStringAt(text, input);
      closed := json[input] == '\"';
      if closed {
        Grouped(json[..into], [text[input]], Minified(text[input + 1..]));
        Copy(text);
      } else if json[input] == '\\' && json[input + 1] == '\"' {
        Grouped(json[..into], [text[input], text[input + 1]], InString(text[input + 2..]));
        CopyTwo(text);
      } else {
        Grouped(json[..into], [text[input]], InString(text[input + 1..]));
        Copy(text);
      }
    }

    method CopyTwo(ghost text: seq<byte>)
      requires Within(text) && input + 1 < |text|
      modifies this, json
      ensures Within(text) && input == old(input) + 2
      ensures json[..into] == old(json[..into]) + [text[old(input)], text[old(input) + 1]]
      ensures json[|text|..] == old(json[|text|..])
    {
      Copy(text);
      Copy(text);
    }

    /** `cJSON_Minify` on the text before the first NUL, which is at `|text|`. */
    method Run(ghost text: seq<byte>)
      requires input == 0 && into == 0 && Within(text)
      modifies this, json
      ensures |Minified(text)| <= |text| && json[..|Minified(text)| + 1] == Minified(text) + [NUL]
      ensures json[|text| + 1..] == old(json[|text| + 1..])
    {
      hide InString, Minified;
      assert text[0..] == text;
      while json[input] != NUL
        invariant Within(text) && Kept(text, Minified(text), false)
        invariant json[|text|..] == old(json[|text|..])
        decreases |text| - input
      {
        Here(text);
        MinifiedAt(text, input);
        Grouped(json[..into], [text[input]], Minified(text[input + 1..]));
        match json[input]
        case ' ' => Skip(text);
        case '\t' => Skip(text);
        case '\r' => Skip(text);
        case '\n' => Skip(text);
        case '/' =>
          if json[input + 1] == '/' {
            SkipOnelineComment(text);
          } else if json[input + 1] == '*' {
            SkipMultilineComment(text);
          } else {
            Skip(text);
          }
        case '\"' => MinifyString(text, Minified(text));
        case _ => Copy(text);
      }
      Here(text);
      MinifiedAt(text, input);
      json[into] := NUL;
    }

    method Skip(ghost text: seq<byte>)
      requires Within(text) && input < |text|
      modifies `input
      ensures Within(text) && input == old(input) + 1
    {
      input := input + 1;
      assert json[input..|text|] == text[input..];
    }
  }
}
