/**
 The printer as it runs: a buffer with an offset, grown by `ensure` unless the caller
 provided it. Every routine succeeds exactly when the text it prints, a terminator and one
 spare byte fit, and leaves that text behind the old contents.
 */
module PrintBuffers {
  import opened Basics
  import opened JsonText

  const INT_MAX: nat := 0x7FFF_FFFF

  /** The printed form of a number has to fit the 26 bytes of `number_buffer`. */
  predicate Printable(v: Json) {
    match v
    case Real(text) => |text| <= 25
    case Arr(items) => PrintableItems(items)
    case Obj(members) => PrintableMembers(members)
    case _ => true
  }

  predicate PrintableItems(items: Items) {
    items.ICons? ==> Printable(items.head) && PrintableItems(items.tail)
  }

  predicate PrintableMembers(members: Members) {
    members.MCons? ==> Printable(members.val) && PrintableMembers(members.rest)
  }

  // ---------- facts about the text ----------

  lemma {:induction false} DecNatNoNul(n: nat)
    ensures NUL !in DecNat(n)
  {
    if n >= 10 { DecNatNoNul(n / 10); }
  }

  lemma {:induction false} DecNatShort(n: nat, k: nat)
    requires k > 0 && n < Ten(k)
    ensures |DecNat(n)| <= k
    decreases k
  {
    if n >= 10 { DecNatShort(n / 10, k - 1); }
  }

  function Ten(k: nat): nat { if k == 0 then 1 else 10 * Ten(k - 1) }

  lemma DecIntFits(n: int32)
    ensures |DecInt(n)| <= 25
  {
    assert Ten(10) == 10000000000 by {
      assert Ten(2) == 100;
      assert Ten(4) == 10000;
      assert Ten(6) == 1000000;
      assert Ten(8) == 100000000;
    }
    DecNatShort(if n < 0 then -(n as int) else n, 10);
  }

  lemma {:induction false} EscapeNoNul(s: cstring)
    ensures NUL !in Escape(s)
  {
    if s == [] {
    } else {
      EscapeNoNul(s[1..]);
      assert s[0] in s;
    }
  }

  lemma {:induction false} EscapeLength(s: cstring)
    ensures |Escape(s)| >= |s| && (|Escape(s)| == |s| ==> Escape(s) == s)
  {
    if s == [] {
    } else {
      EscapeLength(s[1..]);
      assert s == [s[0]] + s[1..];
    }
  }

  lemma {:induction false} RenderNoNul(v: Json, fmt: bool, depth: nat)
    ensures NUL !in Render(v, fmt, depth)
    decreases v
  {
    hide RenderItems, RenderMembers, Escape, DecNat;
    match v
    case Num(n) => DecNatNoNul(if n < 0 then -(n as int) else n);
    case Str(s) => EscapeNoNul(s);
    case Arr(items) => ItemsNoNul(items, fmt, depth + 1);
    case Obj(members) => MembersNoNul(members, fmt, depth + 1);
    case _ =>
  }

  lemma {:induction false} ItemsNoNul(items: Items, fmt: bool, depth: nat)
    ensures NUL !in RenderItems(items, fmt, depth)
    decreases items
  {
    match items
    case INil =>
    case ICons(v, tail) =>
      RenderNoNul(v, fmt, depth);
      ItemsNoNul(tail, fmt, depth);
  }

  lemma {:induction false} MembersNoNul(members: Members, fmt: bool, depth: nat)
    ensures NUL !in RenderMembers(members, fmt, depth)
    decreases members
  {
    match members
    case MNil =>
    case MCons(key, v, rest) =>
      EscapeNoNul(key);
      RenderNoNul(v, fmt, depth);
      MembersNoNul(rest, fmt, depth);
  }

  /** `text` stands behind `before`, terminated, with the offset somewhere in or at the end of it. */
  ghost predicate Wrote(b: seq<byte>, offset: nat, before: seq<byte>, text: seq<byte>) {
    && |before| <= offset <= |before| + |text| < |b|
    && b[..|before| + |text|] == before + text
    && b[|before| + |text|] == NUL
  }

  /** The last bytes complete the text. */
  lemma ClosedBy(b: seq<byte>, inner: seq<byte>, close: seq<byte>, before: seq<byte>, text: seq<byte>)
    requires inner + (close + [NUL]) <= b && inner + close == before + text && |before| <= |inner|
    ensures Wrote(b, |inner|, before, text)
  {
    assert inner + (close + [NUL]) == inner + close + [NUL];
    assert b[..|inner| + |close|] == inner + close;
  }

  lemma ArrayText(before: seq<byte>, items: Items, fmt: bool, depth: nat)
    ensures before + "[" + (RenderItems(items, fmt, depth + 1) + "]") == before + Render(Arr(items), fmt, depth)
    ensures |Render(Arr(items), fmt, depth)| >= 2
  {
    hide RenderItems;
    var inner := RenderItems(items, fmt, depth + 1);
    assert Render(Arr(items), fmt, depth) == "[" + inner + "]";
    Bracketed(before, inner);
  }

  lemma Bracketed(before: seq<byte>, inner: seq<byte>)
    ensures before + "[" + (inner + "]") == before + ("[" + inner + "]")
  {
  }

  lemma NoItems(fmt: bool, depth: nat)
    ensures RenderItems(INil, fmt, depth) + "]" == "]"
  {
  }

  lemma ItemText(items: Items, fmt: bool, depth: nat, before: seq<byte>)
    requires items.ICons?
    ensures var text, sep, rest := Render(items.head, fmt, depth), ItemSeparator(items.tail, fmt),
                RenderItems(items.tail, fmt, depth) + "]";
            && before + text + sep + rest == before + (RenderItems(items, fmt, depth) + "]")
            && (items.tail.INil? ==> before + text + rest == before + (RenderItems(items, fmt, depth) + "]"))
            && sep == (if items.tail.INil? then "" else if fmt then ", " else ",")
            && |rest| >= 1
  {
    hide Render;
    var text, sep, rest := Render(items.head, fmt, depth), ItemSeparator(items.tail, fmt), RenderItems(items.tail,
        fmt, depth);
    assert RenderItems(items, fmt, depth) == text + sep + rest;
    assert before + text + sep + (rest + "]") == before + (text + sep + rest + "]");
  }

  /** What print_object leaves for the end, at the depth of its members. */
  function Closing(fmt: bool, depth: nat): (t: seq<byte>)
    requires depth > 0
    ensures |t| == if fmt then depth else 1
  {
    Opt(fmt, Tabs(depth - 1)) + "}"
  }

  lemma ObjectText(before: seq<byte>, members: Members, fmt: bool, depth: nat)
    ensures var open := if fmt then "{\n" else "{";
            && before + open + (RenderMembers(members, fmt, depth + 1) + Closing(fmt, depth + 1))
               == before + Render(Obj(members), fmt, depth)
            && |Render(Obj(members), fmt, depth)| >= |open| + 1
  {
    hide RenderMembers;
    assert "{" + Opt(fmt, "\n") == if fmt then "{\n" else "{";
  }

  lemma NoMembers(fmt: bool, depth: nat)
    requires depth > 0
    ensures RenderMembers(MNil, fmt, depth) + Closing(fmt, depth) == Closing(fmt, depth)
  {
  }

  /** What stands before a member's value. */
  function KeyText(key: cstring, fmt: bool, depth: nat): seq<byte> {
    Opt(fmt, Tabs(depth)) + Quoted(key) + (if fmt then ":\t" else ":")
  }

  lemma MemberText(members: Members, fmt: bool, depth: nat, before: seq<byte>)
    requires members.MCons? && depth > 0
    ensures var MCons(key, v, rest) := members;
            before + KeyText(key, fmt, depth) + Render(v, fmt, depth)
            + ((if rest.MCons? then "," else "") + (if fmt then "\n" else ""))
            + (RenderMembers(rest, fmt, depth) + Closing(fmt, depth))
            == before + (RenderMembers(members, fmt, depth) + Closing(fmt, depth))
  {
    hide *;
    var MCons(key, v, rest) := members;
    var inner, close := RenderMembers(rest, fmt, depth), Closing(fmt, depth);
    var sep := (if rest.MCons? then "," else "") + (if fmt then "\n" else "");
    MemberPieces(members, fmt, depth);
    KeyPieces(key, fmt, depth, before);
    MemberGrouping(before, Opt(fmt, Tabs(depth)), Quoted(key), Opt(fmt, "\t"), Render(v, fmt, depth), sep, inner,
                   close);
  }

  lemma MemberPieces(members: Members, fmt: bool, depth: nat)
    requires members.MCons?
    ensures var MCons(key, v, rest) := members;
            var sep := (if rest.MCons? then "," else "") + (if fmt then "\n" else "");
            RenderMembers(members, fmt, depth)
            == Opt(fmt, Tabs(depth)) + Quoted(key) + ":" + Opt(fmt, "\t") + Render(v, fmt, depth) + sep
               + RenderMembers(rest, fmt, depth)
  {
    hide Render, Quoted, Tabs;
  }

  lemma KeyPieces(key: cstring, fmt: bool, depth: nat, before: seq<byte>)
    ensures var tabbed := before + Opt(fmt, Tabs(depth));
            && tabbed + Quoted(key) + (":" + Opt(fmt, "\t")) == before + KeyText(key, fmt, depth)
            && tabbed == (if fmt then before + Tabs(depth) else before)
    ensures ":" + Opt(fmt, "\t") == if fmt then ":\t" else ":"
    ensures |KeyText(key, fmt, depth)| == |Opt(fmt, Tabs(depth))| + |Quoted(key)| + |":" + Opt(fmt, "\t")|
    ensures |Opt(fmt, Tabs(depth))| == if fmt then depth else 0
  {
    hide Quoted, Tabs;
  }

  lemma MemberGrouping(b: seq<byte>, tabs: seq<byte>, k: seq<byte>, space: seq<byte>, text: seq<byte>,
                       sep: seq<byte>, inner: seq<byte>, close: seq<byte>)
    ensures b + tabs + k + (":" + space) + text + sep + (inner + close)
         == b + (tabs + k + ":" + space + text + sep + inner + close)
  {
  }

  lemma QuotedNoNul(s: cstring)
    ensures NUL !in Quoted(s)
  {
    EscapeNoNul(s);
  }

  lemma QuotedLength(s: cstring)
    ensures |Quoted(s)| == |Escape(s)| + 2
    ensures Escape(s) == s ==> Quoted(s) == "\"" + s + "\""
  {
  }

  lemma QuotedText(before: seq<byte>, s: cstring)
    ensures before + "\"" + Escape(s) + ("\"" + [NUL]) == before + (Quoted(s) + [NUL])
  {
    hide Escape;
  }

  lemma WholeSuffix(s: cstring)
    ensures s[0..] == s && Escape(s[|s|..]) == ""
  {
  }

  lemma EscapeStep(s: cstring, i: nat)
    requires i < |s|
    ensures s[i] != NUL && Escape(s[i..]) == EscapeByte(s[i]) + Escape(s[i + 1..])
  {
    assert s[i..][1..] == s[i + 1..];
    assert s[i] in s;
  }

  lemma AssociateThree(a: seq<byte>, b: seq<byte>, c: seq<byte>)
    ensures a + (b + c) == a + b + c
  {
  }

  lemma Stored(b: seq<byte>, before: seq<byte>, text: seq<byte>)
    requires before + (text + [NUL]) <= b
    ensures Wrote(b, |before|, before, text)
  {
    assert (before + (text + [NUL]))[..|before| + |text|] == before + text;
    assert (before + (text + [NUL]))[|before| + |text|] == NUL;
  }

  class PrintBuffer {
    var buffer: array?<byte>
    var length: nat
    var offset: nat
    var depth: nat
    const noalloc: bool
    const format: bool
    const hasRealloc: bool
    ghost var outOfMemory: bool
    ghost var reserved: nat   // up to where the last `ensure` allows to write

    /** Without realloc a buffer that is to grow has at least a byte: the copy reads one more than the offset. */
    ghost predicate Valid()
      reads this
    {
      && buffer != null && length <= buffer.Length && length <= INT_MAX && !outOfMemory
      && (noalloc || length == buffer.Length)
      && reserved <= length
      && (offset < length || (offset == length == 0 && (noalloc || hasRealloc)))
    }

    /** What lies behind the length that was given. */
    ghost function Behind(): seq<byte>
      reads `buffer, `length, buffer
    {
      if buffer != null && length <= buffer.Length then buffer[length..] else []
    }

    /** How far a buffer can be filled. */
    ghost function Limit(): nat
      reads this
    {
      if noalloc then length else INT_MAX
    }

    constructor (buffer: array<byte>, length: nat, noalloc: bool, format: bool, hasRealloc: bool)
      requires length <= buffer.Length && length <= INT_MAX && (noalloc || length == buffer.Length)
      requires length > 0 || noalloc || hasRealloc
      ensures Valid() && this.buffer == buffer && this.length == length && offset == 0 && depth == 0
      ensures this.noalloc == noalloc && this.format == format && this.hasRealloc == hasRealloc
    {
      this.buffer, this.length, offset, depth := buffer, length, 0, 0;
      this.noalloc, this.format, this.hasRealloc := noalloc, format, hasRealloc;
      outOfMemory, reserved := false, 0;
    }

    method Ensure(needed: nat) returns (ok: bool)
      requires Valid()
      modifies `buffer, `length, `outOfMemory, `reserved
      ensures ok <==> !outOfMemory && offset + needed + 1 <= old(Limit())
      ensures noalloc ==> buffer == old(buffer) && length == old(length) && !outOfMemory && Behind() == old(Behind())
      ensures ok ==> Valid() && reserved == offset + needed < length && (buffer == old(buffer) || fresh(buffer))
      ensures ok ==> buffer[..offset] == old(buffer[..offset])
    {
      if length > 0 && offset >= length { return false; }
      if needed > INT_MAX { return false; }
      var total := needed + offset + 1;
      if total <= length {
        reserved := offset + needed;
        return true;
      }
      if noalloc { return false; }
      var newsize;
      if total > INT_MAX / 2 {
        if total > INT_MAX { return false; }
        newsize := INT_MAX;
      } else {
        newsize := total * 2;
      }
      if * {
        outOfMemory, length, buffer := true, 0, null;
        return false;
      }
      var newbuffer := new byte[newsize];
      var copied := if hasRealloc then length else offset + 1;
      forall i | 0 <= i < copied { newbuffer[i] := buffer[i]; }
      assert newbuffer[..offset] == buffer[..offset];
      length, buffer, reserved := newsize, newbuffer, offset + needed;
      return true;
    }

    /** memcpy or strcpy to `at`. */
    method Poke(at: nat, t: seq<byte>)
      requires buffer != null && offset <= at && at + |t| <= reserved <= length <= buffer.Length
      modifies buffer
      ensures buffer[..] == old(buffer[..at]) + t + old(buffer[at + |t|..])
      ensures old(buffer[..at]) + t <= buffer[..] && Behind() == old(Behind())
    {
      forall i | 0 <= i < |t| { buffer[at + i] := t[i]; }
    }

    ghost predicate Printed(before: seq<byte>, text: seq<byte>)
      reads this, buffer
    {
      Valid() && |before| + |text| < length && Wrote(buffer[..], offset, before, text)
    }

    /** strlen from the offset on */
    method UpdateOffset(ghost before: seq<byte>, ghost text: seq<byte>)
      requires Printed(before, text) && NUL !in text
      modifies `offset
      ensures Valid() && offset == |before| + |text| && buffer[..offset] == before + text
    {
      ghost var end := |before| + |text|;
      forall i | offset <= i < end ensures buffer[i] != NUL {
        assert buffer[i] == buffer[..end][i] == text[i - |before|];
      }
      var p := offset;
      while buffer[p] != NUL
        invariant offset <= p <= end
        decreases end - p
      {
        p := p + 1;
      }
      offset := p;
    }

    /** The leaves that are copied whole: `ensure` for the text and its NUL, then strcpy. */
    method PrintText(t: seq<byte>) returns (ok: bool)
      requires Valid()
      modifies this, buffer
      ensures Fitted(ok, old(offset), t, old(Limit())) && depth == old(depth)
      ensures noalloc ==> buffer == old(buffer) && length == old(length) && !outOfMemory && Behind() == old(Behind())
      ensures ok ==> Printed(old(buffer[..offset]), t) && (buffer == old(buffer) || fresh(buffer))
      ensures offset == old(offset)
    {
      ghost var before := buffer[..offset];
      ok := Ensure(|t| + 1);
      if ok {
        Poke(offset, t + [NUL]);
        assert buffer[..offset + |t|] == before + t;
      }
    }

    /** A routine that prints `t` from `offset` on succeeds exactly if there is room. */
    ghost predicate Fitted(ok: bool, offset: nat, t: seq<byte>, limit: nat)
      reads `outOfMemory
    {
      ok <==> !outOfMemory && offset + |t| + 2 <= limit
    }

    method PrintNumber(t: seq<byte>) returns (ok: bool)
      requires Valid()
      modifies this, buffer
      ensures if |t| > 25 then !ok else Fitted(ok, old(offset), t, old(Limit()))
      ensures depth == old(depth)
      ensures noalloc ==> buffer == old(buffer) && length == old(length) && !outOfMemory && Behind() == old(Behind())
      ensures ok ==> Printed(old(buffer[..offset]), t) && (buffer == old(buffer) || fresh(buffer))
    {
      if |t| > 25 { return false; }
      ok := PrintText(t);
      if ok { offset := offset + |t|; }
    }

    /** One byte of a string, escaped if it has to be. */
    method PutEscaped(c: byte, w: nat) returns (w': nat)
      requires buffer != null && c != NUL && offset <= w && w + |EscapeByte(c)| < reserved <= length <= buffer.Length
      modifies buffer
      ensures Behind() == old(Behind())
      ensures w' == w + |EscapeByte(c)| && buffer[..w'] == old(buffer[..w]) + EscapeByte(c)
    {
      if c > '\U{1F}' && c != '\"' && c != '\\' {
        buffer[w] := c;
        w' := w + 1;
        assert buffer[..w'] == old(buffer[..w]) + [c];
      } else {
        buffer[w] := '\\';
        assert buffer[..w + 1] == old(buffer[..w]) + "\\";
        w' := PutEscapee(c, w + 1);
        assert EscapeByte(c) == "\\" + EscapeByte(c)[1..];
      }
    }

    /** What follows the backslash. */
    method PutEscapee(c: byte, w: nat) returns (w': nat)
      requires buffer != null && c != NUL && offset <= w
      requires w - 1 + |EscapeByte(c)| < reserved <= length <= buffer.Length
      requires c <= '\U{1F}' || c == '\"' || c == '\\'
      modifies buffer
      ensures Behind() == old(Behind())
      ensures w' == w - 1 + |EscapeByte(c)| && buffer[..w'] == old(buffer[..w]) + EscapeByte(c)[1..]
    {
      match c {
        case '\\' => buffer[w] := '\\';
        case '\"' => buffer[w] := '\"';
        case '\n' => buffer[w] := 'n';
        case '\r' => buffer[w] := 'r';
        case '\t' => buffer[w] := 't';
        case _ =>
          if c == BACKSPACE {
            buffer[w] := 'b';
          } else if c == FORM_FEED {
            buffer[w] := 'f';
          } else {
            PutCode(c, w);
            return w + 5;
          }
      }
      w' := w + 1;
      assert buffer[..w'] == old(buffer[..w]) + [buffer[w]];
    }

    method PutCode(c: byte, w: nat)
      requires buffer != null && c < ' ' && offset <= w && w + 5 < reserved <= length <= buffer.Length
      modifies buffer
      ensures Behind() == old(Behind())
      ensures buffer[..w + 5] == old(buffer[..w]) + ("u00" + [HexDigit(c as int / 16), HexDigit(c as int % 16)])
    {
      ghost var before := buffer[..w];
      var t := "u00" + [HexDigit(c as int / 16), HexDigit(c as int % 16)];
      Poke(w, t + [NUL]);
      assert buffer[..w + 5] == buffer[..][..w + 5] == before + t;
    }

    /** The escapes are counted first, then the text is written in one go. */
    method PrintString(s: cstring) returns (ok: bool)
      requires Valid()
      modifies this, buffer
      ensures Fitted(ok, old(offset), Quoted(s), old(Limit())) && depth == old(depth) && offset == old(offset)
      ensures noalloc ==> buffer == old(buffer) && length == old(length) && !outOfMemory && Behind() == old(Behind())
      ensures ok ==> Printed(old(buffer[..offset]), Quoted(s)) && (buffer == old(buffer) || fresh(buffer))
    {
      hide Escape, Wrote, Quoted;
      ghost var before := buffer[..offset];
      var escapes := CountEscapes(s);
      QuotedLength(s);
      var outputLength := |s| + escapes;
      ok := Ensure(outputLength + 3);
      if !ok { return; }
      StoreQuoted(s, escapes);
    }

    method StoreQuoted(s: cstring, escapes: nat)
      requires buffer != null && |s| + escapes == |Escape(s)|
      requires offset + |Quoted(s)| < reserved <= length <= buffer.Length
      modifies buffer
      ensures Behind() == old(Behind())
      ensures Wrote(buffer[..], offset, old(buffer[..offset]), Quoted(s))
    {
      hide Escape, Wrote, Quoted;
      ghost var before := buffer[..offset];
      EscapeLength(s);
      QuotedLength(s);
      if escapes == 0 {
        Poke(offset, "\"" + s + "\"" + [NUL]);
      } else {
        Poke(offset, "\"");
        WriteEscaped(s, offset + 1);
        Poke(offset + 1 + |s| + escapes, "\"" + [NUL]);
        QuotedText(before, s);
      }
      Stored(buffer[..], before, Quoted(s));
    }

    method CountEscapes(s: cstring) returns (escapes: nat)
      ensures |s| + escapes == |Escape(s)|
    {
      escapes := 0;
      for i := 0 to |s|
        invariant i + escapes + |Escape(s[i..])| == |Escape(s)|
      {
        var c := s[i];
        assert s[i..][1..] == s[i + 1..];
        if c in ['\"', '\\', BACKSPACE, FORM_FEED, '\n', '\r', '\t'] {
          escapes := escapes + 1;
        } else if c < ' ' {
          escapes := escapes + 5;
        }
      }
    }

    method WriteEscaped(s: cstring, at: nat)
      requires buffer != null && offset <= at && at + |Escape(s)| + 2 <= reserved <= length <= buffer.Length
      modifies buffer
      ensures Behind() == old(Behind())
      ensures buffer[..at + |Escape(s)|] == old(buffer[..at]) + Escape(s)
    {
      hide Escape, EscapeByte;
      var w := at;
      WholeSuffix(s);
      for i := 0 to |s|
        invariant at <= w && w + |Escape(s[i..])| == at + |Escape(s)|
        invariant Behind() == old(Behind())
        invariant buffer[..w] + Escape(s[i..]) == old(buffer[..at]) + Escape(s)
      {
        EscapeStep(s, i);
        AssociateThree(buffer[..w], EscapeByte(s[i]), Escape(s[i + 1..]));
        w := PutEscaped(s[i], w);
      }
      WholeSuffix(s);
    }

    method PrintValue(v: Json) returns (ok: bool)
      requires Valid() && Printable(v)
      modifies this, buffer
      ensures Fitted(ok, old(offset), Render(v, format, old(depth)), old(Limit()))
      ensures noalloc ==> buffer == old(buffer) && length == old(length) && !outOfMemory && Behind() == old(Behind())
      ensures ok ==> depth == old(depth) && (buffer == old(buffer) || fresh(buffer))
      ensures ok ==> Printed(old(buffer[..offset]), Render(v, format, old(depth)))
      decreases v
    {
      match v
      case Null => ok := PrintText("null");
      case Bool(b) => ok := PrintText(if b then "true" else "false");
      case Num(n) =>
        DecIntFits(n);
        ok := PrintNumber(DecInt(n));
      case Real(text) => ok := PrintNumber(text);
      case Raw(text) => ok := PrintText(text);
      case Str(s) => ok := PrintString(s);
      case Arr(items) => ok := PrintArray(items);
      case Obj(members) => ok := PrintObject(members);
    }

    method PrintArray(items: Items) returns (ok: bool)
      requires Valid() && PrintableItems(items)
      modifies this, buffer
      ensures Fitted(ok, old(offset), Render(Arr(items), format, old(depth)), old(Limit()))
      ensures noalloc ==> buffer == old(buffer) && length == old(length) && !outOfMemory && Behind() == old(Behind())
      ensures ok ==> depth == old(depth) && (buffer == old(buffer) || fresh(buffer))
      ensures ok ==> Printed(old(buffer[..offset]), Render(Arr(items), format, old(depth)))
      decreases items, 2
    {
      hide Render, RenderItems, Wrote;
      ghost var before := buffer[..offset];
      ghost var target := before + Render(Arr(items), format, depth);
      ArrayText(before, items, format, depth);
      ok := Emit("[", 1, false);
      if !ok { return; }
      depth := depth + 1;
      ok := PrintItems(items, target);
      if !ok { return; }
      ok := Close("]", 2, before, Render(Arr(items), format, old(depth)));
    }

    method PrintItems(items: Items, ghost target: seq<byte>) returns (ok: bool)
      requires Valid() && PrintableItems(items)
      requires buffer[..offset] + (RenderItems(items, format, depth) + "]") == target
      modifies this, buffer
      ensures noalloc ==> buffer == old(buffer) && length == old(length) && !outOfMemory && Behind() == old(Behind())
      ensures !ok ==> outOfMemory || |target| + 2 > old(Limit())
      ensures ok ==> Valid() && depth == old(depth) && (buffer == old(buffer) || fresh(buffer))
      ensures ok ==> offset >= old(offset) && buffer[..offset] + "]" == target
      decreases items, 1
    {
      hide Render, RenderItems;
      ghost var limit := Limit();
      ok := true;
      var cur := items;
      while cur.ICons?
        invariant Valid() && Limit() == limit && (noalloc ==> buffer == old(buffer) && length == old(length))
        invariant noalloc ==> Behind() == old(Behind())
        invariant buffer == old(buffer) || fresh(buffer)
        invariant ok && depth == old(depth) && offset >= old(offset) && PrintableItems(cur)
        invariant buffer[..offset] + (RenderItems(cur, format, depth) + "]") == target
        invariant cur == items || cur < items
        decreases cur
      {
        ok := PrintItem(cur, target);
        if !ok { return; }
        cur := cur.tail;
      }
      NoItems(format, depth);
    }

    /** One round of the loop: an element and the comma after it. */
    method PrintItem(cur: Items, ghost target: seq<byte>) returns (ok: bool)
      requires Valid() && cur.ICons? && PrintableItems(cur)
      requires buffer[..offset] + (RenderItems(cur, format, depth) + "]") == target
      modifies this, buffer
      ensures noalloc ==> buffer == old(buffer) && length == old(length) && !outOfMemory && Behind() == old(Behind())
      ensures !ok ==> outOfMemory || |target| + 2 > old(Limit())
      ensures ok ==> Valid() && depth == old(depth) && (buffer == old(buffer) || fresh(buffer))
      ensures ok ==> offset >= old(offset) && buffer[..offset] + (RenderItems(cur.tail, format, depth) + "]") == target
      decreases cur, 0
    {
      hide Render, RenderItems, ItemSeparator;
      var n := if format then 2 else 1;
      ghost var before := buffer[..offset];
      ghost var text, sep, rest := Render(cur.head, format, depth), ItemSeparator(cur.tail, format),
                RenderItems(cur.tail, format, depth) + "]";
      ItemText(cur, format, depth, before);
      ok := PrintValue(cur.head);
      if !ok { return; }
      RenderNoNul(cur.head, format, depth);
      UpdateOffset(before, text);
      if cur.tail.ICons? {
        ok := Emit(if format then ", " else ",", n + 1, true);
      }
    }

    /** The closing bracket and its indentation, behind which the offset does not move. */
    method Close(t: seq<byte>, needed: nat, ghost before: seq<byte>, ghost text: seq<byte>) returns (ok: bool)
      requires Valid() && depth > 0 && needed == |t| + 1
      requires |before| <= offset && buffer[..offset] + t == before + text
      modifies this, buffer
      ensures noalloc ==> buffer == old(buffer) && length == old(length) && !outOfMemory && Behind() == old(Behind())
      ensures Fitted(ok, |before|, text, old(Limit()))
      ensures ok ==> depth == old(depth) - 1 && (buffer == old(buffer) || fresh(buffer)) && Printed(before, text)
    {
      hide Wrote;
      ghost var inner := buffer[..offset];
      ok := Ensure(needed);
      if !ok { return; }
      Poke(offset, t + [NUL]);
      ClosedBy(buffer[..], inner, t, before, text);
      depth := depth - 1;
    }

    /** `ensure`, some bytes written there, terminated or not, and the offset moved past them. */
    method Emit(t: seq<byte>, needed: nat, terminated: bool) returns (ok: bool)
      requires Valid() && needed >= if terminated then |t| + 1 else |t|
      modifies this, buffer
      ensures ok <==> !outOfMemory && old(offset) + needed + 1 <= old(Limit())
      ensures depth == old(depth)
      ensures noalloc ==> buffer == old(buffer) && length == old(length) && !outOfMemory && Behind() == old(Behind())
      ensures ok ==> Valid() && (buffer == old(buffer) || fresh(buffer))
      ensures ok ==> offset == old(offset) + |t| && buffer[..offset] == old(buffer[..offset]) + t
    {
      ok := Ensure(needed);
      if ok {
        Poke(offset, t + if terminated then [NUL] else []);
        offset := offset + |t|;
      }
    }

    method PrintObject(members: Members) returns (ok: bool)
      requires Valid() && PrintableMembers(members)
      modifies this, buffer
      ensures Fitted(ok, old(offset), Render(Obj(members), format, old(depth)), old(Limit()))
      ensures noalloc ==> buffer == old(buffer) && length == old(length) && !outOfMemory && Behind() == old(Behind())
      ensures ok ==> depth == old(depth) && (buffer == old(buffer) || fresh(buffer))
      ensures ok ==> Printed(old(buffer[..offset]), Render(Obj(members), format, old(depth)))
      decreases members, 2
    {
      hide Render, RenderMembers, Wrote, Tabs, Closing;
      ghost var before := buffer[..offset];
      ghost var target := before + Render(Obj(members), format, depth);
      ObjectText(before, members, format, depth);
      var n := if format then 2 else 1;
      ok := Emit(if format then "{\n" else "{", n + 1, false);
      if !ok { return; }
      depth := depth + 1;
      ok := PrintMembers(members, target);
      if !ok { return; }
      ok := Close(Closing(format, depth), if format then depth + 1 else 2, before, Render(Obj(members), format,
                  old(depth)));
    }

    method PrintMembers(members: Members, ghost target: seq<byte>) returns (ok: bool)
      requires Valid() && depth > 0 && PrintableMembers(members)
      requires buffer[..offset] + (RenderMembers(members, format, depth) + Closing(format, depth)) == target
      modifies this, buffer
      ensures noalloc ==> buffer == old(buffer) && length == old(length) && !outOfMemory && Behind() == old(Behind())
      ensures !ok ==> outOfMemory || |target| + 2 > old(Limit())
      ensures ok ==> Valid() && depth == old(depth) && (buffer == old(buffer) || fresh(buffer))
      ensures ok ==> offset >= old(offset) && buffer[..offset] + Closing(format, depth) == target
      decreases members, 1
    {
      hide Render, RenderMembers, Closing;
      ghost var limit := Limit();
      ok := true;
      var cur := members;
      while cur.MCons?
        invariant Valid() && Limit() == limit && (noalloc ==> buffer == old(buffer) && length == old(length))
        invariant noalloc ==> Behind() == old(Behind())
        invariant buffer == old(buffer) || fresh(buffer)
        invariant ok && depth == old(depth) && offset >= old(offset) && PrintableMembers(cur)
        invariant buffer[..offset] + (RenderMembers(cur, format, depth) + Closing(format, depth)) == target
        invariant cur == members || cur < members
        decreases cur
      {
        ok := PrintMember(cur, target);
        if !ok { return; }
        cur := cur.rest;
      }
      NoMembers(format, depth);
    }

    /** The indentation, the key and its colon. */
    method PrintKey(key: cstring) returns (ok: bool)
      requires Valid()
      modifies this, buffer
      ensures noalloc ==> buffer == old(buffer) && length == old(length) && !outOfMemory && Behind() == old(Behind())
      ensures !ok ==> outOfMemory || old(offset) + |KeyText(key, format, old(depth))| + 1 > old(Limit())
      ensures ok ==> Valid() && depth == old(depth) && (buffer == old(buffer) || fresh(buffer))
      ensures ok ==> offset >= old(offset) && buffer[..offset] == old(buffer[..offset]) + KeyText(key, format, depth)
    {
      hide Quoted, Tabs, KeyText;
      KeyPieces(key, format, depth, buffer[..offset]);
      if format {
        ok := Emit(Tabs(depth), depth, false);
        if !ok { return; }
      }
      ghost var indented := buffer[..offset];
      ok := PrintString(key);
      if !ok { return; }
      QuotedNoNul(key);
      UpdateOffset(indented, Quoted(key));
      ok := Emit(if format then ":\t" else ":", if format then 2 else 1, false);
      if !ok { return; }
    }

    /** One round of the loop: indentation, key, colon, value and separator. */
    method PrintMember(cur: Members, ghost target: seq<byte>) returns (ok: bool)
      requires Valid() && depth > 0 && cur.MCons? && PrintableMembers(cur)
      requires buffer[..offset] + (RenderMembers(cur, format, depth) + Closing(format, depth)) == target
      modifies this, buffer
      ensures noalloc ==> buffer == old(buffer) && length == old(length) && !outOfMemory && Behind() == old(Behind())
      ensures !ok ==> outOfMemory || |target| + 2 > old(Limit())
      ensures ok ==> Valid() && depth == old(depth) && (buffer == old(buffer) || fresh(buffer))
      ensures ok ==> offset >= old(offset)
      ensures ok ==> buffer[..offset] + (RenderMembers(cur.rest, format, depth) + Closing(format, depth)) == target
      decreases cur, 0
    {
      hide Render, RenderMembers, KeyText, Closing, MemberSeparator;
      ghost var before := buffer[..offset];
      MemberText(cur, format, depth, before);
      ok := PrintKey(cur.key);
      if !ok { return; }
      ghost var keyed := buffer[..offset];
      ok := PrintValue(cur.val);
      if !ok { return; }
      RenderNoNul(cur.val, format, depth);
      UpdateOffset(keyed, Render(cur.val, format, depth));
      var n := (if format then 1 else 0) + (if cur.rest.MCons? then 1 else 0);
      ok := Emit((if cur.rest.MCons? then "," else "") + (if format then "\n" else ""), n + 1, true);
    }
  }

  // ---------- entry points ----------

  /**
   `cJSON_PrintPreallocated`: it succeeds exactly when the text and two more bytes fit, and
   then the buffer holds the text and its NUL. Either way nothing behind the length is touched.
   */
  method PrintPreallocated(item: Json, buffer: array<byte>, length: int, format: bool) returns (ok: bool)
    requires Printable(item) && length <= buffer.Length && length <= INT_MAX
    modifies buffer
    ensures ok <==> length >= |Render(item, format, 0)| + 2
    ensures ok ==> Render(item, format, 0) + [NUL] <= buffer[..]
    ensures var n := if length < 0 then 0 else length; buffer[n..] == old(buffer[n..])
  {
    if length < 0 { return false; }
    var p := new PrintBuffer(buffer, length, true, format, true);
    ok := p.PrintValue(item);
    if ok {
      ghost var text := Render(item, format, 0);
      assert buffer[..|text| + 1] == buffer[..|text|] + [buffer[|text|]];
      assert buffer[..][..|text|] == [] + text == text;
    }
  }

  /**
   `print`, behind `cJSON_Print` and `cJSON_PrintUnformatted`: the text and its NUL in a new
   array of just that size, unless memory runs out or the text is longer than an int can say.
   */
  method Print(item: Json, format: bool, hasRealloc: bool) returns (printed: array?<byte>, ghost outOfMemory: bool)
    requires Printable(item)
    ensures printed != null <==> !outOfMemory && |Render(item, format, 0)| + 2 <= INT_MAX
    ensures printed != null ==> printed[..] == Render(item, format, 0) + [NUL]
  {
    hide Render, Printable;
    printed, outOfMemory := null, true;
    if * { return; }
    var first := new byte[256];
    var p := new PrintBuffer(first, 256, false, format, hasRealloc);
    var ok := p.PrintValue(item);
    if !ok {
      outOfMemory := p.outOfMemory;
      return;
    }
    ghost var text := Render(item, format, 0);
    RenderNoNul(item, format, 0);
    p.UpdateOffset([], text);
    if * { return; }
    outOfMemory := false;
    printed := new byte[p.offset + 1];
    forall i | 0 <= i <= p.offset { printed[i] := if i < p.offset then p.buffer[i] else NUL; }
    assert printed[..p.offset] == p.buffer[..p.offset] == [] + text == text;
    assert printed[..] == printed[..p.offset] + [printed[p.offset]];
  }

  /** `cJSON_PrintBuffered`: the text and its NUL at the front of a buffer of its own. */
  method PrintBuffered(item: Json, prebuffer: int, format: bool, hasRealloc: bool)
    returns (printed: array?<byte>, ghost outOfMemory: bool)
    requires Printable(item) && prebuffer <= INT_MAX && (prebuffer == 0 ==> hasRealloc)
    ensures printed != null <==> prebuffer >= 0 && !outOfMemory && |Render(item, format, 0)| + 2 <= INT_MAX
    ensures printed != null ==> Render(item, format, 0) + [NUL] <= printed[..]
  {
    hide Render, Printable;
    printed, outOfMemory := null, true;
    if prebuffer < 0 { return; }
    if * { return; }
    var first := new byte[prebuffer];
    var p := new PrintBuffer(first, prebuffer, false, format, hasRealloc);
    var ok := p.PrintValue(item);
    outOfMemory := p.outOfMemory;
    if !ok { return; }
    ghost var text := Render(item, format, 0);
    printed := p.buffer;
    assert printed[..|text| + 1] == printed[..|text|] + [printed[|text|]];
    assert printed[..|text|] == [] + text == text;
  }
}
