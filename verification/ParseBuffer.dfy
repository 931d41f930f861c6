/**
 The parser as it runs: a cursor and a nesting depth that every routine moves, output
 buffers filled in place, and a heap whose allocations may fail at any moment. Each routine
 computes what its counterpart in `JsonParse` says, unless memory ran out, and a routine that
 fails leaves allocated exactly what was allocated before.
 */
module ParseBuffers {
  import opened Basics
  import opened JsonText
  import opened JsonParse
  import opened StringBound
  import opened Ownership

  function Prepend(t: seq<byte>, r: Parsed<seq<byte>>): Parsed<seq<byte>> {
    match r
    case Fail(e) => Fail(e)
    case Ok(rest, e) => Ok(t + rest, e)
  }

  /** What lies behind the terminator does not matter. */
  lemma {:induction false} CStringTerminated(t: seq<byte>, behind: seq<byte>)
    ensures CString(t + [NUL] + behind) == CString(t)
  {
    if t != [] && t[0] != NUL {
      assert (t + [NUL] + behind)[1..] == t[1..] + [NUL] + behind;
      CStringTerminated(t[1..], behind);
    }
  }

  lemma PrependNone(r: Parsed<seq<byte>>)
    ensures Prepend([], r) == r
  {
    if r.Ok? { assert [] + r.value == r.value; }
  }

  lemma PrependTwice(a: seq<byte>, b: seq<byte>, r: Parsed<seq<byte>>)
    ensures Prepend(a, Prepend(b, r)) == Prepend(a + b, r)
  {
    if r.Ok? { assert a + (b + r.value) == a + b + r.value; }
  }

  function ConcatItems(a: Items, b: Items): Items {
    match a
    case INil => b
    case ICons(v, tail) => ICons(v, ConcatItems(tail, b))
  }

  function ConcatMembers(a: Members, b: Members): Members {
    match a
    case MNil => b
    case MCons(k, v, rest) => MCons(k, v, ConcatMembers(rest, b))
  }

  function PrependItems(a: Items, r: Parsed<Items>): Parsed<Items> {
    match r
    case Fail(e) => Fail(e)
    case Ok(b, e) => Ok(ConcatItems(a, b), e)
  }

  function PrependMembers(a: Members, r: Parsed<Members>): Parsed<Members> {
    match r
    case Fail(e) => Fail(e)
    case Ok(b, e) => Ok(ConcatMembers(a, b), e)
  }

  lemma {:induction false} ItemsAppended(cells: Cells, c: Cell, b: Items)
    ensures ConcatItems(ToItems(Append(cells, c)), b) == ConcatItems(ToItems(cells), ICons(ToJson(c.body), b))
  {
    match cells
    case End =>
    case Link(d, next) => ItemsAppended(next, c, b);
  }

  lemma {:induction false} MembersAppended(cells: Cells, c: Cell, b: Members)
    ensures ConcatMembers(ToMembers(Append(cells, c)), b)
         == ConcatMembers(ToMembers(cells), MCons(KeyText(c), ToJson(c.body), b))
  {
    match cells
    case End =>
    case Link(d, next) => MembersAppended(next, c, b);
  }

  lemma {:induction false} ConcatNil(cells: Cells)
    ensures ConcatItems(ToItems(cells), INil) == ToItems(cells)
    ensures ConcatMembers(ToMembers(cells), MNil) == ToMembers(cells)
  {
    match cells
    case End =>
    case Link(d, next) => ConcatNil(next);
  }

  /** The elements from `p0` on are those in `head` and then what is found from `p` on. */
  ghost predicate ElementsSoFar(s: seq<byte>, p0: nat, head: Cells, p: nat, depth: nat)
    requires p0 < |s| && p < |s|
  {
    ParseElements(s, p0, depth) == PrependItems(ToItems(head), ParseElements(s, p, depth))
  }

  ghost predicate MembersSoFar(s: seq<byte>, p0: nat, head: Cells, p: nat, depth: nat)
    requires p0 < |s| && p < |s|
  {
    ParseMembers(s, p0, depth) == PrependMembers(ToMembers(head), ParseMembers(s, p, depth))
  }

  lemma NoneSoFar(s: seq<byte>, p: nat, depth: nat)
    requires p < |s|
    ensures ElementsSoFar(s, p, End, p, depth) && MembersSoFar(s, p, End, p, depth)
  {
  }

  lemma ElementRound(s: seq<byte>, p0: nat, head: Cells, p: nat, depth: nat, c: Cell)
    requires p0 < |s| && p < |s| && ElementsSoFar(s, p0, head, p, depth)
    ensures match ParseValue(s, SkipWs(s, p + 1), depth)
            case Fail(e) => ParseElements(s, p0, depth) == Fail(e)
            case Ok(v, q) =>
              var e := SkipWs(s, q);
              ToJson(c.body) == v ==>
                if ByteAt(s, e, ',') then ElementsSoFar(s, p0, Append(head, c), e, depth)
                else if ByteAt(s, e, ']') then ParseElements(s, p0, depth) == Ok(ToItems(Append(head, c)), e + 1)
                else ParseElements(s, p0, depth) == Fail(e)
  {
    hide ParseValue, SkipWs, Append, ToItems, ConcatItems, ToJson;
    var r := ParseValue(s, SkipWs(s, p + 1), depth);
    if r.Ok? && ToJson(c.body) == r.value {
      var e := SkipWs(s, r.pos);
      ConcatNil(Append(head, c));
      ItemsAppended(head, c, INil);
      if ByteAt(s, e, ',') {
        var tail := ParseElements(s, e, depth);
        if tail.Ok? { ItemsAppended(head, c, tail.value); }
      }
    }
  }

  lemma MemberFails(s: seq<byte>, p0: nat, head: Cells, p: nat, depth: nat)
    requires p0 < |s| && p < |s| && MembersSoFar(s, p0, head, p, depth)
    ensures p + 1 >= |s| ==> ParseMembers(s, p0, depth) == Fail(p)
    ensures p + 1 < |s| ==>
              match ParseString(s, SkipWs(s, p + 1))
              case Fail(e) => ParseMembers(s, p0, depth) == Fail(e)
              case Ok(key, k) =>
                var c := SkipWs(s, k);
                if !ByteAt(s, c, ':') then ParseMembers(s, p0, depth) == Fail(c)
                else
                  match ParseValue(s, SkipWs(s, c + 1), depth)
                  case Fail(e) => ParseMembers(s, p0, depth) == Fail(e)
                  case Ok(_, _) => true
  {
    hide ParseValue, ParseString, SkipWs, ToMembers;
  }

  lemma MemberRound(s: seq<byte>, p0: nat, head: Cells, p: nat, depth: nat, c: Cell)
    requires p0 < |s| && p + 1 < |s| && MembersSoFar(s, p0, head, p, depth)
    requires ParseString(s, SkipWs(s, p + 1)).Ok?
    requires ByteAt(s, SkipWs(s, ParseString(s, SkipWs(s, p + 1)).pos), ':')
    ensures var k := ParseString(s, SkipWs(s, p + 1));
            match ParseValue(s, SkipWs(s, SkipWs(s, k.pos) + 1), depth)
            case Fail(e) => true
            case Ok(v, q) =>
              var e := SkipWs(s, q);
              KeyText(c) == k.value && ToJson(c.body) == v ==>
                if ByteAt(s, e, ',') then MembersSoFar(s, p0, Append(head, c), e, depth)
                else if ByteAt(s, e, '}') then ParseMembers(s, p0, depth) == Ok(ToMembers(Append(head, c)), e + 1)
                else ParseMembers(s, p0, depth) == Fail(e)
  {
    hide ParseValue, ParseString, SkipWs, Append, ToMembers, ConcatMembers, ToJson, KeyText;
    var k := ParseString(s, SkipWs(s, p + 1));
    var r := ParseValue(s, SkipWs(s, SkipWs(s, k.pos) + 1), depth);
    if r.Ok? && ToJson(c.body) == r.value && KeyText(c) == k.value {
      var e := SkipWs(s, r.pos);
      ConcatNil(Append(head, c));
      MembersAppended(head, c, MNil);
      if ByteAt(s, e, ',') {
        var rest := ParseMembers(s, e, depth);
        if rest.Ok? { MembersAppended(head, c, rest.value); }
      }
    }
  }

  lemma EmptyChildren(isObject: bool)
    ensures OwnedBody(Children(isObject, End)) == multiset{}
    ensures ToJson(Children(false, End)) == Arr(INil) && ToJson(Children(true, End)) == Obj(MNil)
  {
  }

  /** A run that ends with `ok`, `v` and the cursor at `e` is as the specification `r` has it. */
  ghost predicate Outcome<T>(r: Parsed<T>, ok: bool, v: T, e: nat, outOfMemory: bool) {
    if ok then r == Ok(v, e) else outOfMemory || r == Fail(e)
  }

  class ParseBuffer {
    const content: seq<byte>
    const heap: Heap
    var offset: nat
    var depth: nat

    ghost predicate Valid()
      reads this, heap
    {
      heap.Valid() && offset <= |content|
    }

    constructor (content: seq<byte>, heap: Heap)
      requires heap.Valid()
      ensures Valid() && this.content == content && this.heap == heap && offset == 0 && depth == 0
    {
      this.content, this.heap, offset, depth := content, heap, 0, 0;
    }

    method SkipWhitespace()
      requires Valid()
      modifies `offset
      ensures Valid() && offset == SkipWs(content, old(offset))
    {
      if offset >= |content| { return; }
      while offset < |content| && content[offset] <= ' '
        invariant old(offset) <= offset <= |content|
        invariant WsEnd(content, offset) == WsEnd(content, old(offset))
      {
        offset := offset + 1;
      }
      if offset == |content| { offset := offset - 1; }
    }

    method SkipUtf8Bom()
      requires Valid() && offset == 0
      modifies `offset
      ensures Valid() && offset == SkipBom(content)
    {
      if offset + 4 < |content| && content[offset..offset + 3] == BOM { offset := offset + 3; }
    }

    method ParseNumber() returns (ok: bool, v: Scalar)
      requires Valid()
      modifies `offset, heap
      ensures Valid() && heap.live == old(heap.live)
      ensures heap.failures >= old(heap.failures)
      ensures ok ==> heap.failures == old(heap.failures)
      ensures Outcome(JsonParse.ParseNumber(content, old(offset)), ok, v, offset, heap.failures > old(heap.failures))
      ensures ok ==> OwnedBody(Leaf(v)) == multiset{}
    {
      hide Strtod, NumberValue;
      ok, v := false, Null;
      var i := offset;
      while i < |content| && IsNumberByte(content[i])
        invariant offset <= i <= |content|
        invariant NumberRun(content, i) == NumberRun(content, offset)
      {
        i := i + 1;
      }
      var copy := heap.Allocate();
      if copy.None? { return; }
      ghost var before := old(heap.live);
      Cancel(before, multiset{copy.value});
      var text: cstring := content[offset..i];
      var l := Strtod(text);
      heap.Free(copy.value);
      if l.NoLiteral? { return; }
      ok, v := true, NumberValue(text[..l.length], l);
      offset := offset + l.length;
    }

    // ---------- strings ----------

    /** `parse_hex4` */
    method ParseHex4(p: nat) returns (h: nat)
      requires p + 4 <= |content|
      ensures h == Hex4(content[p..p + 4])
    {
      h := 0;
      var t := content[p..p + 4];
      for i := 0 to 4
        invariant HexDigits(t[..i])
        invariant h == if i < 4 then 16 * HexNumber(t[..i]) else HexNumber(t)
      {
        var d := HexValue(content[p + i]);
        assert t[i] == content[p + i] && t[..i + 1][..i] == t[..i];
        if d.None? { return 0; }
        h := h + d.value;
        if i < 3 { h := 16 * h; } else { assert t[..4] == t; }
      }
      assert t[..4] == t;
    }

    /** The end of `utf16_literal_to_utf8`: the bytes are written from the last to the first. */
    method WriteUtf8(cp: nat, output: array<byte>, o: nat) returns (written: nat)
      requires o + |Utf8(cp)| <= output.Length
      modifies output
      ensures written == |Utf8(cp)|
      ensures output[..] == old(output[..o]) + Utf8(cp) + old(output[o + |Utf8(cp)|..])
    {
      var n := Utf8Length(cp);
      var mark := FirstByteMark(n);
      ghost var was := output[..];
      var rest := cp;
      var k := n - 1;
      while k > 0
        invariant 0 <= k < n
        invariant Utf8(cp) == Utf8Bytes(rest, k + 1, mark) + output[o + k + 1..o + n]
        invariant output[..o] == was[..o] && output[o + n..] == was[o + n..]
      {
        ghost var tail := output[o + k + 1..o + n];
        output[o + k] := Byte(0x80 + rest % 64);
        assert output[o + k..o + n] == [Byte(0x80 + rest % 64)] + tail;
        rest := rest / 64;
        k := k - 1;
      }
      ghost var tail := output[o + 1..o + n];
      output[o] := Byte((rest + mark) % 256);
      assert output[o..o + n] == [Byte((rest + mark) % 256)] + tail == Utf8(cp);
      assert output[..] == output[..o] + output[o..o + n] + output[o + n..];
      written := n;
    }

    /** `utf16_literal_to_utf8` reads one or two literals and writes their UTF-8. */
    method ConvertUtf16(p: nat, end: nat, output: array<byte>, o: nat) returns (length: nat, written: nat)
      requires p <= end <= |content|
      requires Utf16Literal(content, p, end).CodePoint? ==>
                 o + |Utf8(Utf16Literal(content, p, end).cp)| <= output.Length
      modifies output
      ensures Utf16Literal(content, p, end).Reject? ==> length == 0
      ensures Utf16Literal(content, p, end).CodePoint? ==>
                var r := Utf16Literal(content, p, end);
                && length == r.length && written == |Utf8(r.cp)|
                && output[..] == old(output[..o]) + Utf8(r.cp) + old(output[o + written..])
    {
      length, written := 0, 0;
      if end - p < 6 { return; }
      var first := ParseHex4(p + 2);
      if LowSurrogate(first) { return; }
      var cp, n := first, 6;
      if HighSurrogate(first) {
        if end - (p + 6) < 6 { return; }
        if content[p + 6] != '\\' || content[p + 7] != 'u' { return; }
        var second := ParseHex4(p + 8);
        if !LowSurrogate(second) { return; }
        cp, n := Combine(first, second), 12;
      }
      length := n;
      written := WriteUtf8(cp, output, o);
    }

    /** The first loop of `parse_string`. */
    method ScanLiteral() returns (ok: bool, end: nat, skipped: nat)
      requires Valid() && offset < |content|
      ensures ok <==> Scan(content, offset + 1).Some?
      ensures ok ==>
                Scan(content, offset + 1) == Some(end) && Units(content, offset + 1) == end - (offset + 1) - skipped
    {
      ok, end, skipped := false, offset + 1, 0;
      while end < |content| && content[end] != '\"'
        invariant offset + 1 <= end <= |content|
        invariant Scan(content, offset + 1) == Scan(content, end)
        invariant Scan(content, end).Some? ==>
                    Units(content, offset + 1) == end - (offset + 1) - skipped + Units(content, end)
      {
        if content[end] == '\\' {
          if end + 1 >= |content| { return; }
          skipped := skipped + 1;
          end := end + 1;
        }
        end := end + 1;
      }
      ok := end < |content|;
    }

    /** The second loop: `output` has room for every byte it writes, decodable literal or not. */
    method DecodeLiteral(start: nat, end: nat, output: array<byte>) returns (ok: bool, p: nat, o: nat)
      requires end < |content| && InStep(content, start, end) && Units(content, start) < output.Length
      modifies output
      ensures if ok then o <= Units(content, start) && Decode(content, start, end) == Ok(output[..o], p)
              else Decode(content, start, end) == Fail(p)
    {
      hide Scan, Units, Utf16Literal, Utf8;
      p, o := start, 0;
      ghost var between, units := false, Units(content, start);
      PrependNone(Decode(content, start, end));
      while p < end
        invariant p <= end + 1 && o <= units
        invariant p <= end ==> Reading(content, p, end, between)
        invariant p <= end ==> o + Allowance(content, p, end, between) <= units
        invariant Decode(content, start, end) == Prepend(output[..o], Decode(content, p, end))
        decreases end + 1 - p
      {
        ghost var was, room := output[..o], Allowance(content, p, end, between);
        ghost var next := false;
        ghost var step := DecodeStep(content, p, end);
        if step.Emit? {
          next := StepFits(content, p, end, between);
          PrependTwice(was, step.out, Decode(content, step.next, end));
        }
        var n := 1;
        if content[p] != '\\' {
          output[o] := content[p];
          p := p + 1;
        } else if content[p + 1] == 'u' {
          var length;
          length, n := ConvertUtf16(p, end, output, o);
          if length == 0 { ok := false; return; }
          p := p + length;
        } else {
          var c := Unescape(content[p + 1]);
          if c.None? { ok := false; return; }
          output[o] := c.value;
          p := p + 2;
        }
        assert output[..o + n] == was + step.out;
        o := o + n;
        between := next;
      }
      assert output[..o] + [] == output[..o];
      ok := true;
    }

    method ParseString() returns (ok: bool, buffer: Buffer)
      requires Valid() && offset < |content|
      modifies `offset, heap
      ensures Valid() && heap.failures >= old(heap.failures)
      ensures ok ==> heap.failures == old(heap.failures)
      ensures heap.live == if ok then old(heap.live) + multiset{buffer.at} else old(heap.live)
      ensures Outcome(JsonParse.ParseString(content, old(offset)), ok, buffer.text, offset,
                      heap.failures > old(heap.failures))
    {
      hide Scan, Units, Decode, DecodeStep, CString, Heap.Valid;
      ok, buffer := false, Buffer(0, []);
      if content[offset] != '\"' { offset := offset + 1; return; }
      var scanned, end, skipped := ScanLiteral();
      if !scanned { offset := offset + 1; return; }
      var allocationLength := end - offset - skipped;
      var block := heap.Allocate();
      if block.None? { offset := offset + 1; return; }
      Cancel(old(heap.live), multiset{block.value});
      var output := new byte[allocationLength + 1];
      var decoded, p, o := DecodeLiteral(offset + 1, end, output);
      if !decoded {
        heap.Free(block.value);
        offset := p;
        return;
      }
      assert o + 2 <= output.Length;   // the terminator fits, with a byte to spare
      ghost var text := output[..o];
      output[o] := NUL;
      assert output[..] == text + [NUL] + output[o + 1..];
      CStringTerminated(text, output[o + 1..]);
      ok, buffer := true, Buffer(block.value, CString(output[..]));
      offset := end + 1;
    }

    // ---------- values ----------

    method ParseValue() returns (ok: bool, body: Body)
      requires Valid()
      modifies this, heap
      ensures Valid() && (ok ==> depth == old(depth)) && heap.failures >= old(heap.failures)
      ensures ok ==> heap.failures == old(heap.failures)
      ensures heap.live == if ok then old(heap.live) + OwnedBody(body) else old(heap.live)
      ensures Outcome(JsonParse.ParseValue(content, old(offset), old(depth)), ok, ToJson(body), offset,
                      heap.failures > old(heap.failures))
      decreases |content| - offset, 4
    {
      hide JsonParse.ParseString, JsonParse.ParseNumber, JsonParse.ParseArray, JsonParse.ParseObject, At;
      ok, body := true, Nothing;
      if At(content, offset, "null") {
        body, offset := Leaf(Null), offset + 4;
      } else if At(content, offset, "false") {
        body, offset := Leaf(Bool(false)), offset + 5;
      } else if At(content, offset, "true") {
        body, offset := Leaf(Bool(true)), offset + 4;
      } else if offset < |content| && content[offset] == '\"' {
        var buffer;
        ok, buffer := ParseString();
        body := Text(false, buffer);
      } else if offset < |content| && (content[offset] == '-' || IsDigit(content[offset])) {
        var v;
        ok, v := ParseNumber();
        body := Leaf(v);
      } else if offset < |content| && content[offset] == '[' {
        ok, body := ParseArray();
      } else if offset < |content| && content[offset] == '{' {
        ok, body := ParseObject();
      } else {
        ok := false;
      }
    }

    method ParseArray() returns (ok: bool, body: Body)
      requires Valid() && offset < |content|
      requires content[offset] == '['
      modifies this, heap
      ensures Valid() && (ok ==> depth == old(depth)) && heap.failures >= old(heap.failures)
      ensures ok ==> heap.failures == old(heap.failures)
      ensures heap.live == if ok then old(heap.live) + OwnedBody(body) else old(heap.live)
      ensures Outcome(JsonParse.ParseArray(content, old(offset), old(depth)), ok, ToJson(body), offset,
                      heap.failures > old(heap.failures))
      decreases |content| - offset, 2
    {
      hide JsonParse.ParseValue, ParseElements, SkipWs, ElementsSoFar, Append, Owned, OwnedCells, OwnedBody, ToItems;
      ok, body := false, Nothing;
      if depth >= NESTING_LIMIT { return; }
      depth := depth + 1;
      offset := offset + 1;
      SkipWhitespace();
      if offset < |content| && content[offset] == ']' {
        depth := depth - 1;
        offset := offset + 1;
        body := Children(false, End);
        EmptyChildren(false);
        return true, body;
      }
      if offset >= |content| {
        offset := offset - 1;
        return;
      }
      offset := offset - 1;
      var head;
      ok, head := ParseElementList();
      if ok {
        depth := depth - 1;
        offset := offset + 1;
        body := Children(false, head);
        OwnedChildren(false, head);
      }
    }

    /** The loop of `parse_array`, up to the closing bracket. */
    method ParseElementList() returns (ok: bool, head: Cells)
      requires Valid() && offset < |content|
      modifies this, heap
      ensures Valid() && (ok ==> depth == old(depth) && offset < |content|)
      ensures heap.failures >= old(heap.failures)
      ensures ok ==> heap.failures == old(heap.failures)
      ensures heap.live == if ok then old(heap.live) + OwnedCells(head) else old(heap.live)
      ensures Outcome(ParseElements(content, old(offset), old(depth)), ok, ToItems(head),
                      if ok then offset + 1 else offset, heap.failures > old(heap.failures))
      decreases |content| - offset, 1
    {
      hide JsonParse.ParseValue, ParseElements, ElementsSoFar, ToItems, Holds, OwnedCells, Heap.Valid;
      head := End;
      HoldsNone(heap.live);
      NoneSoFar(content, offset, depth);
      while true
        invariant Valid() && old(offset) <= offset < |content| && depth == old(depth)
        invariant heap.failures == old(heap.failures)
        invariant Holds(heap.live, old(heap.live), head)
        invariant ElementsSoFar(content, old(offset), head, offset, depth)
        decreases |content| - offset
      {
        ok, head := ParseElement(head, old(offset), old(heap.live));
        if !ok { return; }
        if !ByteAt(content, offset, ',') { break; }
      }
      if !ByteAt(content, offset, ']') {
        heap.DeleteList(head, old(heap.live));
        return false, head;
      }
      HeldList(heap.live, old(heap.live), head);
    }

    /** One round of the loop. */
    method ParseElement(head: Cells, ghost p0: nat, ghost before: multiset<block>) returns (ok: bool, head': Cells)
      requires Valid() && p0 <= offset < |content|
      requires Holds(heap.live, before, head) && ElementsSoFar(content, p0, head, offset, depth)
      modifies this, heap
      ensures Valid() && heap.failures >= old(heap.failures)
      ensures ok ==> heap.failures == old(heap.failures)
      ensures ok ==> depth == old(depth) && offset > old(offset) && Holds(heap.live, before, head')
      ensures ok ==> if ByteAt(content, offset, ',') then ElementsSoFar(content, p0, head', offset, depth)
                     else if ByteAt(content, offset, ']')
                     then ParseElements(content, p0, depth) == Ok(ToItems(head'), offset + 1)
                     else ParseElements(content, p0, depth) == Fail(offset)
      ensures !ok ==>
                heap.live == before
                && (heap.failures > old(heap.failures) || ParseElements(content, p0, old(depth)) == Fail(offset))
      decreases |content| - offset, 0
    {
      hide JsonParse.ParseValue, ParseElements, SkipWs, ElementsSoFar, Append, ToItems, ToJson, Holds;
      hide Owned, OwnedCells, OwnedBody, Heap.Valid;
      ok, head' := false, head;
      ghost var p, d, live := offset, depth, heap.live;
      var item := heap.Allocate();
      if item.None? {
        heap.DeleteList(head, before);
        return;
      }
      offset := offset + 1;
      SkipWhitespace();
      var parsed, value := ParseValue();
      var c := Cell(item.value, false, false, None, if parsed then value else Nothing);
      ElementRound(content, p0, head, p, d, c);
      AppendNew(live, before, head, item.value, parsed, value);
      head' := Append(head, c);
      if !parsed {
        heap.DeleteList(head', before);
        return;
      }
      SkipWhitespace();
      ok := true;
    }

    method ParseObject() returns (ok: bool, body: Body)
      requires Valid() && offset < |content|
      requires content[offset] == '{'
      modifies this, heap
      ensures Valid() && (ok ==> depth == old(depth)) && heap.failures >= old(heap.failures)
      ensures ok ==> heap.failures == old(heap.failures)
      ensures heap.live == if ok then old(heap.live) + OwnedBody(body) else old(heap.live)
      ensures Outcome(JsonParse.ParseObject(content, old(offset), old(depth)), ok, ToJson(body), offset,
                      heap.failures > old(heap.failures))
      decreases |content| - offset, 3
    {
      hide ParseMembers, SkipWs, Owned, OwnedCells, OwnedBody, ToMembers;
      ok, body := false, Nothing;
      if depth >= NESTING_LIMIT { return; }
      depth := depth + 1;
      offset := offset + 1;
      SkipWhitespace();
      if offset < |content| && content[offset] == '}' {
        depth := depth - 1;
        offset := offset + 1;
        body := Children(true, End);
        EmptyChildren(true);
        return true, body;
      }
      if offset >= |content| {
        offset := offset - 1;
        return;
      }
      offset := offset - 1;
      var head;
      ok, head := ParseMemberList();
      if ok {
        depth := depth - 1;
        offset := offset + 1;
        body := Children(true, head);
        OwnedChildren(true, head);
      }
    }

    /** The loop of `parse_object`, up to the closing brace. */
    method ParseMemberList() returns (ok: bool, head: Cells)
      requires Valid() && offset < |content|
      modifies this, heap
      ensures Valid() && (ok ==> depth == old(depth) && offset < |content|)
      ensures heap.failures >= old(heap.failures)
      ensures ok ==> heap.failures == old(heap.failures)
      ensures heap.live == if ok then old(heap.live) + OwnedCells(head) else old(heap.live)
      ensures Outcome(ParseMembers(content, old(offset), old(depth)), ok, ToMembers(head),
                      if ok then offset + 1 else offset, heap.failures > old(heap.failures))
      decreases |content| - offset, 2
    {
      hide ParseMembers, MembersSoFar, ToMembers, Holds, OwnedCells, Heap.Valid;
      head := End;
      HoldsNone(heap.live);
      NoneSoFar(content, offset, depth);
      while true
        invariant Valid() && old(offset) <= offset < |content| && depth == old(depth)
        invariant heap.failures == old(heap.failures)
        invariant Holds(heap.live, old(heap.live), head)
        invariant MembersSoFar(content, old(offset), head, offset, depth)
        decreases |content| - offset
      {
        ok, head := ParseMember(head, old(offset), old(heap.live));
        if !ok { return; }
        if !ByteAt(content, offset, ',') { break; }
      }
      if !ByteAt(content, offset, '}') {
        heap.DeleteList(head, old(heap.live));
        return false, head;
      }
      HeldList(heap.live, old(heap.live), head);
    }

    /** One round of the loop. */
    method ParseMember(head: Cells, ghost p0: nat, ghost before: multiset<block>) returns (ok: bool, head': Cells)
      requires Valid() && p0 <= offset < |content|
      requires Holds(heap.live, before, head) && MembersSoFar(content, p0, head, offset, depth)
      modifies this, heap
      ensures Valid() && heap.failures >= old(heap.failures)
      ensures ok ==> heap.failures == old(heap.failures)
      ensures ok ==> depth == old(depth) && offset > old(offset) && Holds(heap.live, before, head')
      ensures ok ==> if ByteAt(content, offset, ',') then MembersSoFar(content, p0, head', offset, depth)
                     else if ByteAt(content, offset, '}')
                     then ParseMembers(content, p0, depth) == Ok(ToMembers(head'), offset + 1)
                     else ParseMembers(content, p0, depth) == Fail(offset)
      ensures !ok ==>
                heap.live == before
                && (heap.failures > old(heap.failures) || ParseMembers(content, p0, old(depth)) == Fail(offset))
      decreases |content| - offset, 1
    {
      hide JsonParse.ParseValue, JsonParse.ParseString, ParseMembers, SkipWs, MembersSoFar, Append, ToMembers, ToJson;
      hide Holds, Owned, OwnedCells, OwnedBody, Heap.Valid;
      ok, head' := false, head;
      ghost var p, d, live := offset, depth, heap.live;
      MemberFails(content, p0, head, p, d);
      var item := heap.Allocate();
      if item.None? {
        heap.DeleteList(head, before);
        return;
      }
      var filled, c := FillMember(item.value);
      AppendFilled(live, heap.live, before, head, c);
      head' := Append(head, c);
      if !filled {
        heap.DeleteList(head', before);
        return;
      }
      MemberRound(content, p0, head, p, d, c);
      SkipWhitespace();
      ok := true;
    }

    /** The key and the value of a new item; on failure it holds what was parsed until then. */
    method FillMember(at: block) returns (ok: bool, c: Cell)
      requires Valid() && offset < |content|
      modifies this, heap
      ensures Valid() && heap.failures >= old(heap.failures)
      ensures ok ==> heap.failures == old(heap.failures)
      ensures c.at == at && heap.live + multiset{at} == old(heap.live) + Owned(c)
      ensures ok ==> depth == old(depth) && offset > old(offset)
      ensures ok ==> old(offset) + 1 < |content|
      ensures ok ==>
                var k := JsonParse.ParseString(content, SkipWs(content, old(offset) + 1));
                && k == Ok(KeyText(c), k.pos) && ByteAt(content, SkipWs(content, k.pos), ':')
                && JsonParse.ParseValue(content, SkipWs(content, SkipWs(content, k.pos)
                   + 1), depth) == Ok(ToJson(c.body), offset)
      ensures !ok && heap.failures == old(heap.failures) ==>
                if old(offset) + 1 >= |content| then offset == old(offset)
                else
                  match JsonParse.ParseString(content, SkipWs(content, old(offset) + 1))
                  case Fail(e) => offset == e
                  case Ok(_, k) =>
                    var colon := SkipWs(content, k);
                    if !ByteAt(content, colon, ':') then offset == colon
                    else JsonParse.ParseValue(content, SkipWs(content, colon + 1), old(depth)) == Fail(offset)
      decreases |content| - offset, 0
    {
      hide JsonParse.ParseValue, JsonParse.ParseString, SkipWs, ToJson, Owned, OwnedBody, Heap.Valid;
      ok, c := false, Cell(at, false, false, None, Nothing);
      OwnedNew(at, None, Nothing);
      if offset + 1 >= |content| { return; }
      offset := offset + 1;
      SkipWhitespace();
      var named, key := ParseString();
      if !named { return; }
      c := Cell(at, false, false, Some(key), Nothing);
      OwnedNew(at, Some(key), Nothing);
      SkipWhitespace();
      if !ByteAt(content, offset, ':') { return; }
      offset := offset + 1;
      SkipWhitespace();
      var value;
      ok, value := ParseValue();
      if ok {
        c := Cell(at, false, false, Some(key), value);
        OwnedNew(at, Some(key), value);
      }
    }

    // ---------- entry point ----------

    /**
     `cJSON_ParseWithLengthOpts` on a fresh buffer. Unless memory runs out the result, the end
     of the parse and the error position are those of `JsonParse.Parse`; on failure every block
     allocated on the way has been freed again.
     */
    method ParseDocument(requireNul: bool) returns (root: Option<Cell>, position: nat)
      requires Valid() && offset == 0 && depth == 0
      modifies this, heap
      ensures Valid()
      ensures root.Some? ==> heap.failures == old(heap.failures)
      ensures root.Some? ==> heap.live == old(heap.live) + Owned(root.value)
                             && JsonParse.Parse(content, requireNul) == Ok(ToJson(root.value.body), position)
      ensures root.None? ==> heap.live == old(heap.live)
                             && (heap.failures > old(heap.failures)
                                 || JsonParse.Parse(content, requireNul) == Fail(position))
    {
      hide JsonParse.ParseValue, SkipWs, Holds, Owned, OwnedBody, OwnedCells;
      if |content| == 0 { return None, 0; }
      ghost var live := heap.live;
      HoldsNone(live);
      var item := heap.Allocate();
      if item.None? { return None, 0; }
      SkipUtf8Bom();
      SkipWhitespace();
      var parsed, body := ParseValue();
      var c := Cell(item.value, false, false, None, if parsed then body else Nothing);
      AppendNew(live, live, End, item.value, parsed, body);
      var done := parsed;
      position := offset;
      if parsed && requireNul {
        SkipWhitespace();
        done, position := ByteAt(content, offset, NUL), offset;
      }
      if done {
        HeldList(heap.live, live, Append(End, c));
        HeldOne(c);
        return Some(c), position;
      }
      heap.DeleteList(Append(End, c), live);
      return None, if offset < |content| then offset else |content| - 1;
    }
  }
}
