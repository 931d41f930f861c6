/**
 `cJSON_Compare`, and what it decides: two trees compare equal exactly when they denote the
 same value, objects being finite maps from (lower-cased) keys to values, and in both of them
 members with the same key agree.
 */
module Compare {
  import opened Basics
  import opened JsonText

  // ---------- keys ----------

  /** `tolower` in the C locale */
  function ToLower(c: byte): byte {
    if 'A' <= c <= 'Z' then (c as int + 32) as char else c
  }

  function Fold(key: seq<byte>, caseSensitive: bool): (r: seq<byte>)
    ensures |r| == |key|
  {
    if caseSensitive then key else seq(|key|, i requires 0 <= i < |key| => ToLower(key[i]))
  }

  /** `get_object_item`: the first member with that key. */
  function Find(members: Members, key: seq<byte>, caseSensitive: bool): (r: Option<Json>)
    ensures r.Some? ==> Size(r.value) < MembersSize(members)
  {
    match members
    case MNil => None
    case MCons(k, v, rest) =>
      if Fold(k, caseSensitive) == Fold(key, caseSensitive) then Some(v) else Find(rest, key, caseSensitive)
  }

  // ---------- the comparison as a function ----------

  const EPSILON: real := 1.0 / 4503599627370496.0

  function Abs(x: real): real { if x < 0.0 then -x else x }

  /** `compare_double`, in exact arithmetic */
  predicate CompareDouble(a: real, b: real) {
    Abs(a - b) <= (if Abs(a) > Abs(b) then Abs(a) else Abs(b)) * EPSILON
  }

  predicate CompareTrees(a: Json, b: Json, caseSensitive: bool)
    decreases Size(a) + Size(b)
  {
    match (a, b)
    case (Null, Null) => true
    case (Bool(x), Bool(y)) => x == y
    case (Num(x), Num(y)) => CompareDouble(x as real, y as real)
    case (Real(x), Real(y)) => x == y
    case (Str(x), Str(y)) => x == y
    case (Raw(x), Raw(y)) => x == y
    case (Arr(x), Arr(y)) => CompareItems(x, y, caseSensitive)
    case (Obj(x), Obj(y)) => CompareMembers(x, y, caseSensitive) && CompareMembers(y, x, caseSensitive)
    case _ => false
  }

  predicate CompareItems(a: Items, b: Items, caseSensitive: bool)
    decreases ItemsSize(a) + ItemsSize(b)
  {
    match (a, b)
    case (INil, INil) => true
    case (ICons(v, x), ICons(w, y)) => CompareTrees(v, w, caseSensitive) && CompareItems(x, y, caseSensitive)
    case _ => false
  }

  /** Every member of `a` has its like in `b`. */
  predicate CompareMembers(a: Members, b: Members, caseSensitive: bool)
    decreases MembersSize(a) + MembersSize(b)
  {
    match a
    case MNil => true
    case MCons(k, v, rest) =>
      var w := Find(b, k, caseSensitive);
      w.Some? && CompareTrees(v, w.value, caseSensitive) && CompareMembers(rest, b, caseSensitive)
  }

  /** What the answer allows for when equal items are one and the same. */
  predicate MayCompare(a: Json, b: Json, caseSensitive: bool)
    decreases Size(a) + Size(b)
  {
    a == b ||
    match (a, b)
    case (Num(x), Num(y)) => CompareDouble(x as real, y as real)
    case (Arr(x), Arr(y)) => MayCompareItems(x, y, caseSensitive)
    case (Obj(x), Obj(y)) => MayCompareMembers(x, y, caseSensitive) && MayCompareMembers(y, x, caseSensitive)
    case _ => false
  }

  predicate MayCompareItems(a: Items, b: Items, caseSensitive: bool)
    decreases ItemsSize(a) + ItemsSize(b)
  {
    match (a, b)
    case (INil, INil) => true
    case (ICons(v, x), ICons(w, y)) => MayCompare(v, w, caseSensitive) && MayCompareItems(x, y, caseSensitive)
    case _ => false
  }

  predicate MayCompareMembers(a: Members, b: Members, caseSensitive: bool)
    decreases MembersSize(a) + MembersSize(b)
  {
    match a
    case MNil => true
    case MCons(k, v, rest) =>
      var w := Find(b, k, caseSensitive);
      w.Some? && MayCompare(v, w.value, caseSensitive) && MayCompareMembers(rest, b, caseSensitive)
  }

  // ---------- as it runs ----------

  /** `case_insensitive_strcmp(...) == 0`, or `strcmp(...) == 0` */
  method KeysMatch(a: seq<byte>, b: seq<byte>, caseSensitive: bool) returns (r: bool)
    ensures r == (Fold(a, caseSensitive) == Fold(b, caseSensitive))
  {
    if caseSensitive { return a == b; }
    var i := 0;
    while i < |a| && i < |b| && ToLower(a[i]) == ToLower(b[i])
      invariant i <= |a| && i <= |b|
      invariant forall k :: 0 <= k < i ==> Fold(a, false)[k] == Fold(b, false)[k]
    {
      i := i + 1;
    }
    r := i == |a| && i == |b|;
    if i < |a| && i < |b| { assert Fold(a, false)[i] != Fold(b, false)[i]; }
  }

  method GetObjectItem(members: Members, name: seq<byte>, caseSensitive: bool) returns (item: Option<Json>)
    ensures item == Find(members, name, caseSensitive)
  {
    var current := members;
    while current.MCons?
      invariant Find(current, name, caseSensitive) == Find(members, name, caseSensitive)
      decreases current
    {
      var found := KeysMatch(current.key, name, caseSensitive);
      if found { return Some(current.val); }
      current := current.rest;
    }
    item := None;
  }

  /** `cJSON_Compare`: an item is equal to itself, whatever is in it. */
  method CompareIdentical(a: Json, b: Json, identical: bool, sharing: bool, caseSensitive: bool) returns (r: bool)
    requires identical ==> a == b
    ensures !sharing ==> r == (identical || CompareTrees(a, b, caseSensitive))
    ensures identical || CompareTrees(a, b, caseSensitive) ==> r
    ensures r ==> MayCompare(a, b, caseSensitive)
  {
    if identical { return true; }
    r := CompareRun(a, b, sharing, caseSensitive);
  }

  /** Two items that may, if `sharing`, have any equal items below them in common. */
  method CompareRun(a: Json, b: Json, sharing: bool, caseSensitive: bool) returns (r: bool)
    ensures !sharing ==> r == CompareTrees(a, b, caseSensitive)
    ensures CompareTrees(a, b, caseSensitive) ==> r
    ensures r ==> MayCompare(a, b, caseSensitive)
    decreases Size(a) + Size(b), 1
  {
    var identical := *;
    if sharing && a == b && identical { return true; }
    match (a, b)
    case (Null, Null) => r := true;
    case (Bool(x), Bool(y)) => r := x == y;
    case (Num(x), Num(y)) => r := CompareDouble(x as real, y as real);
    case (Real(x), Real(y)) => r := x == y;
    case (Str(x), Str(y)) => r := x == y;
    case (Raw(x), Raw(y)) => r := x == y;
    case (Arr(x), Arr(y)) =>
      var p, q := x, y;
      while p.ICons? && q.ICons?
        invariant !sharing ==> CompareItems(x, y, caseSensitive) == CompareItems(p, q, caseSensitive)
        invariant CompareItems(x, y, caseSensitive) ==> CompareItems(p, q, caseSensitive)
        invariant MayCompareItems(p, q, caseSensitive) ==> MayCompareItems(x, y, caseSensitive)
        invariant ItemsSize(p) + ItemsSize(q) < Size(a) + Size(b)
        decreases p
      {
        r := CompareRun(p.head, q.head, sharing, caseSensitive);
        if !r { return; }
        p, q := p.tail, q.tail;
      }
      r := p.INil? && q.INil?;
    case (Obj(x), Obj(y)) =>
      r := CompareMembersRun(x, y, sharing, caseSensitive);
      if !r { return; }
      r := CompareMembersRun(y, x, sharing, caseSensitive);
    case _ => r := false;
  }

  /** One of the two loops over the members. */
  method CompareMembersRun(a: Members, b: Members, sharing: bool, caseSensitive: bool) returns (r: bool)
    ensures !sharing ==> r == CompareMembers(a, b, caseSensitive)
    ensures CompareMembers(a, b, caseSensitive) ==> r
    ensures r ==> MayCompareMembers(a, b, caseSensitive)
    decreases MembersSize(a) + MembersSize(b) + 1, 0
  {
    var p := a;
    while p.MCons?
      invariant !sharing ==> CompareMembers(a, b, caseSensitive) == CompareMembers(p, b, caseSensitive)
      invariant CompareMembers(a, b, caseSensitive) ==> CompareMembers(p, b, caseSensitive)
      invariant MayCompareMembers(p, b, caseSensitive) ==> MayCompareMembers(a, b, caseSensitive)
      invariant MembersSize(p) <= MembersSize(a)
      decreases p
    {
      var w := GetObjectItem(b, p.key, caseSensitive);
      if w.None? { return false; }
      r := CompareRun(p.val, w.value, sharing, caseSensitive);
      if !r { return; }
      p := p.rest;
    }
    r := true;
  }

  // ---------- what matches ----------

  /** The two cases of one letter. */
  predicate SameLetter(x: byte, y: byte) {
    || ('A' <= x <= 'Z' && y as int == x as int + 32)
    || ('A' <= y <= 'Z' && x as int == y as int + 32)
  }

  lemma LettersFold(x: byte, y: byte)
    ensures ToLower(x) == ToLower(y) <==> x == y || SameLetter(x, y)
  {
  }

  /** Keys match when they are equal, but for the case of letters in the insensitive mode. */
  lemma KeysMatchByBytes(a: seq<byte>, b: seq<byte>)
    ensures Fold(a, true) == Fold(b, true) <==> a == b
    ensures Fold(a, false) == Fold(b, false) <==>
              |a| == |b| && forall i :: 0 <= i < |a| ==> a[i] == b[i] || SameLetter(a[i], b[i])
  {
    hide ToLower;
    if |a| == |b| {
      forall i | 0 <= i < |a|
        ensures Fold(a, false)[i] == Fold(b, false)[i] <==> a[i] == b[i] || SameLetter(a[i], b[i])
      {
        LettersFold(a[i], b[i]);
      }
    }
  }

  function Before(front: Members, rest: Members): Members {
    match front
    case MNil => rest
    case MCons(k, v, next) => MCons(k, v, Before(next, rest))
  }

  /** The first of the matching members is found, and none only where there is none. */
  lemma {:induction false} FindIsFirst(front: Members, k: cstring, v: Json, rest: Members, key: seq<byte>,
                                         caseSensitive: bool)
    requires Fold(key, caseSensitive) !in Keys(front, caseSensitive)
    ensures Find(front, key, caseSensitive) == None
    ensures Fold(k, caseSensitive) == Fold(key, caseSensitive) ==>
              Find(Before(front, MCons(k, v, rest)), key, caseSensitive) == Some(v)
    decreases front
  {
    hide Fold;
    match front
    case MNil =>
    case MCons(_, _, next) => FindIsFirst(next, k, v, rest, key, caseSensitive);
  }

  /** Doubles are equal up to one part in 2 to the 52 of the larger. */
  lemma EpsilonOfDouble(x: real, y: real)
    requires 0.0 < x <= y
    ensures CompareDouble(x, y) == CompareDouble(y, x) == CompareDouble(-x, -y)
         == (y - x <= y / 4503599627370496.0)
    ensures !CompareDouble(x, -y) && !CompareDouble(x, 0.0) && CompareDouble(0.0, 0.0)
  {
  }

  // ---------- denotations ----------

  datatype Value =
    | VNull
    | VBool(b: bool)
    | VNum(n: int)
    | VText(raw: bool, s: seq<byte>)
    | VArr(items: seq<Value>)
    | VObj(members: map<seq<byte>, Value>)

  predicate IntTree(v: Json) {
    match v
    case Real(_) => false
    case Arr(items) => IntItems(items)
    case Obj(members) => IntMembers(members)
    case _ => true
  }

  predicate IntItems(items: Items) {
    items.ICons? ==> IntTree(items.head) && IntItems(items.tail)
  }

  predicate IntMembers(members: Members) {
    members.MCons? ==> IntTree(members.val) && IntMembers(members.rest)
  }

  function Denote(v: Json, caseSensitive: bool): Value
    requires IntTree(v)
  {
    match v
    case Null => VNull
    case Bool(b) => VBool(b)
    case Num(n) => VNum(n)
    case Str(s) => VText(false, s)
    case Raw(s) => VText(true, s)
    case Arr(items) => VArr(DenoteItems(items, caseSensitive))
    case Obj(members) => VObj(DenoteMembers(members, caseSensitive))
  }

  function DenoteItems(items: Items, caseSensitive: bool): seq<Value>
    requires IntItems(items)
  {
    match items
    case INil => []
    case ICons(v, tail) => [Denote(v, caseSensitive)] + DenoteItems(tail, caseSensitive)
  }

  function DenoteMembers(members: Members, caseSensitive: bool): map<seq<byte>, Value>
    requires IntMembers(members)
  {
    match members
    case MNil => map[]
    case MCons(k, v, rest) => DenoteMembers(rest, caseSensitive)[Fold(k, caseSensitive) := Denote(v, caseSensitive)]
  }

  /** Wherever an object repeats a key, the members with that key denote the same. */
  predicate Consistent(v: Json, caseSensitive: bool)
    requires IntTree(v)
  {
    match v
    case Arr(items) => ConsistentItems(items, caseSensitive)
    case Obj(members) => Agree(members, DenoteMembers(members, caseSensitive), caseSensitive)
    case _ => true
  }

  predicate ConsistentItems(items: Items, caseSensitive: bool)
    requires IntItems(items)
  {
    items.ICons? ==> Consistent(items.head, caseSensitive) && ConsistentItems(items.tail, caseSensitive)
  }

  /** Every member is consistent, and denotes what `m` has under its key. */
  predicate Agree(members: Members, m: map<seq<byte>, Value>, caseSensitive: bool)
    requires IntMembers(members)
  {
    members.MCons? ==>
      var k := Fold(members.key, caseSensitive);
      && Consistent(members.val, caseSensitive)
      && k in m && m[k] == Denote(members.val, caseSensitive)
      && Agree(members.rest, m, caseSensitive)
  }

  function Keys(members: Members, caseSensitive: bool): set<seq<byte>> {
    match members
    case MNil => {}
    case MCons(k, _, rest) => {Fold(k, caseSensitive)} + Keys(rest, caseSensitive)
  }

  /** No object anywhere has two members whose keys agree. */
  predicate DistinctKeys(v: Json, caseSensitive: bool) {
    match v
    case Arr(items) => DistinctInItems(items, caseSensitive)
    case Obj(members) => DistinctInMembers(members, caseSensitive)
    case _ => true
  }

  predicate DistinctInItems(items: Items, caseSensitive: bool) {
    items.ICons? ==> DistinctKeys(items.head, caseSensitive) && DistinctInItems(items.tail, caseSensitive)
  }

  predicate DistinctInMembers(members: Members, caseSensitive: bool) {
    members.MCons? ==>
      && Fold(members.key, caseSensitive) !in Keys(members.rest, caseSensitive)
      && DistinctKeys(members.val, caseSensitive) && DistinctInMembers(members.rest, caseSensitive)
  }

  // ---------- what the comparison decides ----------

  lemma IntsCompare(x: int32, y: int32)
    ensures CompareDouble(x as real, y as real) <==> x == y
  {
    if x != y { assert Abs(x as real - y as real) >= 1.0; }
  }

  lemma {:induction false} FindDenotes(members: Members, key: seq<byte>, caseSensitive: bool)
    requires IntMembers(members)
    ensures var r := Find(members, key, caseSensitive);
            var m := DenoteMembers(members, caseSensitive);
            if r.Some? then IntTree(r.value) && Fold(key, caseSensitive) in m
                            && m[Fold(key, caseSensitive)] == Denote(r.value, caseSensitive)
            else Fold(key, caseSensitive) !in m
  {
    match members
    case MNil =>
    case MCons(k, v, rest) => FindDenotes(rest, key, caseSensitive);
  }

  lemma {:induction false} KeysDenoted(members: Members, caseSensitive: bool)
    requires IntMembers(members)
    ensures DenoteMembers(members, caseSensitive).Keys == Keys(members, caseSensitive)
  {
    match members
    case MNil =>
    case MCons(k, v, rest) => KeysDenoted(rest, caseSensitive);
  }

  lemma {:induction false} FindAgrees(members: Members, m: map<seq<byte>, Value>, key: seq<byte>, caseSensitive: bool)
    requires IntMembers(members) && Agree(members, m, caseSensitive) && Find(members, key, caseSensitive).Some?
    ensures var v := Find(members, key, caseSensitive).value; IntTree(v) && Consistent(v, caseSensitive)
  {
    if Fold(members.key, caseSensitive) != Fold(key, caseSensitive) {
      FindAgrees(members.rest, m, key, caseSensitive);
    }
  }

  /** Two trees of integers compare equal if and only if they are consistent and denote the same. */
  lemma {:induction false} CompareDecides(a: Json, b: Json, caseSensitive: bool)
    requires IntTree(a) && IntTree(b)
    ensures CompareTrees(a, b, caseSensitive)
       <==> Consistent(a, caseSensitive) && Consistent(b, caseSensitive)
            && Denote(a, caseSensitive) == Denote(b, caseSensitive)
    decreases Size(a) + Size(b)
  {
    match (a, b)
    case (Num(x), Num(y)) => IntsCompare(x, y);
    case (Arr(x), Arr(y)) => ItemsDecide(x, y, caseSensitive);
    case (Obj(x), Obj(y)) =>
      var m, n := DenoteMembers(x, caseSensitive), DenoteMembers(y, caseSensitive);
      MembersDecide(x, y, caseSensitive);
      MembersDecide(y, x, caseSensitive);
      if Agree(x, n, caseSensitive) && Agree(y, m, caseSensitive) {
        AgreeIncludes(x, n, caseSensitive);
        AgreeIncludes(y, m, caseSensitive);
        IncludedBothWays(m, n);
      }
    case _ =>
  }

  lemma {:induction false} ItemsDecide(a: Items, b: Items, caseSensitive: bool)
    requires IntItems(a) && IntItems(b)
    ensures CompareItems(a, b, caseSensitive)
       <==> ConsistentItems(a, caseSensitive) && ConsistentItems(b, caseSensitive)
            && DenoteItems(a, caseSensitive) == DenoteItems(b, caseSensitive)
    decreases ItemsSize(a) + ItemsSize(b)
  {
    match (a, b)
    case (ICons(v, x), ICons(w, y)) =>
      CompareDecides(v, w, caseSensitive);
      ItemsDecide(x, y, caseSensitive);
      var s, t := DenoteItems(x, caseSensitive), DenoteItems(y, caseSensitive);
      ConsEqual(Denote(v, caseSensitive), s, Denote(w, caseSensitive), t);
    case _ =>
  }

  lemma ConsEqual(x: Value, s: seq<Value>, y: Value, t: seq<Value>)
    ensures [x] + s == [y] + t <==> x == y && s == t
  {
    assert ([x] + s)[0] == x && ([x] + s)[1..] == s && ([y] + t)[0] == y && ([y] + t)[1..] == t;
  }

  /** One of the two loops over the members. */
  lemma {:induction false} MembersDecide(a: Members, b: Members, caseSensitive: bool)
    requires IntMembers(a) && IntMembers(b)
    ensures CompareMembers(a, b, caseSensitive) ==> Agree(a, DenoteMembers(b, caseSensitive), caseSensitive)
    ensures Agree(a, DenoteMembers(b, caseSensitive), caseSensitive) && (exists m :: Agree(b, m, caseSensitive)) ==>
              CompareMembers(a, b, caseSensitive)
    decreases MembersSize(a) + MembersSize(b)
  {
    match a
    case MNil =>
    case MCons(k, v, rest) =>
      FindDenotes(b, k, caseSensitive);
      MembersDecide(rest, b, caseSensitive);
      var w := Find(b, k, caseSensitive);
      if w.Some? {
        CompareDecides(v, w.value, caseSensitive);
        if m :| Agree(b, m, caseSensitive) { FindAgrees(b, m, k, caseSensitive); }
      }
  }

  ghost predicate Included(m: map<seq<byte>, Value>, n: map<seq<byte>, Value>) {
    forall k :: k in m ==> k in n && m[k] == n[k]
  }

  lemma IncludedBothWays(m: map<seq<byte>, Value>, n: map<seq<byte>, Value>)
    ensures m == n <==> Included(m, n) && Included(n, m)
  {
  }

  lemma {:induction false} AgreeIncludes(members: Members, n: map<seq<byte>, Value>, caseSensitive: bool)
    requires IntMembers(members) && Agree(members, n, caseSensitive)
    ensures Included(DenoteMembers(members, caseSensitive), n)
  {
    match members
    case MNil =>
    case MCons(k, v, rest) => AgreeIncludes(rest, n, caseSensitive);
  }

  /** Whatever the trees share: if they compare equal, they denote the same. */
  lemma {:induction false} MayCompareDenotes(a: Json, b: Json, caseSensitive: bool)
    requires IntTree(a) && IntTree(b) && MayCompare(a, b, caseSensitive)
    ensures Denote(a, caseSensitive) == Denote(b, caseSensitive)
    decreases Size(a) + Size(b)
  {
    match (a, b)
    case (Num(x), Num(y)) => IntsCompare(x, y);
    case (Arr(x), Arr(y)) => if a != b { MayCompareItemsDenote(x, y, caseSensitive); }
    case (Obj(x), Obj(y)) =>
      if a != b {
        var m, n := DenoteMembers(x, caseSensitive), DenoteMembers(y, caseSensitive);
        MayCompareMembersDenote(x, y, caseSensitive);
        MayCompareMembersDenote(y, x, caseSensitive);
        IncludedBothWays(m, n);
      }
    case _ =>
  }

  lemma {:induction false} MayCompareItemsDenote(a: Items, b: Items, caseSensitive: bool)
    requires IntItems(a) && IntItems(b) && MayCompareItems(a, b, caseSensitive)
    ensures DenoteItems(a, caseSensitive) == DenoteItems(b, caseSensitive)
    decreases ItemsSize(a) + ItemsSize(b)
  {
    match (a, b)
    case (ICons(v, x), ICons(w, y)) =>
      MayCompareDenotes(v, w, caseSensitive);
      MayCompareItemsDenote(x, y, caseSensitive);
    case _ =>
  }

  lemma {:induction false} MayCompareMembersDenote(a: Members, b: Members, caseSensitive: bool)
    requires IntMembers(a) && IntMembers(b) && MayCompareMembers(a, b, caseSensitive)
    ensures Included(DenoteMembers(a, caseSensitive), DenoteMembers(b, caseSensitive))
    decreases MembersSize(a) + MembersSize(b)
  {
    match a
    case MNil =>
    case MCons(k, v, rest) =>
      FindDenotes(b, k, caseSensitive);
      MayCompareDenotes(v, Find(b, k, caseSensitive).value, caseSensitive);
      MayCompareMembersDenote(rest, b, caseSensitive);
  }

  /** So it is symmetric and transitive, and reflexive exactly on consistent trees. */
  lemma CompareIsPartialEquivalence(a: Json, b: Json, c: Json, caseSensitive: bool)
    requires IntTree(a) && IntTree(b) && IntTree(c)
    ensures CompareTrees(a, a, caseSensitive) <==> Consistent(a, caseSensitive)
    ensures CompareTrees(a, b, caseSensitive) ==> CompareTrees(b, a, caseSensitive)
    ensures CompareTrees(a, b, caseSensitive) && CompareTrees(b, c, caseSensitive) ==> CompareTrees(a, c, caseSensitive)
  {
    CompareDecides(a, a, caseSensitive);
    CompareDecides(a, b, caseSensitive);
    CompareDecides(b, a, caseSensitive);
    CompareDecides(b, c, caseSensitive);
    CompareDecides(a, c, caseSensitive);
  }

  /** Distinct keys are more than enough for that. */
  lemma {:induction false} DistinctIsConsistent(v: Json, caseSensitive: bool)
    requires IntTree(v) && DistinctKeys(v, caseSensitive)
    ensures Consistent(v, caseSensitive)
  {
    match v
    case Arr(items) => DistinctItemsAreConsistent(items, caseSensitive);
    case Obj(members) => DistinctMembersAgree(members, DenoteMembers(members, caseSensitive), caseSensitive);
    case _ =>
  }

  lemma {:induction false} DistinctItemsAreConsistent(items: Items, caseSensitive: bool)
    requires IntItems(items) && DistinctInItems(items, caseSensitive)
    ensures ConsistentItems(items, caseSensitive)
  {
    match items
    case INil =>
    case ICons(v, tail) =>
      DistinctIsConsistent(v, caseSensitive);
      DistinctItemsAreConsistent(tail, caseSensitive);
  }

  lemma {:induction false} DistinctMembersAgree(members: Members, m: map<seq<byte>, Value>, caseSensitive: bool)
    requires IntMembers(members) && DistinctInMembers(members, caseSensitive)
    requires Included(DenoteMembers(members, caseSensitive), m)
    ensures Agree(members, m, caseSensitive)
  {
    match members
    case MNil =>
    case MCons(k, v, rest) =>
      KeysDenoted(rest, caseSensitive);
      var d := DenoteMembers(rest, caseSensitive);
      var key := Fold(k, caseSensitive);
      assert key in d[key := Denote(v, caseSensitive)];
      assert Included(d, m) by {
        forall j | j in d ensures j in m && d[j] == m[j] { assert j in d[key := Denote(v, caseSensitive)]; }
      }
      DistinctIsConsistent(v, caseSensitive);
      DistinctMembersAgree(rest, m, caseSensitive);
  }

  /** An object with members "k": null and "k": true is unlike a copy of it, which is another item. */
  lemma DuplicateKeysCompareUnequal(key: cstring, caseSensitive: bool)
    ensures var v := Obj(MCons(key, Null, MCons(key, Bool(true), MNil)));
            IntTree(v) && !CompareTrees(v, v, caseSensitive)
  {
    hide Fold;
    var rest := MCons(key, Bool(true), MNil);
    var members := MCons(key, Null, rest);
    assert IntMembers(members) by { assert IntMembers(rest); }
    var k, m := Fold(key, caseSensitive), DenoteMembers(members, caseSensitive);
    assert m == DenoteMembers(rest, caseSensitive)[k := Denote(Null, caseSensitive)] && m[k] == VNull;
    assert Denote(Bool(true), caseSensitive) == VBool(true);
    assert !Agree(rest, m, caseSensitive);
    assert !Consistent(Obj(members), caseSensitive);
    CompareDecides(Obj(members), Obj(members), caseSensitive);
  }
}
