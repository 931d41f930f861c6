/**
 A node's neighbours: their distances from a file's hash, the sort by distance, and the
 choice of the one neighbour a query is sent on to.
 */
module Neighbours {
  import opened Basics
  import opened Bits
  import opened Peers

  const ID_SIZE: nat := 36

  datatype Address = Address(ip: seq<byte>, port: nat)

  datatype Neighbour = Neighbour(id: seq<byte>, at: Address, distance: nat)

  const UINT32: nat := 0x1_0000_0000

  // ---------- the distance ----------

  /** The sum of the bytes' exclusive ors, as `XORdistance` adds it up. */
  function Distance(hash: seq<byte>, id: seq<byte>): nat
    requires |hash| <= |id|
  {
    if hash == [] then 0
    else Distance(hash[..|hash| - 1], id) + Xor(Widen(hash[|hash| - 1]), Widen(id[|hash| - 1]))
  }

  lemma {:induction false} XorTriangle(a: nat, b: nat, c: nat)
    ensures Xor(a, c) <= Xor(a, b) + Xor(b, c)
    decreases a + b + c
  {
    hide Xor;
    XorUnfolds(a, a);
    if a == 0 && b == 0 && c == 0 {
    } else {
      XorTriangle(a / 2, b / 2, c / 2);
      XorUnfolds(a, b);
      XorUnfolds(b, c);
      XorUnfolds(a, c);
    }
  }

  /** On hashes and ids of one length the sum itself is a metric. */
  lemma {:induction false} SumIsMetric(a: seq<byte>, b: seq<byte>, c: seq<byte>)
    requires |a| == |b| == |c|
    requires forall i :: 0 <= i < |a| ==> a[i] as int < 0x100 && b[i] as int < 0x100
    ensures Distance(a, c) <= Distance(a, b) + Distance(b, c)
    ensures Distance(a, b) == Distance(b, a)
    ensures Distance(a, b) == 0 <==> a == b
    decreases |a|
  {
    hide Xor, Distance, Widen;
    if a == [] {
      DistanceOfNone(a, b);
      DistanceOfNone(a, c);
      DistanceOfNone(b, a);
      DistanceOfNone(b, c);
    } else {
      var n := |a| - 1;
      SumIsMetric(a[..n], b[..n], c[..n]);
      DistanceLast(a, b);
      DistanceLast(b, a);
      DistanceLast(a, c);
      DistanceLast(b, c);
      XorTriangle(Widen(a[n]), Widen(b[n]), Widen(c[n]));
      XorSymmetric(Widen(a[n]), Widen(b[n]));
      XorZero(Widen(a[n]), Widen(b[n]));
      WidenInjective(a[n], b[n]);
      assert a == b <==> a[..n] == b[..n] && a[n] == b[n] by {
        assert a == a[..n] + [a[n]] && b == b[..n] + [b[n]];
      }
    }
  }

  lemma WidenInjective(c: byte, d: byte)
    requires c as int < 0x100 && d as int < 0x100
    ensures Widen(c) == Widen(d) <==> c == d
  {
  }

  lemma DistanceOfNone(a: seq<byte>, b: seq<byte>)
    requires a == [] && b == []
    ensures Distance(a, b) == 0
  {
  }

  lemma DistanceLast(a: seq<byte>, b: seq<byte>)
    requires |a| == |b| > 0
    ensures Distance(a, b) == Distance(a[..|a| - 1], b[..|a| - 1]) + Xor(Widen(a[|a| - 1]), Widen(b[|a| - 1]))
  {
    hide Xor, Widen;
    DistancePrefix(a[..|a| - 1], b, |a| - 1);
  }

  lemma {:induction false} DistancePrefix(hash: seq<byte>, id: seq<byte>, n: nat)
    requires |hash| <= n <= |id|
    ensures Distance(hash, id[..n]) == Distance(hash, id)
    decreases |hash|
  {
    if hash == [] {
    } else {
      DistancePrefix(hash[..|hash| - 1], id, n);
    }
  }

  // ---------- the distance in 32 bits ----------

  /** What `distance` holds afterwards, having been zero. */
  function Distance32(a: seq<byte>, b: seq<byte>): (d: nat)
    requires |a| <= |b|
    ensures d < UINT32
  {
    Distance(a, b) % UINT32
  }

  predicate Negative(c: byte) { c as int % 0x100 >= 0x80 }

  /** In how many places exactly one of the two bytes is negative as a `char`. */
  function Signs(a: seq<byte>, b: seq<byte>): (n: nat)
    requires |a| == |b|
    ensures n <= |a|
  {
    if a == [] then 0
    else
      var k := |a| - 1;
      Signs(a[..k], b[..k]) + if Negative(a[k]) != Negative(b[k]) then 1 else 0
  }

  /** The distance of the low seven bits. */
  function Low(a: seq<byte>, b: seq<byte>): nat
    requires |a| == |b|
  {
    if a == [] then 0
    else
      var k := |a| - 1;
      Low(a[..k], b[..k]) + Xor(a[k] as int % 0x80, b[k] as int % 0x80)
  }

  /** What a caller can check: the sum stays below 2 to the 32. */
  predicate NoWrap(a: seq<byte>, b: seq<byte>)
    requires |a| == |b|
  {
    Signs(a, b) == 0 || (Signs(a, b) == 1 && Low(a, b) < 0x80)
  }

  /** The upper 25 bits of a widened `char`. */
  function Sign(c: byte): nat { if Negative(c) then 0x1FF_FFFF else 0 }

  lemma SignAndLow(c: byte)
    ensures Widen(c) == 0x80 * Sign(c) + c as int % 0x80
    ensures Sign(c) == if Negative(c) then 0x1FF_FFFF else 0
  {
  }

  lemma Pow2Of7()
    ensures Pow2(7) == 0x80
  {
    assert Pow2(3) == 8;
    assert Pow2(5) == 32;
  }

  lemma XorWidened(c: byte, d: byte)
    ensures Xor(Widen(c), Widen(d))
         == Xor(c as int % 0x80, d as int % 0x80) + if Negative(c) != Negative(d) then UINT32 - 0x80 else 0
  {
    hide Xor, Widen, Pow2, Negative;
    var x, y := c as int % 0x80, d as int % 0x80;
    var h, g := Sign(c), Sign(d);
    SignAndLow(c);
    SignAndLow(d);
    Pow2Of7();
    XorParts(7, h, x, g, y);
    XorNone(0x1FF_FFFF);
    XorZero(h, g);
  }

  lemma {:induction false} XorAtMost(a: nat, b: nat)
    ensures Xor(a, b) <= a + b
    decreases a + b
  {
    if a != 0 || b != 0 { XorAtMost(a / 2, b / 2); }
  }

  lemma {:induction false} DistanceSplits(a: seq<byte>, b: seq<byte>)
    requires |a| == |b|
    ensures Distance(a, b) == Low(a, b) + Signs(a, b) * (UINT32 - 0x80)
    ensures Low(a, b) <= 0xFE * |a|
    decreases |a|
  {
    hide Xor, Widen, Distance, Negative;
    if a == [] {
      DistanceOfNone(a, b);
    } else {
      var k := |a| - 1;
      DistanceSplits(a[..k], b[..k]);
      DistanceLast(a, b);
      XorWidened(a[k], b[k]);
      XorAtMost(a[k] as int % 0x80, b[k] as int % 0x80);
      var s, w := Signs(a[..k], b[..k]), UINT32 - 0x80;
      assert (s + 1) * w == s * w + w;
    }
  }

  /** Exactly when the sum wraps around. */
  lemma WrapsUnless(a: seq<byte>, b: seq<byte>)
    requires |a| == |b| <= ID_SIZE
    ensures NoWrap(a, b) <==> Distance(a, b) < UINT32
    ensures NoWrap(a, b) <==> Distance32(a, b) == Distance(a, b)
  {
    hide Distance, Low, Signs;
    DistanceSplits(a, b);
    var s, w := Signs(a, b), UINT32 - 0x80;
    if s >= 2 { assert s * w >= 2 * w; }
  }

  /** What the sum comes to, but for multiples of 2 to the 32. */
  function Rest(a: seq<byte>, b: seq<byte>): int
    requires |a| == |b|
  {
    Low(a, b) - 0x80 * Signs(a, b)
  }

  /** Whether that is below zero, so that the 32-bit distance is close to 2 to the 32. */
  function Under(a: seq<byte>, b: seq<byte>): nat
    requires |a| == |b|
  {
    if Rest(a, b) < 0 then 1 else 0
  }

  lemma DistanceIsRest(a: seq<byte>, b: seq<byte>)
    requires |a| == |b| <= ID_SIZE
    ensures Distance32(a, b) == Rest(a, b) + Under(a, b) * UINT32
    ensures -0x1200 <= Rest(a, b) <= 0x23B8
  {
    hide Distance, Low, Signs;
    DistanceSplits(a, b);
    var s, r := Signs(a, b), Rest(a, b);
    assert s * (UINT32 - 0x80) == s * UINT32 - s * 0x80;
    assert Distance(a, b) == s * UINT32 + r;
    Multiples(s, r);
  }

  lemma Multiples(s: nat, r: int)
    requires r < UINT32 && r + UINT32 > 0 && 0 <= s * UINT32 + r
    ensures (s * UINT32 + r) % UINT32 == if r >= 0 then r else r + UINT32
  {
    if r >= 0 {
      assert (s * UINT32 + r) % UINT32 == r;
    } else {
      assert s * UINT32 + r == (s - 1) * UINT32 + (r + UINT32);
      assert (s * UINT32 + r) % UINT32 == r + UINT32;
    }
  }

  /** What a caller can compute from the bytes: the triangle inequality of the 32-bit distance. */
  predicate Triangle(a: seq<byte>, b: seq<byte>, c: seq<byte>)
    requires |a| == |b| == |c|
  {
    var direct, around := Under(a, c), Under(a, b) + Under(b, c);
    direct < around || (direct == around && Rest(a, c) <= Rest(a, b) + Rest(b, c))
  }

  /**
   The 32-bit distance of hashes and ids of one length: symmetric always; zero between equals,
   and between others exactly where the signs make up for the rest; and the triangle inequality
   exactly as `Triangle` says, as it always does where the two sums on the right do not wrap. So
   plain text has a metric.
   */
  lemma DistanceIsMetric(a: seq<byte>, b: seq<byte>, c: seq<byte>)
    requires |a| == |b| == |c| <= ID_SIZE
    requires forall i :: 0 <= i < |a| ==> a[i] as int < 0x100 && b[i] as int < 0x100
    ensures Distance32(a, b) == Distance32(b, a)
    ensures Distance32(a, b) == 0 <==> a == b || (Signs(a, b) > 0 && Low(a, b) == 0x80 * Signs(a, b))
    ensures NoWrap(a, b) ==> (Distance32(a, b) == 0 <==> a == b)
    ensures Distance32(a, c) <= Distance32(a, b) + Distance32(b, c) <==> Triangle(a, b, c)
    ensures NoWrap(a, b) && NoWrap(b, c) ==> Triangle(a, b, c)
    ensures Ascii(a) && Ascii(b) ==> NoWrap(a, b)
  {
    hide Distance, Low, Signs, Ascii;
    SumIsMetric(a, b, c);
    WrapsUnless(a, b);
    WrapsUnless(b, c);
    DistanceSplits(a, b);
    DistanceIsRest(a, b);
    DistanceIsRest(b, c);
    DistanceIsRest(a, c);
    Modulo(Distance(a, c));
    if Ascii(a) && Ascii(b) { AsciiSigns(a, b); }
  }

  lemma Modulo(d: nat)
    ensures d % UINT32 <= d
  {
  }

  predicate Ascii(s: seq<byte>) { forall i :: 0 <= i < |s| ==> s[i] as int < 0x80 }

  lemma {:induction false} AsciiSigns(a: seq<byte>, b: seq<byte>)
    requires |a| == |b| && Ascii(a) && Ascii(b)
    ensures Signs(a, b) == 0
    decreases |a|
  {
    if a == [] {
    } else {
      AsciiSigns(a[..|a| - 1], b[..|a| - 1]);
    }
  }

  /** Texts with bytes from 0x80 on: two at distance zero, and a triangle that is none. */
  lemma DistanceWraps() returns (a: seq<byte>, b: seq<byte>, c: seq<byte>)
    ensures |a| == |b| == |c| && '\0' !in a + b + c && a != b && Distance32(a, b) == 0
    ensures Distance32(a, c) > Distance32(a, b) + Distance32(b, c)
  {
    hide Xor, Distance;
    a, b, c := [0xFF as char, 3 as char], [1 as char, 1 as char], [1 as char, 3 as char];
    SmallXors();
    TwoBytes(a, b);
    TwoBytes(b, c);
    TwoBytes(a, c);
  }

  lemma SmallXors()
    ensures Xor(0x7F, 1) == 0x7E && Xor(3, 1) == 2 && Xor(1, 3) == 2 && Xor(1, 1) == 0 && Xor(3, 3) == 0
  {
    hide Xor;
    XorNone(0x3F);
    XorNone(1);
    XorUnfolds(0x7F, 1);
    XorUnfolds(3, 1);
    XorUnfolds(1, 3);
    XorZero(1, 1);
    XorZero(3, 3);
    XorZero(0, 0);
  }

  lemma TwoBytes(a: seq<byte>, b: seq<byte>)
    requires |a| == |b| == 2
    ensures Distance(a, b) == Low(a, b) + Signs(a, b) * (UINT32 - 0x80)
    ensures Low(a, b) == Xor(a[0] as int % 0x80, b[0] as int % 0x80) + Xor(a[1] as int % 0x80, b[1] as int % 0x80)
    ensures Signs(a, b)
         == (if Negative(a[0]) != Negative(b[0]) then 1 else 0) + (if Negative(a[1]) != Negative(b[1]) then 1 else 0)
  {
    hide Xor, Distance, Negative;
    DistanceSplits(a, b);
    var x, y := a[..1], b[..1];
    assert x[..0] == [] && y[..0] == [] && x[0] == a[0] && y[0] == b[0];
    assert Low(x, y) == Xor(a[0] as int % 0x80, b[0] as int % 0x80);
    assert Signs(x, y) == if Negative(a[0]) != Negative(b[0]) then 1 else 0;
  }

  /** A neighbour after `XORdistance`: the sum is added to what `distance` holds, in 32 bits. */
  function Measured(n: Neighbour, hash: seq<byte>): Neighbour
    requires |hash| <= |n.id|
  {
    n.(distance := (n.distance + Distance(hash, n.id)) % UINT32)
  }

  /** Measuring adds to what there is: sorting a second time does not start anew. */
  lemma MeasuringAdds(n: Neighbour, hash: seq<byte>)
    requires |hash| <= |n.id| && n.distance < UINT32
    ensures var once := Measured(n, hash);
            && once.id == n.id && once.at == n.at
            && once.distance == (n.distance + Distance32(hash, n.id)) % UINT32
            && Measured(once, hash).distance == (n.distance + 2 * Distance32(hash, n.id)) % UINT32
  {
    hide Distance;
    var d, q := Distance(hash, n.id) % UINT32, Distance(hash, n.id) / UINT32;
    assert Distance(hash, n.id) == d + q * UINT32;
    Shifted(n.distance + d, q);
    var once := Measured(n, hash);
    Shifted(once.distance + d, q);
    var p := (n.distance + d) / UINT32;
    assert n.distance + 2 * d == once.distance + d + p * UINT32;
    Shifted(once.distance + d, p);
  }

  lemma Shifted(a: nat, q: nat)
    ensures (a + q * UINT32) % UINT32 == a % UINT32
  {
  }

  method XorDistance(hash: seq<byte>, n: Neighbour) returns (m: Neighbour)
    requires |hash| <= |n.id| && n.distance < UINT32
    ensures m == Measured(n, hash)
  {
    var distance := n.distance;
    assert hash[..0] == [];
    for i := 0 to |hash|
      invariant distance == (n.distance + Distance(hash[..i], n.id)) % UINT32
    {
      assert hash[..i + 1][..i] == hash[..i];
      distance := (distance + Xor(Widen(hash[i]), Widen(n.id[i]))) % UINT32;
    }
    assert hash[..|hash|] == hash;
    m := n.(distance := distance);
  }

  // ---------- the sort ----------

  /** `x` goes behind the last element that is not farther. */
  function Insert(s: seq<Neighbour>, x: Neighbour): seq<Neighbour> {
    if s == [] then [x]
    else if s[|s| - 1].distance > x.distance then Insert(s[..|s| - 1], x) + [s[|s| - 1]]
    else s + [x]
  }

  function Sort(s: seq<Neighbour>): seq<Neighbour> {
    if s == [] then [] else Insert(Sort(s[..|s| - 1]), s[|s| - 1])
  }

  ghost predicate Sorted(s: seq<Neighbour>) {
    forall i, j :: 0 <= i < j < |s| ==> s[i].distance <= s[j].distance
  }

  /** The neighbours at a given distance, in their order. */
  function At(s: seq<Neighbour>, d: nat): seq<Neighbour> {
    if s == [] then []
    else At(s[..|s| - 1], d) + if s[|s| - 1].distance == d then [s[|s| - 1]] else []
  }

  lemma {:induction false} AtJoin(s: seq<Neighbour>, t: seq<Neighbour>, d: nat)
    ensures At(s + t, d) == At(s, d) + At(t, d)
    decreases |t|
  {
    if t == [] {
      assert s + t == s;
    } else {
      AtJoin(s, t[..|t| - 1], d);
      assert (s + t)[..|s + t| - 1] == s + t[..|t| - 1];
    }
  }

  lemma {:induction false} AtNone(s: seq<Neighbour>, d: nat)
    requires forall n :: n in s ==> n.distance != d
    ensures At(s, d) == []
  {
    if s == [] {
    } else {
      AtNone(s[..|s| - 1], d);
    }
  }

  /** Insertion splits a sorted sequence in two and sets the element between. */
  lemma {:induction false} InsertSplits(s: seq<Neighbour>, x: Neighbour) returns (j: nat)
    requires Sorted(s)
    ensures j <= |s| && Insert(s, x) == s[..j] + [x] + s[j..]
    ensures forall k :: 0 <= k < |s| ==> if k < j then s[k].distance <= x.distance else s[k].distance > x.distance
  {
    j := |s|;
    while j > 0 && s[j - 1].distance > x.distance
      invariant j <= |s| && forall k :: j <= k < |s| ==> s[k].distance > x.distance
    {
      j := j - 1;
    }
    InsertPlace(s, x, j);
  }

  lemma InsertKeeps(s: seq<Neighbour>, x: Neighbour)
    requires Sorted(s)
    ensures Sorted(Insert(s, x)) && multiset(Insert(s, x)) == multiset(s) + multiset{x} && |Insert(s, x)| == |s| + 1
  {
    hide Insert;
    var j := InsertSplits(s, x);
    assert s == s[..j] + s[j..];
  }

  lemma InsertIsStable(s: seq<Neighbour>, x: Neighbour, d: nat)
    requires Sorted(s)
    ensures At(Insert(s, x), d) == At(s, d) + At([x], d)
  {
    hide Insert, At;
    var j := InsertSplits(s, x);
    AtJoin(s[..j], [x], d);
    AtJoin(s[..j] + [x], s[j..], d);
    AtJoin(s[..j], s[j..], d);
    assert s == s[..j] + s[j..];
    if d == x.distance { AtNone(s[j..], d); } else { AtNone([x], d); }
  }

  /** The sort orders by distance, and loses and invents nothing. */
  lemma {:induction false} SortIsPermutation(s: seq<Neighbour>)
    ensures Sorted(Sort(s)) && multiset(Sort(s)) == multiset(s) && |Sort(s)| == |s|
  {
    if s == [] {
    } else {
      SortIsPermutation(s[..|s| - 1]);
      InsertKeeps(Sort(s[..|s| - 1]), s[|s| - 1]);
      assert s == s[..|s| - 1] + [s[|s| - 1]];
    }
  }

  /** Neighbours at the same distance stay in their order. */
  lemma {:induction false} SortIsStable(s: seq<Neighbour>, d: nat)
    ensures At(Sort(s), d) == At(s, d)
  {
    if s == [] {
    } else {
      var front, last := s[..|s| - 1], s[|s| - 1];
      SortIsStable(front, d);
      SortIsPermutation(front);
      InsertIsStable(Sort(front), last, d);
      AtJoin(front, [last], d);
      assert s == front + [last];
    }
  }

  lemma {:induction false} InsertPlace(s: seq<Neighbour>, x: Neighbour, j: nat)
    requires j <= |s| && (forall k :: j <= k < |s| ==> s[k].distance > x.distance)
    requires j > 0 ==> s[j - 1].distance <= x.distance
    ensures Insert(s, x) == s[..j] + [x] + s[j..]
  {
    if j == |s| {
      assert s[..j] == s && s[j..] == [];
    } else {
      InsertPlace(s[..|s| - 1], x, j);
      assert s[..|s| - 1][j..] + [s[|s| - 1]] == s[j..];
    }
  }

  function MeasuredAll(s: seq<Neighbour>, hash: seq<byte>): seq<Neighbour>
    requires forall n :: n in s ==> |hash| <= |n.id|
  {
    seq(|s|, i requires 0 <= i < |s| => Measured(s[i], hash))
  }

  /** `compare_hash` on the first `n` neighbours. */
  method CompareHash(neighbours: array<Neighbour>, n: nat, hash: seq<byte>)
    requires n <= neighbours.Length
    requires forall i :: 0 <= i < n ==> |hash| <= |neighbours[i].id| && neighbours[i].distance < UINT32
    modifies neighbours
    ensures neighbours[..n] == Sort(MeasuredAll(old(neighbours[..n]), hash))
    ensures neighbours[n..] == old(neighbours[n..])
  {
    hide Sort, Sorting, MeasuredAll;
    ghost var measured, rest := MeasuredAll(neighbours[..n], hash), neighbours[n..];
    Measure(neighbours, n, hash);
    assert neighbours[..] == neighbours[..n] + neighbours[n..];
    SortingEnds(measured, rest);
    var i := 0;
    while i < n
      invariant i <= n && neighbours[..] == Sorting(measured, rest, i)
    {
      SinkNext(neighbours, i, measured, rest);
      i := i + 1;
    }
    assert neighbours[..][..n] == neighbours[..n] && neighbours[..][n..] == neighbours[n..];
  }

  /** The sort after `i` rounds. */
  ghost function Sorting(s: seq<Neighbour>, rest: seq<Neighbour>, i: nat): seq<Neighbour>
    requires i <= |s|
  {
    Sort(s[..i]) + s[i..] + rest
  }

  lemma SortingEnds(s: seq<Neighbour>, rest: seq<Neighbour>)
    ensures Sorting(s, rest, 0) == s + rest && Sorting(s, rest, |s|) == Sort(s) + rest && |Sort(s)| == |s|
  {
    hide Insert;
    SortIsPermutation(s);
    assert s[..0] == [] && s[..|s|] == s && s[|s|..] == [];
    assert Sort(s[..0]) == [];
  }

  method SinkNext(neighbours: array<Neighbour>, i: nat, ghost s: seq<Neighbour>, ghost rest: seq<Neighbour>)
    requires i < |s| && neighbours[..] == Sorting(s, rest, i)
    requires i < neighbours.Length
    modifies neighbours
    ensures neighbours[..] == Sorting(s, rest, i + 1)
  {
    hide Sort, Insert;
    SortNext(s, i);
    Round(neighbours[..], Sort(s[..i]), s, rest, i, Sort(s[..i + 1]));
    assert neighbours[..i] == neighbours[..][..i] && neighbours[i] == neighbours[..][i];
    assert neighbours[i + 1..] == neighbours[..][i + 1..];
    SinkInto(neighbours, i);
  }

  /** The next element stands behind the sorted ones. */
  lemma Round(t: seq<Neighbour>, sorted: seq<Neighbour>, s: seq<Neighbour>, rest: seq<Neighbour>, i: nat,
              next: seq<Neighbour>)
    requires i < |s| && |sorted| == i && t == sorted + s[i..] + rest
    ensures |t| == |s| + |rest| && t[..i] == sorted && t[i] == s[i] && t[i + 1..] == s[i + 1..] + rest
    ensures next + t[i + 1..] == next + s[i + 1..] + rest
  {
  }

  method Measure(neighbours: array<Neighbour>, n: nat, hash: seq<byte>)
    requires n <= neighbours.Length
    requires forall i :: 0 <= i < n ==> |hash| <= |neighbours[i].id| && neighbours[i].distance < UINT32
    modifies neighbours
    ensures neighbours[..n] == MeasuredAll(old(neighbours[..n]), hash)
    ensures neighbours[n..] == old(neighbours[n..])
  {
    hide Measured;
    for i := 0 to n
      invariant forall k :: 0 <= k < i ==> neighbours[k] == Measured(old(neighbours[k]), hash)
      invariant forall k :: i <= k < neighbours.Length ==> neighbours[k] == old(neighbours[k])
    {
      neighbours[i] := XorDistance(hash, neighbours[i]);
    }
  }

  lemma SortNext(s: seq<Neighbour>, i: nat)
    requires i < |s|
    ensures |Sort(s[..i])| == i && |Sort(s[..i + 1])| == i + 1
    ensures Sort(s[..i + 1]) == Insert(Sort(s[..i]), s[i])
  {
    SortIsPermutation(s[..i]);
    SortIsPermutation(s[..i + 1]);
    assert s[..i + 1][..i] == s[..i];
  }

  /** The inner loop: the element at `i` is swapped down into the sorted ones before it. */
  method SinkInto(neighbours: array<Neighbour>, i: nat)
    requires i < neighbours.Length
    modifies neighbours
    ensures neighbours[..] == Insert(old(neighbours[..i]), old(neighbours[i])) + old(neighbours[i + 1..])
  {
    hide Insert;
    ghost var s, x, rest := neighbours[..i], neighbours[i], neighbours[i + 1..];
    var j := i;
    assert neighbours[..] == Sunk(s, x, rest, i);
    while j > 0 && neighbours[j - 1].distance > neighbours[j].distance
      invariant j <= i && neighbours[..] == Sunk(s, x, rest, j)
      invariant forall k :: j <= k < i ==> s[k].distance > x.distance
    {
      SinkOne(s, x, rest, j);
      assert neighbours[j - 1] == neighbours[..][j - 1] && neighbours[j] == neighbours[..][j];
      Swap(neighbours, j);
      j := j - 1;
    }
    if j > 0 {
      SinkOne(s, x, rest, j);
      assert neighbours[j - 1] == neighbours[..][j - 1] && neighbours[j] == neighbours[..][j];
    }
    InsertPlace(s, x, j);
  }

  ghost function Sunk(s: seq<Neighbour>, x: Neighbour, rest: seq<Neighbour>, j: nat): (t: seq<Neighbour>)
    requires j <= |s|
    ensures |t| == |s| + 1 + |rest|
  {
    s[..j] + [x] + s[j..] + rest
  }

  lemma SinkOne(s: seq<Neighbour>, x: Neighbour, rest: seq<Neighbour>, j: nat)
    requires 0 < j <= |s|
    ensures var t := Sunk(s, x, rest, j);
            t[j - 1] == s[j - 1] && t[j] == x && t[j - 1 := t[j]][j := t[j - 1]] == Sunk(s, x, rest, j - 1)
  {
    assert s[..j] == s[..j - 1] + [s[j - 1]] && s[j - 1..] == [s[j - 1]] + s[j..];
  }

  method Swap(neighbours: array<Neighbour>, j: nat)
    requires 0 < j < neighbours.Length
    modifies neighbours
    ensures neighbours[..] == old(neighbours[..])[j - 1 := old(neighbours[j])][j := old(neighbours[j - 1])]
  {
    neighbours[j], neighbours[j - 1] := neighbours[j - 1], neighbours[j];
  }

  // ---------- whom a query is sent to ----------

  /** `get_peers`: the first neighbour other than the one to reply to. */
  function Forward(sorted: seq<Neighbour>, replyTo: Address): (r: Option<Address>)
    ensures r.Some? ==> r.value != replyTo && exists i :: 0 <= i < |sorted| && sorted[i].at == r.value
  {
    if sorted == [] then None
    else if sorted[0].at == replyTo then Forward(sorted[1..], replyTo)
    else Some(sorted[0].at)
  }

  /** The query goes to a nearest neighbour other than the caller, and to none only if there is none. */
  lemma {:induction false} ForwardsToNearest(sorted: seq<Neighbour>, replyTo: Address)
    requires Sorted(sorted)
    ensures match Forward(sorted, replyTo)
            case None => forall n :: n in sorted ==> n.at == replyTo
            case Some(a) =>
              && a != replyTo
              && exists n :: n in sorted && n.at == a
                   && forall m :: m in sorted && m.at != replyTo ==> n.distance <= m.distance
  {
    if sorted == [] {
    } else {
      if sorted[0].at == replyTo {
        ForwardsToNearest(sorted[1..], replyTo);
        var r := Forward(sorted[1..], replyTo);
        if r.Some? {
          var n :| n in sorted[1..] && n.at == r.value
                   && forall m :: m in sorted[1..] && m.at != replyTo ==> n.distance <= m.distance;
          assert n in sorted;
          forall m | m in sorted && m.at != replyTo ensures n.distance <= m.distance { assert m in sorted[1..]; }
        }
      } else {
        assert sorted[0] in sorted;
      }
    }
  }

  // ---------- measured, sorted and chosen from ----------

  ghost predicate Unmeasured(s: seq<Neighbour>, hash: seq<byte>) {
    forall n :: n in s ==> n.distance == 0 && |hash| <= |n.id|
  }

  lemma MeasuredAt(s: seq<Neighbour>, hash: seq<byte>, i: nat)
    requires Unmeasured(s, hash) && i < |s|
    ensures MeasuredAll(s, hash)[i] == s[i].(distance := Distance32(hash, s[i].id))
  {
    hide Distance;
    assert s[i] in s;
  }

  /** After the sort, a query goes to a neighbour nearest to the file, other than the caller. */
  lemma QueryGoesToNearest(s: seq<Neighbour>, hash: seq<byte>, replyTo: Address)
    requires Unmeasured(s, hash)
    ensures match Forward(Sort(MeasuredAll(s, hash)), replyTo)
            case None => forall i :: 0 <= i < |s| ==> s[i].at == replyTo
            case Some(a) =>
              && a != replyTo
              && exists k :: 0 <= k < |s| && s[k].at == a && Nearest(s, hash, k, replyTo)
  {
    hide Distance32, Forward, Sort, Sorted, MeasuredAll;
    var all := Located(s, hash);
    var sorted := Sort(all);
    SortIsPermutation(all);
    ForwardsToNearest(sorted, replyTo);
    forall i | 0 <= i < |s| ensures all[i] in sorted && all[i] == s[i].(distance := Distance32(hash, s[i].id)) {
      assert all[i] in multiset(all);
      MeasuredAt(s, hash, i);
    }
    var r := Forward(sorted, replyTo);
    if r.Some? {
      var n :| n in sorted && n.at == r.value
               && forall m :: m in sorted && m.at != replyTo ==> n.distance <= m.distance;
      assert n in multiset(all);
      var k :| 0 <= k < |all| && all[k] == n;
      forall i | 0 <= i < |s| && s[i].at != replyTo ensures Distance32(hash, s[k].id) <= Distance32(hash, s[i].id) {
        assert all[i] in sorted;
      }
    }
  }

  ghost predicate Nearest(s: seq<Neighbour>, hash: seq<byte>, k: nat, replyTo: Address)
    requires k < |s| && forall n :: n in s ==> |hash| <= |n.id|
  {
    forall i :: 0 <= i < |s| && s[i].at != replyTo ==> Distance32(hash, s[k].id) <= Distance32(hash, s[i].id)
  }

  lemma Located(s: seq<Neighbour>, hash: seq<byte>) returns (all: seq<Neighbour>)
    requires forall n :: n in s ==> |hash| <= |n.id|
    ensures all == MeasuredAll(s, hash) && |all| == |s|
  {
    all := MeasuredAll(s, hash);
  }
}
