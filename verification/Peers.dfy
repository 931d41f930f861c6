/**
 The peer table: ten buckets indexed by a hash of the key, each a growable array of peers.
 First as a value, with everything `set_peer` and `get_peer_bucket` can do to it; then the
 objects that compute it.
 */
module Peers {
  import opened Basics
  import opened Bits

  datatype PeerState = Passive | Leech | Seed

  datatype Peer = Peer(ip: seq<byte>, port: nat, jobId: seq<byte>, state: PeerState)

  const MAX_PEER_BUCKETS: nat := 10
  const INITIAL_CAP: nat := 2

  // ---------- the hash ----------

  /** A `char`, sign-extended to an unsigned. */
  function Widen(c: byte): nat {
    var low := c as int % 0x100;
    if low < 0x80 then low else 0xFFFF_FF00 + low
  }

  function Mix(h: nat, c: byte): nat {
    Xor(h, Widen(c)) * 16777619 % 0x1_0000_0000
  }

  function Fnv(h: nat, s: seq<byte>): nat
    decreases |s|
  {
    if s == [] then h else Fnv(Mix(h, s[0]), s[1..])
  }

  /** The index of the bucket a key belongs to. */
  function Residue(key: seq<byte>): (r: nat)
    ensures r < MAX_PEER_BUCKETS
  {
    Fnv(2166136261, key) % MAX_PEER_BUCKETS
  }

  // ---------- the hash keeps what goes into it ----------

  const PRIME: nat := 16777619
  const INVERSE: nat := 899433627   // of the prime, modulo 2 to the 32

  lemma {:induction false} XorInjective(a: nat, b: nat, x: nat, y: nat)
    requires Xor(a, x) == Xor(b, y) && (a == b || x == y)
    ensures a == b && x == y
    decreases a + b + x + y
  {
    hide Xor;
    if a + b + x + y == 0 {
    } else {
      XorUnfolds(a, x);
      XorUnfolds(b, y);
      XorInjective(a / 2, b / 2, x / 2, y / 2);
    }
  }

  lemma {:induction false} XorBelow(k: nat, a: nat, b: nat)
    requires a < Pow2(k) && b < Pow2(k)
    ensures Xor(a, b) < Pow2(k)
    decreases k
  {
    if k == 0 {
    } else {
      XorBelow(k - 1, a / 2, b / 2);
    }
  }

  lemma Pow2Of32()
    ensures Pow2(32) == 0x1_0000_0000
  {
    assert Pow2(8) == 0x100;
    assert Pow2(16) == 0x1_0000;
    assert Pow2(24) == 0x100_0000;
  }

  /** Multiplying by the inverse undoes the product, because the prime is odd. */
  lemma ProductBack(a: nat)
    requires a < 0x1_0000_0000
    ensures (a * PRIME % 0x1_0000_0000) * INVERSE % 0x1_0000_0000 == a
  {
    var m: nat := 0x1_0000_0000;
    var q, r := a * PRIME / m, a * PRIME % m;
    assert PRIME * INVERSE == 3513497 * m + 1;
    assert a * PRIME == m * q + r;
    assert r * INVERSE == a * (PRIME * INVERSE) - m * q * INVERSE;
    Reduced(a, r, q, m);
  }

  lemma Reduced(a: nat, r: nat, q: nat, m: nat)
    requires a < m && r * INVERSE == a * (3513497 * m + 1) - m * q * INVERSE
    ensures r * INVERSE % m == a
  {
    var d: int := a * 3513497 - q * INVERSE;
    assert r * INVERSE == m * d + a;
    if d < 0 { Larger(m, 0, -d); }
    Remainder(m, d, a);
  }

  /** One step loses nothing: neither of the byte nor of what was mixed in before. */
  lemma MixInjective(h: nat, g: nat, c: byte, d: byte)
    requires h < 0x1_0000_0000 && g < 0x1_0000_0000 && c as int < 0x100 && d as int < 0x100
    requires Mix(h, c) == Mix(g, d) && (h == g || c == d)
    ensures h == g && c == d
  {
    hide Xor, Pow2, Widen;
    Pow2Of32();
    Widened(c);
    Widened(d);
    XorBelow(32, h, Widen(c));
    XorBelow(32, g, Widen(d));
    ProductBack(Xor(h, Widen(c)));
    ProductBack(Xor(g, Widen(d)));
    XorInjective(h, g, Widen(c), Widen(d));
  }

  lemma Widened(c: byte)
    requires c as int < 0x100
    ensures Widen(c) < 0x1_0000_0000
    ensures forall d: byte :: d as int < 0x100 && Widen(d) == Widen(c) ==> d == c
  {
  }

  /** Keys of one length that differ in one byte have different 32-bit hashes. */
  lemma {:induction false} OneByteMatters(h: nat, s: seq<byte>, t: seq<byte>, i: nat)
    requires |s| == |t| && i < |s| && (forall k :: 0 <= k < |s| ==> s[k] as int < 0x100 && t[k] as int < 0x100)
    requires h < 0x1_0000_0000 && s[i] != t[i] && forall k :: 0 <= k < |s| && k != i ==> s[k] == t[k]
    ensures Fnv(h, s) != Fnv(h, t)
    decreases |s|
  {
    hide Mix;
    MixBelow(h, s[0]);
    MixBelow(h, t[0]);
    if i == 0 {
      if Mix(h, s[0]) == Mix(h, t[0]) { MixInjective(h, h, s[0], t[0]); }
      assert s[1..] == t[1..];
      RestMatters(Mix(h, s[0]), Mix(h, t[0]), s[1..]);
    } else {
      OneByteMatters(Mix(h, s[0]), s[1..], t[1..], i - 1);
    }
  }

  lemma MixBelow(h: nat, c: byte)
    ensures Mix(h, c) < 0x1_0000_0000
  {
  }

  lemma {:induction false} RestMatters(h: nat, g: nat, s: seq<byte>)
    requires h != g && h < 0x1_0000_0000 && g < 0x1_0000_0000 && forall k :: 0 <= k < |s| ==> s[k] as int < 0x100
    ensures Fnv(h, s) != Fnv(g, s)
    decreases |s|
  {
    hide Mix;
    if s == [] {
    } else {
      MixBelow(h, s[0]);
      MixBelow(g, s[0]);
      if Mix(h, s[0]) == Mix(g, s[0]) { MixInjective(h, g, s[0], s[0]); }
      RestMatters(Mix(h, s[0]), Mix(g, s[0]), s[1..]);
    }
  }

  lemma Stepped(h: nat, c: byte, low: nat, r: nat)
    requires c as int < 0x80 && Xor(h % 0x100, c as int) == low && low < 0x100
    requires r == (h - h % 0x100 + low) * PRIME % 0x1_0000_0000
    ensures Mix(h, c) == r
  {
    hide Xor, Pow2;
    assert Pow2(8) == 0x100 by { Pow2Of8(); }
    XorParts(8, h / 0x100, h % 0x100, 0, c as int);
    XorNone(h / 0x100);
    assert h == 0x100 * (h / 0x100) + h % 0x100;
  }

  lemma Pow2Of8()
    ensures Pow2(8) == 0x100
  {
    assert Pow2(4) == 0x10;
  }

  lemma HashA()
    ensures Mix(2166136261, 'a') == 3826002220
  {
    hide Xor, Mix;
    XorZero(0, 0);
    XorUnfolds(1, 0);
    XorUnfolds(3, 1);
    XorUnfolds(6, 3);
    XorUnfolds(12, 6);
    XorUnfolds(24, 12);
    XorUnfolds(49, 24);
    XorUnfolds(98, 48);
    XorUnfolds(197, 97);
    Stepped(2166136261, 'a', 164, 3826002220);
  }

  lemma HashB()
    ensures Mix(2166136261, 'b') == 3876335077
  {
    hide Xor, Mix;
    XorZero(0, 0);
    XorUnfolds(1, 0);
    XorUnfolds(3, 1);
    XorUnfolds(6, 3);
    XorUnfolds(12, 6);
    XorUnfolds(24, 12);
    XorUnfolds(49, 24);
    XorUnfolds(98, 49);
    XorUnfolds(197, 98);
    Stepped(2166136261, 'b', 167, 3876335077);
  }

  lemma Hash1()
    ensures Mix(2166136261, '1') == 873244444
  {
    hide Xor, Mix;
    XorZero(0, 0);
    XorUnfolds(1, 0);
    XorUnfolds(3, 0);
    XorUnfolds(6, 1);
    XorUnfolds(12, 3);
    XorUnfolds(24, 6);
    XorUnfolds(49, 12);
    XorUnfolds(98, 24);
    XorUnfolds(197, 49);
    Stepped(2166136261, '1', 244, 873244444);
  }

  lemma Hash13()
    ensures Mix(873244444, '3') == 518729469
  {
    hide Xor, Mix;
    XorZero(0, 0);
    XorUnfolds(0, 0);
    XorUnfolds(0, 0);
    XorUnfolds(0, 1);
    XorUnfolds(1, 3);
    XorUnfolds(3, 6);
    XorUnfolds(7, 12);
    XorUnfolds(14, 25);
    XorUnfolds(28, 51);
    Stepped(873244444, '3', 47, 518729469);
  }

  lemma Hash14()
    ensures Mix(873244444, '4') == 401286136
  {
    hide Xor, Mix;
    XorZero(0, 0);
    XorUnfolds(0, 0);
    XorUnfolds(0, 0);
    XorUnfolds(0, 1);
    XorUnfolds(1, 3);
    XorUnfolds(3, 6);
    XorUnfolds(7, 13);
    XorUnfolds(14, 26);
    XorUnfolds(28, 52);
    Stepped(873244444, '4', 40, 401286136);
  }

  /** Some keys and their buckets. */
  lemma KnownBuckets()
    ensures Residue("") == 1 && Residue("a") == 0 && Residue("b") == 7 && Residue("13") == 9 && Residue("14") == 6
  {
    hide Mix;
    HashA();
    HashB();
    Hash1();
    Hash13();
    Hash14();
    assert "a"[1..] == "" && "b"[1..] == "" && "13"[1..] == "3" && "14"[1..] == "4" && "3"[1..] == "" && "4"[1..] == "";
    assert Fnv(873244444, "3") == Fnv(518729469, "") && Fnv(873244444, "4") == Fnv(401286136, "");
  }

  method Hash(input: seq<byte>) returns (r: nat)
    ensures r == Residue(input)
  {
    hide Xor, Widen;
    var h: nat, i: nat := 2166136261, 0;
    while i < |input|
      invariant i <= |input| && Fnv(h, input[i..]) == Fnv(2166136261, input)
    {
      assert input[i..][1..] == input[i + 1..];
      h := Xor(h, Widen(input[i]));
      h := h * 16777619 % 0x1_0000_0000;
      i := i + 1;
    }
    r := h % MAX_PEER_BUCKETS;
  }

  // ---------- the table as a value ----------

  type uint32 = n: nat | n < 0x1_0000_0000

  datatype Bucket = Bucket(active: bool, key: uint32, peers: seq<Peer>)

  type Table = t: seq<Bucket> | |t| == 10 witness seq(10, _ => Bucket(false, 0, []))

  const EMPTY_TABLE: Table := var b := Bucket(false, 0, []); [b, b, b, b, b, b, b, b, b, b]

  function Pushed(b: Bucket, p: Peer): Bucket { b.(peers := b.peers + [p]) }

  /** `set_peer`, its probing included: only the next bucket is ever tried, and it is not activated. */
  function WithPeer(t: Table, key: seq<byte>, p: Peer): Table {
    var h := Residue(key);
    if t[h].active && t[h].key == h then t[h := Pushed(t[h], p)]
    else if t[h].active && h + 1 < MAX_PEER_BUCKETS then
      if t[h + 1].peers == [] && !t[h + 1].active then t[h + 1 := Pushed(t[h + 1].(key := h + 1), p)] else t
    else t[h := Bucket(true, h, t[h].peers + [p])]
  }

  /** `get_peer_bucket`: the index of the bucket it finds. The largest key is one before 0. */
  function Lookup(t: Table, key: seq<byte>): (r: (bool, nat))
    ensures r.1 < MAX_PEER_BUCKETS
  {
    var h := Residue(key);
    (t[h].key <= h || t[h].key == 0xFFFF_FFFF, h)
  }

  function Counted(k: nat, n: nat): nat { (k + n) % 0x1_0000_0000 }

  /** Counting up from `k` gets to `h` in `n` steps, and not to 10 on the way. */
  ghost predicate Climbs(k: nat, h: nat, n: nat) {
    Counted(k, n) == h && forall j :: 0 < j <= n ==> Counted(k, j) < 10
  }

  /** The search counts up from the bucket's key, in 32 bits, and finds the index before it gets to 10. */
  lemma LookupClimbs(t: Table, key: seq<byte>)
    ensures Lookup(t, key).1 == Residue(key)
    ensures Lookup(t, key).0 <==> exists n: nat :: Climbs(t[Residue(key)].key, Residue(key), n)
  {
    hide Residue;
    var h, k := Residue(key), t[Residue(key)].key;
    if k <= h {
      assert Climbs(k, h, h - k);
    } else if k == 0xFFFF_FFFF {
      assert Climbs(k, h, h + 1);
    } else {
      forall n: nat ensures !Climbs(k, h, n) {
        var j := if k < 10 then 10 - k else 1;
        assert Counted(k, j) >= 10;
        assert n < j ==> Counted(k, n) == k + n;
      }
    }
  }

  /** What a key's peers are, given that the bucket is found. */
  function PeersOf(t: Table, key: seq<byte>): seq<Peer> { t[Residue(key)].peers }

  ghost predicate Tidy(t: Table) {
    forall i :: 0 <= i < MAX_PEER_BUCKETS ==> if t[i].active then t[i].key == i else t[i] == Bucket(false, 0, [])
  }

  /** From a tidy table the probing is never reached, and a peer is appended to one residue only. */
  lemma SetPeerAppends(t: Table, key: seq<byte>, p: Peer)
    requires Tidy(t)
    ensures var t' := WithPeer(t, key, p);
            && Tidy(t') && t'[Residue(key)].active
            && forall i :: 0 <= i < MAX_PEER_BUCKETS ==>
                 t'[i].peers == t[i].peers + if i == Residue(key) then [p] else []
  {
  }

  lemma LookupFinds(t: Table, key: seq<byte>)
    requires Tidy(t)
    ensures Lookup(t, key).0
  {
  }

  function SetAll(t: Table, calls: seq<(seq<byte>, Peer)>): Table {
    if calls == [] then t
    else WithPeer(SetAll(t, calls[..|calls| - 1]), calls[|calls| - 1].0, calls[|calls| - 1].1)
  }

  /** The peers that were set under a residue, in order. */
  function SetUnder(calls: seq<(seq<byte>, Peer)>, i: nat): seq<Peer> {
    if calls == [] then []
    else
      var (key, p) := calls[|calls| - 1];
      SetUnder(calls[..|calls| - 1], i) + if Residue(key) == i then [p] else []
  }

  /** Over every sequence of calls the table is a map from residues to what was set under them. */
  lemma {:induction false} TableRefinesMap(calls: seq<(seq<byte>, Peer)>)
    ensures var t := SetAll(EMPTY_TABLE, calls);
            && Tidy(t)
            && (forall i :: 0 <= i < MAX_PEER_BUCKETS ==> t[i].peers == SetUnder(calls, i))
            && forall key :: Lookup(t, key).0 && PeersOf(t, key) == SetUnder(calls, Residue(key))
  {
    if calls != [] {
      var front := calls[..|calls| - 1];
      TableRefinesMap(front);
      SetPeerAppends(SetAll(EMPTY_TABLE, front), calls[|calls| - 1].0, calls[|calls| - 1].1);
    }
    forall key ensures Lookup(SetAll(EMPTY_TABLE, calls), key).0 { LookupFinds(SetAll(EMPTY_TABLE, calls), key); }
  }

  /** What is set under one of these keys is found under it, and under the other one it is not. */
  lemma KeysApart(p: Peer)
    ensures PeersOf(WithPeer(EMPTY_TABLE, "a", p), "a") == [p] && PeersOf(WithPeer(EMPTY_TABLE, "a", p), "b") == []
    ensures PeersOf(WithPeer(EMPTY_TABLE, "13", p), "13") == [p] && PeersOf(WithPeer(EMPTY_TABLE, "13", p), "14") == []
  {
    hide Residue, WithPeer;
    KnownBuckets();
    SetPeerAppends(EMPTY_TABLE, "a", p);
    SetPeerAppends(EMPTY_TABLE, "13", p);
  }

  /**
   What the probing comes to where a bucket is taken by another key: the next bucket takes one
   peer, if it is empty and unused, and no second one; the last bucket is taken over.
   */
  lemma ProbingTakesOne(t: Table, key: seq<byte>, p: Peer, q: Peer)
    requires var h := Residue(key); t[h].active && t[h].key != h
    ensures var h := Residue(key);
            var t' := WithPeer(t, key, p);
            && (h == 9 ==> t' == t[9 := Bucket(true, 9, t[9].peers + [p])])
            && (h < 9 && t[h + 1].peers == [] && !t[h + 1].active ==>
                  t' == t[h + 1 := Bucket(false, h + 1, [p])] && WithPeer(t', key, q) == t')
            && (h < 9 && (t[h + 1].peers != [] || t[h + 1].active) ==> t' == t)
  {
    hide Residue;
    var h, t' := Residue(key), WithPeer(t, key, p);
    if h < 9 && t[h + 1].peers == [] && !t[h + 1].active {
      assert t' == t[h + 1 := Bucket(false, h + 1, [] + [p])] && [] + [p] == [p];
      assert t'[h] == t[h] && t'[h + 1].peers == [p];
    }
  }

  // ---------- the buckets as they are ----------

  class PeerArray {
    var active: bool
    var key: uint32
    var cap: nat
    var len: nat
    var data: array<Peer>
    ghost var pushes: nat
    ghost var copied: nat   // elements moved by all reallocations so far

    ghost predicate Valid()
      reads this
    {
      && len <= cap == data.Length && cap >= INITIAL_CAP
      && copied + INITIAL_CAP == cap && len <= pushes
      && (cap > INITIAL_CAP ==> cap < 2 * pushes)
    }

    ghost function Contents(): Bucket
      requires Valid()
      reads this, data
    {
      Bucket(active, key, data[..len])
    }

    /** `new_peer_array`, on zeroed memory */
    constructor ()
      ensures Valid() && Contents() == Bucket(false, 0, []) && fresh(data) && pushes == 0
    {
      active, key, cap, len := false, 0, INITIAL_CAP, 0;
      data := new Peer[INITIAL_CAP](_ => Peer([], 0, [], Passive));
      pushes, copied := 0, 0;
    }

    /** All pushes together make the reallocations move fewer than twice as many elements. */
    lemma Amortized()
      requires Valid()
      ensures copied == 0 || copied < 2 * pushes
    {
    }

    method Resize()
      requires Valid() && len == cap
      modifies `cap, `data, `copied
      ensures cap == 2 * old(cap) == data.Length && fresh(data) && copied == old(copied + cap)
      ensures data[..len] == old(data[..len])
    {
      var block := new Peer[2 * cap](_ => Peer([], 0, [], Passive));
      forall i | 0 <= i < cap { block[i] := data[i]; }
      data, cap, copied := block, cap * 2, copied + cap;
    }

    method PushPeer(p: Peer)
      requires Valid()
      modifies this, data
      ensures Valid() && Contents() == Pushed(old(Contents()), p)
      ensures data == old(data) || fresh(data)
      ensures pushes == old(pushes) + 1
    {
      if len == cap { Resize(); }
      data[len] := p;
      len, pushes := len + 1, pushes + 1;
    }

    method PopPeer() returns (p: Peer, popped: bool)
      requires Valid()
      modifies `len, data
      ensures Valid() && popped == (old(len) >= 1)
      ensures popped ==> old(Contents()) == Pushed(Contents(), p)
      ensures !popped ==> Contents() == old(Contents())
    {
      if len < 1 { return Peer([], 0, [], Passive), false; }
      p, popped := data[len - 1], true;
      data[len - 1] := Peer([], 0, [], Passive);
      len := len - 1;
    }
  }

  class PeerTable {
    const buckets: seq<PeerArray>

    /** The ten buckets share nothing. */
    ghost predicate Valid()
      reads this, buckets, Arrays()
    {
      && |buckets| == MAX_PEER_BUCKETS
      && (forall i :: 0 <= i < |buckets| ==> buckets[i].Valid())
      && (forall i, j :: 0 <= i < j < |buckets| ==> buckets[i] != buckets[j] && buckets[i].data != buckets[j].data)
    }

    ghost function Arrays(): set<array<Peer>>
      reads this, buckets
    {
      set i | 0 <= i < |buckets| :: buckets[i].data
    }

    ghost function Contents(): Table
      reads this, buckets, Arrays()
      requires Valid()
    {
      seq(MAX_PEER_BUCKETS,
          i requires 0 <= i < MAX_PEER_BUCKETS && Valid() reads this, buckets, Arrays() => buckets[i].Contents())
    }

    constructor ()
      ensures Valid() && Contents() == EMPTY_TABLE
      ensures fresh(buckets) && fresh(Arrays())
    {
      var made: seq<PeerArray> := [];
      for i := 0 to MAX_PEER_BUCKETS
        invariant |made| == i && fresh(made)
        invariant forall k :: 0 <= k < i ==>
                      made[k].Valid() && fresh(made[k].data) && made[k].Contents() == Bucket(false, 0, [])
        invariant forall j, k :: 0 <= j < k < i ==> made[j] != made[k] && made[j].data != made[k].data
      {
        var b := new PeerArray();
        made := made + [b];
      }
      buckets := made;
    }

    /** Only the bucket at `k` is written to. */
    method PushAt(k: nat, p: Peer)
      requires Valid() && k < MAX_PEER_BUCKETS
      modifies buckets[k], buckets[k].data
      ensures Valid() && Contents() == old(Contents())[k := Pushed(old(Contents())[k], p)]
      ensures fresh(Arrays() - old(Arrays()))
    {
      buckets[k].PushPeer(p);
      assert forall i :: 0 <= i < MAX_PEER_BUCKETS && i != k ==>
                           buckets[i].Valid() && buckets[i].data == old(buckets[i].data);
    }

    method SetPeer(key: seq<byte>, p: Peer)
      requires Valid()
      modifies buckets, Arrays()
      ensures Valid() && Contents() == WithPeer(old(Contents()), key, p)
      ensures fresh(Arrays() - old(Arrays()))
    {
      hide PeerTable.Contents, PeerTable.Valid, PeerArray.Valid, PeerArray.Contents, Residue;
      var h := Hash(key);
      Reading(h);
      if h + 1 < MAX_PEER_BUCKETS { Reading(h + 1); }
      if buckets[h].active {
        if buckets[h].key == h {
          PushAt(h, p);
          return;
        }
        if h + 1 < MAX_PEER_BUCKETS {
          Probe(h + 1, p);
          return;
        }
      }
      LabelAndPush(h, h, true, p);
    }

    /** The loop that looks for another bucket returns in its first round, whatever it finds. */
    method Probe(index: nat, p: Peer)
      requires Valid() && index < MAX_PEER_BUCKETS
      modifies buckets[index], buckets[index].data
      ensures Valid() && fresh(Arrays() - old(Arrays()))
      ensures var t := old(Contents());
              Contents() == if t[index].peers == [] && !t[index].active
                            then t[index := Bucket(false, index, t[index].peers + [p])] else t
    {
      hide PeerTable.Contents;
      Reading(index);
      if buckets[index].len == 0 && !buckets[index].active {
        LabelAndPush(index, index, false, p);
      }
    }

    lemma Reading(k: nat)
      requires Valid() && k < MAX_PEER_BUCKETS
      ensures |buckets| == MAX_PEER_BUCKETS
      ensures Contents()[k].active == buckets[k].active && Contents()[k].key == buckets[k].key
      ensures Contents()[k].peers == [] <==> buckets[k].len == 0
      ensures buckets[k].data in Arrays() && buckets[k] in buckets
    {
    }

    method LabelAndPush(k: nat, key: uint32, active: bool, p: Peer)
      requires Valid() && k < MAX_PEER_BUCKETS
      modifies buckets[k], buckets[k].data
      ensures Valid() && Contents() == old(Contents())[k := Bucket(active, key, old(Contents())[k].peers + [p])]
      ensures fresh(Arrays() - old(Arrays()))
    {
      Label(k, key, active);
      PushAt(k, p);
    }

    method Label(k: nat, key: uint32, active: bool)
      requires Valid() && k < MAX_PEER_BUCKETS
      modifies buckets[k]
      ensures Valid() && Contents() == old(Contents())[k := old(Contents())[k].(key := key, active := active)]
      ensures Arrays() == old(Arrays()) && forall i :: 0 <= i < MAX_PEER_BUCKETS ==>
                buckets[i].data == old(buckets[i].data)
    {
      buckets[k].key := key;
      buckets[k].active := active;
    }

    method GetPeerBucket(key: seq<byte>) returns (bucket: PeerArray?)
      requires Valid()
      ensures bucket == if Lookup(Contents(), key).0 then buckets[Residue(key)] else null
    {
      var h := Hash(key);
      ghost var found := buckets[h].key <= h || buckets[h].key == 0xFFFF_FFFF;
      var current: uint32 := buckets[h].key;
      while true
        invariant found <==> current <= h || current == 0xFFFF_FFFF
        decreases if current == 0xFFFF_FFFF then 11 else if current < MAX_PEER_BUCKETS then 10 - current else 0
      {
        if h == current { return buckets[h]; }
        current := (current + 1) % 0x1_0000_0000;
        if current >= MAX_PEER_BUCKETS { break; }
      }
      bucket := null;
    }
  }
}
