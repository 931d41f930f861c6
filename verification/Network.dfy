/**
 The network of nodes: messages in flight may be delivered in any order or lost, but not
 duplicated. What holds over every run of it.
 */
module Network {
  import opened Basics
  import opened Peers
  import opened Neighbours
  import opened Rpc

  /** `sent` is everything ever put in flight, in order; `net` is what is still in flight. */
  datatype State = State(
    nodes: map<Address, Node>,
    started: set<Address>,
    exited: set<Address>,
    net: multiset<Message>,
    sent: seq<Message>)

  datatype Action =
    | Start(at: Address)
    | Deliver(msg: Message, replied: bool)
    | Lose(msg: Message)
    | TimeOut(at: Address)

  ghost predicate Initial(s: State) {
    && s.started == {} && s.exited == {} && s.net == multiset{} && s.sent == []
    && forall a :: a in s.nodes ==> s.nodes[a].at == a && Tidy(s.nodes[a].table)
  }

  /** A node receives whether it has started a query of its own or not. */
  predicate Enabled(s: State, act: Action) {
    match act
    case Start(a) => a in s.nodes && a !in s.started && a !in s.exited
    case Deliver(m, _) => m in s.net && m.dest in s.nodes && m.dest !in s.exited && Fits(s.nodes[m.dest], m)
    case Lose(m) => m in s.net
    case TimeOut(a) => a in s.nodes && a !in s.exited && s.nodes[a].waiting
  }

  function Post(s: State, out: seq<Message>): State {
    s.(net := s.net + multiset(out), sent := s.sent + out)
  }

  /** The node at `a` becomes `n` and puts `out` in flight. */
  function Act(s: State, a: Address, n: Node, out: seq<Message>): State {
    Post(s.(nodes := s.nodes[a := n]), out)
  }

  function Apply(s: State, act: Action): State
    requires Enabled(s, act)
  {
    match act
    case Start(a) =>
      var n := s.nodes[a];
      Act(s.(started := s.started + {a}), a, n.(waiting := true), Query(n, n.key, a, a))
    case Deliver(m, replied) =>
      var (n, out) := Recv(s.nodes[m.dest], m, replied);
      Act(s.(net := s.net - multiset{m}), m.dest, n, out)
    case Lose(m) => s.(net := s.net - multiset{m})
    case TimeOut(a) =>
      var (out, anyone) := Join(s.nodes[a]);
      if anyone then Post(s, out) else s.(exited := s.exited + {a})
  }

  ghost predicate Run(s: State, acts: seq<Action>, s': State)
    decreases |acts|
  {
    if acts == [] then s == s'
    else Enabled(s, acts[0]) && Run(Apply(s, acts[0]), acts[1..], s')
  }

  // ---------- one node's part ----------

  ghost predicate Grows(t: Table, t': Table) {
    forall i :: 0 <= i < MAX_PEER_BUCKETS ==> t[i].peers <= t'[i].peers
  }

  ghost predicate In(p: Peer, t: Table) {
    exists i :: 0 <= i < MAX_PEER_BUCKETS && p in t[i].peers
  }

  lemma {:induction false} SetAllAppends(t: Table, key: seq<byte>, peers: seq<Peer>)
    requires Tidy(t)
    ensures var t' := SetAll(t, Labelled(key, peers));
            && Tidy(t')
            && forall i :: 0 <= i < MAX_PEER_BUCKETS ==>
                 t'[i].peers == t[i].peers + if i == Residue(key) then peers else []
    decreases |peers|
  {
    hide WithPeer, Tidy, Residue;
    if peers == [] {
    } else {
      var front, last := peers[..|peers| - 1], peers[|peers| - 1];
      SetAllAppends(t, key, front);
      SetPeerAppends(SetAll(t, Labelled(key, front)), key, last);
      assert Labelled(key, peers)[..|peers| - 1] == Labelled(key, front);
      assert peers == front + [last];
    }
  }

  /** From a tidy table there is always a bucket: the reply with no peers is never sent. */
  lemma BucketFound(n: Node, m: Message)
    requires Tidy(n.table) && m.GetPeersCall?
    ensures OnGetPeers(n, m) ==
              if PeersOf(n.table, m.hash) == [] && n.neighbours != []
              then (n.(waiting := true), Query(n, n.key, m.src, m.sender))
              else (n.(waiting := false), [GetPeersReply(m.src, true, PeersOf(n.table, m.hash))])
  {
    hide Tidy, Residue;
    LookupFinds(n.table, m.hash);
  }

  ghost predicate SameNode(n: Node, n': Node) {
    n'.at == n.at && n'.key == n.key && n'.neighbours == n.neighbours
  }

  /** What a message can bring into a table. */
  ghost predicate Brings(m: Message, p: Peer) {
    (m.JoinCall? && p == Joiner(m.sender)) || (m.GetPeersReply? && p in m.peers)
  }

  ghost predicate Learned(n: Node, n': Node, m: Message) {
    forall p :: In(p, n'.table) ==> In(p, n.table) || Brings(m, p)
  }

  /** What a node may say: peers of its table, and its own address. */
  ghost predicate Honest(n: Node, out: seq<Message>) {
    forall m :: m in out ==>
      && (m.GetPeersReply? ==> forall p :: p in m.peers ==> In(p, n.table))
      && (m.JoinCall? ==> m.sender == n.at)
  }

  lemma Appending(t: Table, t': Table, r: nat, peers: seq<Peer>, p: Peer)
    requires r < MAX_PEER_BUCKETS
    requires forall i :: 0 <= i < MAX_PEER_BUCKETS ==> t'[i].peers == t[i].peers + if i == r then peers else []
    ensures Grows(t, t') && (In(p, t') <==> In(p, t) || p in peers)
  {
    if p in peers { assert p in t'[r].peers; }
    if In(p, t) {
      var i :| 0 <= i < MAX_PEER_BUCKETS && p in t[i].peers;
      assert p in t'[i].peers;
    }
  }

  lemma RecvKeeps(n: Node, m: Message, replied: bool)
    requires Tidy(n.table)
    ensures var (n', out) := Recv(n, m, replied);
            && SameNode(n, n') && Tidy(n'.table) && Grows(n.table, n'.table)
            && Learned(n, n', m) && Honest(n', out)
  {
    hide Tidy, Grows, In, Residue, WithPeer, SetAll, Labelled;
    var (n', out) := Recv(n, m, replied);
    var r := Residue(n.key);
    match m
    case GetPeersCall(_, _, _, hash) =>
      BucketFound(n, m);
      TableItself(n.table);
      forall p | p in PeersOf(n.table, hash) ensures In(p, n.table) { InBucket(n.table, Residue(hash), p); }
    case JoinCall(_, sender) =>
      TableItself(n.table);
      if replied {
        SetPeerAppends(n.table, n.key, Joiner(sender));
        Appending(n.table, n'.table, r, [Joiner(sender)], Joiner(sender));
        forall p ensures In(p, n'.table) <==> In(p, n.table) || p == Joiner(sender) {
          Appending(n.table, n'.table, r, [Joiner(sender)], p);
        }
      }
    case GetPeersReply(_, ok, peers) =>
      TableItself(n.table);
      if ok && peers != [] {
        SetAllAppends(n.table, n.key, peers);
        Appending(n.table, n'.table, r, peers, peers[0]);
        forall p ensures In(p, n'.table) <==> In(p, n.table) || p in peers {
          Appending(n.table, n'.table, r, peers, p);
        }
      }
    case _ =>
      TableItself(n.table);
  }

  /** `out` is one JOIN from `at` to each of the peers, in their order. */
  ghost predicate JoinsAll(out: seq<Message>, peers: seq<Peer>, at: Address) {
    |out| == |peers| && forall i :: 0 <= i < |peers| ==> out[i] == JoinCall(Address(peers[i].ip, peers[i].port), at)
  }

  /** A reply's peers all go, in order, to the bucket of the node's own key; with two in it, all are sent a JOIN. */
  lemma ReplyTaken(n: Node, dest: Address, peers: seq<Peer>, replied: bool)
    requires Tidy(n.table) && peers != []
    ensures var (n', out) := Recv(n, GetPeersReply(dest, true, peers), replied);
            var known := PeersOf(n.table, n.key) + peers;
            && (forall i :: 0 <= i < MAX_PEER_BUCKETS ==>
                  n'.table[i].peers == if i == Residue(n.key) then known else n.table[i].peers)
            && (if |known| >= 2 then JoinsAll(out, known, n.at) else out == [])
            && n' == n.(table := n'.table, waiting := n.waiting && |known| < 2)
  {
    hide Tidy, Residue, SetAll, WithPeer, Labelled;
    SetAllAppends(n.table, n.key, peers);
    LookupFinds(SetAll(n.table, Labelled(n.key, peers)), n.key);
  }

  /** A JOIN whose reply can be sent is answered, and its sender set under the node's own key; others do nothing. */
  lemma JoinTaken(n: Node, dest: Address, sender: Address)
    requires Tidy(n.table)
    ensures var (n', out) := Recv(n, JoinCall(dest, sender), true);
            && out == [JoinReply(sender)]
            && (forall i :: 0 <= i < MAX_PEER_BUCKETS ==>
                  n'.table[i].peers
                  == n.table[i].peers + if i == Residue(n.key) then [Peer(sender.ip, sender.port, [], Passive)] else [])
            && n' == n.(table := n'.table)
    ensures Recv(n, JoinCall(dest, sender), false) == (n, [])
  {
    hide Tidy, Residue, WithPeer;
    SetPeerAppends(n.table, n.key, Joiner(sender));
  }

  /** What else can arrive changes nothing and is not answered. */
  lemma Ignored(n: Node, m: Message, replied: bool)
    requires m.OtherCall? || m.JoinReply? || (m.GetPeersReply? && (!m.ok || m.peers == []))
    ensures Recv(n, m, replied) == (n, [])
  {
  }

  /** Where no bucket is found, the caller, not the source, is told that there are no peers. */
  lemma NullBucketAnswered(n: Node, dest: Address, sender: Address, src: Address, hash: seq<byte>, replied: bool)
    requires var k := n.table[Residue(hash)].key; Residue(hash) < k < 0xFFFF_FFFF
    ensures Recv(n, GetPeersCall(dest, sender, src, hash), replied) == (n, [GetPeersReply(sender, true, [])])
  {
    hide Residue;
  }

  /** At most 25 peers go into an answer, and at most 10 are taken from one. */
  lemma HowMuchFits(n: Node, m: Message)
    ensures m.GetPeersCall? ==> (Fits(n, m) <==> |PeersOf(n.table, m.hash)| <= 25)
    ensures m.GetPeersReply? ==> (Fits(n, m) <==> |m.peers| <= 10)
    ensures !m.GetPeersCall? && !m.GetPeersReply? ==> Fits(n, m)
  {
  }

  lemma TableItself(t: Table)
    ensures Grows(t, t)
  {
  }

  lemma InBucket(t: Table, i: nat, p: Peer)
    requires i < MAX_PEER_BUCKETS && p in t[i].peers
    ensures In(p, t)
  {
  }

  // ---------- no peer is invented ----------

  /** A peer was in a table at the start, or is the address of a node that sent a JOIN. */
  ghost predicate Accounted(s0: State, sent: seq<Message>, p: Peer) {
    || (exists a :: a in s0.nodes && In(p, s0.nodes[a].table))
    || (exists m :: m in sent && m.JoinCall? && p == Joiner(m.sender))
  }

  ghost predicate Consistent(s0: State, s: State) {
    && s.nodes.Keys == s0.nodes.Keys
    && (forall a :: a in s.nodes ==>
          SameNode(s0.nodes[a], s.nodes[a]) && s.nodes[a].at == a && Tidy(s.nodes[a].table))
    && (forall m :: m in s.net ==> m in s.sent)
  }

  ghost predicate NothingInvented(s0: State, s: State) {
    && (forall a, p :: a in s.nodes && In(p, s.nodes[a].table) ==> Accounted(s0, s.sent, p))
    && (forall m, p :: m in s.sent && m.GetPeersReply? && p in m.peers ==> Accounted(s0, s.sent, p))
    && (forall m :: m in s.sent && m.JoinCall? ==> m.sender in s0.nodes)
  }

  ghost predicate AllGrow(s: State, s': State) {
    s'.nodes.Keys == s.nodes.Keys && forall a :: a in s.nodes ==> Grows(s.nodes[a].table, s'.nodes[a].table)
  }

  /** What a node may become in one step, given what was sent before. */
  ghost predicate MayBecome(s0: State, s: State, a: Address, n: Node) {
    && a in s.nodes && SameNode(s.nodes[a], n) && Tidy(n.table) && Grows(s.nodes[a].table, n.table)
    && forall p :: In(p, n.table) ==> Accounted(s0, s.sent, p)
  }

  lemma AccountedLater(s0: State, sent: seq<Message>, out: seq<Message>, p: Peer)
    requires Accounted(s0, sent, p)
    ensures Accounted(s0, sent + out, p)
  {
    hide In;
    if !exists a :: a in s0.nodes && In(p, s0.nodes[a].table) {
      var m :| m in sent && m.JoinCall? && p == Joiner(m.sender);
      assert m in sent + out;
    }
  }

  lemma ActKeeps(s0: State, s: State, a: Address, n: Node, out: seq<Message>)
    requires Consistent(s0, s) && NothingInvented(s0, s)
    requires MayBecome(s0, s, a, n) && Honest(n, out)
    ensures var s' := Act(s, a, n, out); Consistent(s0, s') && NothingInvented(s0, s') && AllGrow(s, s')
  {
    hide Accounted, In, Tidy, Grows, Honest, NothingInvented;
    var s' := Act(s, a, n, out);
    forall b | b in s.nodes ensures Grows(s.nodes[b].table, s'.nodes[b].table) { TableItself(s.nodes[b].table); }
    assert forall m :: m in s'.net ==> m in s.net || m in out;
    assert s'.nodes.Keys == s.nodes.Keys;
    ActInvents(s0, s, a, n, out);
  }

  lemma ActInvents(s0: State, s: State, a: Address, n: Node, out: seq<Message>)
    requires Consistent(s0, s) && NothingInvented(s0, s)
    requires MayBecome(s0, s, a, n) && Honest(n, out)
    ensures NothingInvented(s0, Act(s, a, n, out))
  {
    hide Accounted, In, Tidy, Grows;
    var s' := Act(s, a, n, out);
    forall p | Accounted(s0, s.sent, p) ensures Accounted(s0, s'.sent, p) { AccountedLater(s0, s.sent, out, p); }
    assert forall m :: m in s'.sent ==> m in s.sent || m in out;
  }

  lemma Itself(s0: State, s: State, a: Address)
    requires NothingInvented(s0, s) && Consistent(s0, s) && a in s.nodes
    ensures MayBecome(s0, s, a, s.nodes[a]) && MayBecome(s0, s, a, s.nodes[a].(waiting := true))
  {
    hide In, Tidy, Grows, Accounted;
    TableItself(s.nodes[a].table);
  }

  lemma Receiving(s0: State, s: State, m: Message, replied: bool)
    requires Consistent(s0, s) && NothingInvented(s0, s) && m in s.net && m.dest in s.nodes
    ensures MayBecome(s0, s, m.dest, Recv(s.nodes[m.dest], m, replied).0)
  {
    hide In, Tidy, Grows, Accounted, Recv;
    RecvKeeps(s.nodes[m.dest], m, replied);
    if m.JoinCall? { Owed(s0, s.sent, m); }
  }

  lemma Owed(s0: State, sent: seq<Message>, m: Message)
    requires m in sent && m.JoinCall?
    ensures Accounted(s0, sent, Joiner(m.sender))
  {
  }

  lemma DeliverKeeps(s0: State, s: State, m: Message, replied: bool)
    requires Consistent(s0, s) && NothingInvented(s0, s) && Enabled(s, Deliver(m, replied))
    ensures var s' := Apply(s, Deliver(m, replied)); Consistent(s0, s') && NothingInvented(s0, s') && AllGrow(s, s')
  {
    hide NothingInvented, MayBecome, In, Grows, Tidy, Recv, AllGrow, Accounted;
    var (n, out) := Recv(s.nodes[m.dest], m, replied);
    Receiving(s0, s, m, replied);
    RecvKeeps(s.nodes[m.dest], m, replied);
    Elsewhere(s0, s, s.(net := s.net - multiset{m}));
    ActKeeps(s0, s.(net := s.net - multiset{m}), m.dest, n, out);
  }

  lemma StepKeeps(s0: State, s: State, act: Action)
    requires Consistent(s0, s) && NothingInvented(s0, s) && Enabled(s, act)
    ensures var s' := Apply(s, act); Consistent(s0, s') && NothingInvented(s0, s') && AllGrow(s, s')
  {
    hide NothingInvented, MayBecome, In, Grows, Tidy, Recv, AllGrow, Accounted;
    match act
    case Start(a) =>
      Itself(s0, s, a);
      Elsewhere(s0, s, s.(started := s.started + {a}));
      ActKeeps(s0, s.(started := s.started + {a}), a, s.nodes[a].(waiting := true), Query(s.nodes[a],
               s.nodes[a].key, a, a));
      Elsewhere(s0, s, s.(started := s.started + {a}));
    case Deliver(m, replied) =>
      DeliverKeeps(s0, s, m, replied);
    case Lose(m) =>
      Elsewhere(s0, s, s.(net := s.net - multiset{m}));
    case TimeOut(a) =>
      Elsewhere(s0, s, s.(exited := s.exited + {a}));
      Itself(s0, s, a);
      assert s.nodes[a := s.nodes[a]] == s.nodes;
      ActKeeps(s0, s, a, s.nodes[a], Join(s.nodes[a]).0);
  }

  /** Nothing depends on who has started or gone, nor on a message's being lost. */
  lemma Elsewhere(s0: State, s: State, t: State)
    requires Consistent(s0, s) && NothingInvented(s0, s)
    requires t.nodes == s.nodes && t.sent == s.sent && t.net <= s.net
    ensures Consistent(s0, t) && NothingInvented(s0, t) && AllGrow(s, t)
    ensures forall a, n :: MayBecome(s0, t, a, n) == MayBecome(s0, s, a, n)
    ensures forall t' :: AllGrow(t, t') == AllGrow(s, t')
  {
    hide In, Grows, Tidy, Accounted;
    forall a | a in s.nodes ensures Grows(s.nodes[a].table, s.nodes[a].table) { TableItself(s.nodes[a].table); }
  }

  lemma StartsConsistent(s0: State)
    requires Initial(s0)
    ensures Consistent(s0, s0) && NothingInvented(s0, s0)
  {
    hide In, Tidy;
  }

  lemma GrowsOn(s: State, t: State, u: State)
    requires AllGrow(s, t) && AllGrow(t, u)
    ensures AllGrow(s, u)
  {
    forall a | a in s.nodes ensures Grows(s.nodes[a].table, u.nodes[a].table) {
      forall i | 0 <= i < MAX_PEER_BUCKETS ensures s.nodes[a].table[i].peers <= u.nodes[a].table[i].peers {
        assert s.nodes[a].table[i].peers <= t.nodes[a].table[i].peers <= u.nodes[a].table[i].peers;
      }
    }
  }

  lemma {:induction false} RunKeeps(s0: State, s: State, acts: seq<Action>, s': State)
    requires Consistent(s0, s) && NothingInvented(s0, s) && Run(s, acts, s')
    ensures Consistent(s0, s') && NothingInvented(s0, s') && AllGrow(s, s')
    decreases |acts|
  {
    hide Consistent, NothingInvented, AllGrow, Apply;
    if acts == [] {
      Still(s0, s);
    } else {
      StepKeeps(s0, s, acts[0]);
      RunKeeps(s0, Apply(s, acts[0]), acts[1..], s');
      GrowsOn(s, Apply(s, acts[0]), s');
    }
  }

  lemma Still(s0: State, s: State)
    requires Consistent(s0, s) && NothingInvented(s0, s)
    ensures AllGrow(s, s)
  {
    Elsewhere(s0, s, s);
  }

  /**
   In every run: every peer a table holds, or a reply in flight carries, was in a table at
   the start or is the address of a node of the network that sent a JOIN.
   */
  lemma NoPeerInvented(s0: State, acts: seq<Action>, s: State, p: Peer)
    requires Initial(s0) && Run(s0, acts, s)
    requires || (exists a :: a in s.nodes && In(p, s.nodes[a].table))
             || (exists m :: m in s.net && m.GetPeersReply? && p in m.peers)
    ensures || (exists a :: a in s0.nodes && In(p, s0.nodes[a].table))
            || (exists m :: m in s.sent && m.JoinCall? && m.sender in s0.nodes && p == Joiner(m.sender))
  {
    hide Run, In, Tidy, AllGrow;
    StartsConsistent(s0);
    RunKeeps(s0, s0, acts, s);
    assert Accounted(s0, s.sent, p) by {
      if !exists a :: a in s.nodes && In(p, s.nodes[a].table) {
        var m :| m in s.net && m.GetPeersReply? && p in m.peers;
        assert m in s.sent;
      }
    }
    if !exists a :: a in s0.nodes && In(p, s0.nodes[a].table) {
      var m :| m in s.sent && m.JoinCall? && p == Joiner(m.sender);
      assert m.sender in s0.nodes;
    }
  }

  /** In every run every bucket only grows, by appending, and the NULL bucket is never met. */
  lemma BucketsOnlyGrow(s0: State, before: seq<Action>, s: State, after: seq<Action>, s': State, a: Address,
                        i: nat, key: seq<byte>)
    requires Initial(s0) && Run(s0, before, s) && Run(s, after, s')
    requires a in s0.nodes && i < MAX_PEER_BUCKETS
    ensures a in s.nodes && a in s'.nodes
    ensures s.nodes[a].table[i].peers <= s'.nodes[a].table[i].peers
    ensures Lookup(s'.nodes[a].table, key).0
  {
    hide Run, Tidy, In, NothingInvented, Residue;
    StartsConsistent(s0);
    RunKeeps(s0, s0, before, s);
    RunKeeps(s0, s, after, s');
    LookupFinds(s'.nodes[a].table, key);
  }

  // ---------- what a time-out and a JOIN do in a run ----------

  /** A node that times out sends a JOIN to every peer under its key, or exits if there is none. */
  lemma TimeOutJoins(s0: State, acts: seq<Action>, s: State, a: Address)
    requires Initial(s0) && Run(s0, acts, s) && Enabled(s, TimeOut(a))
    ensures var known, s' := PeersOf(s.nodes[a].table, s.nodes[a].key), Apply(s, TimeOut(a));
            && s'.nodes == s.nodes && s'.started == s.started
            && s.sent <= s'.sent && JoinsAll(s'.sent[|s.sent|..], known, a)
            && s'.net == s.net + multiset(s'.sent[|s.sent|..])
            && s'.exited == if known == [] then s.exited + {a} else s.exited
  {
    hide Run, Tidy, NothingInvented, Residue, AllGrow;
    StartsConsistent(s0);
    RunKeeps(s0, s0, acts, s);
    LookupFinds(s.nodes[a].table, s.nodes[a].key);
  }

  /** Who has sent a JOIN that was answered is in the table of the node that answered, for good. */
  lemma JoinLasts(s0: State, acts: seq<Action>, s: State, m: Message, later: seq<Action>, s': State)
    requires Initial(s0) && Run(s0, acts, s) && m.JoinCall? && Enabled(s, Deliver(m, true))
    requires Run(Apply(s, Deliver(m, true)), later, s')
    ensures m.dest in s'.nodes
    ensures var n := s.nodes[m.dest];
            PeersOf(n.table, n.key) + [Peer(m.sender.ip, m.sender.port, [], Passive)]
            <= PeersOf(s'.nodes[m.dest].table, n.key)
  {
    hide Run, Tidy, NothingInvented, Residue, Recv;
    StartsConsistent(s0);
    RunKeeps(s0, s0, acts, s);
    var n, t := s.nodes[m.dest], Apply(s, Deliver(m, true));
    assert JoinCall(m.dest, m.sender) == m;
    JoinTaken(n, m.dest, m.sender);
    StepKeeps(s0, s, Deliver(m, true));
    RunKeeps(s0, t, later, s');
    assert t.nodes[m.dest] == Recv(n, m, true).0;
    assert Grows(t.nodes[m.dest].table, s'.nodes[m.dest].table);
  }

  // ---------- what a query asks for ----------

  /** Every GET_PEERS call carries the key of the node that sent it. */
  ghost predicate KeysCarried(s0: State, s: State) {
    forall m :: m in s.sent && m.GetPeersCall? ==> m.sender in s0.nodes && m.hash == s0.nodes[m.sender].key
  }

  lemma RecvCarries(n: Node, m: Message, replied: bool)
    ensures forall t :: t in Recv(n, m, replied).1 && t.GetPeersCall? ==> t.sender == n.at && t.hash == n.key
  {
    hide Residue, WithPeer, SetAll;
  }

  lemma StepCarries(s0: State, s: State, act: Action)
    requires Consistent(s0, s) && KeysCarried(s0, s) && Enabled(s, act)
    ensures KeysCarried(s0, Apply(s, act))
  {
    hide Tidy, Recv;
    match act
    case Start(a) =>
    case Deliver(m, replied) => RecvCarries(s.nodes[m.dest], m, replied);
    case Lose(_) =>
    case TimeOut(_) =>
  }

  lemma {:induction false} RunCarries(s0: State, s: State, acts: seq<Action>, s': State)
    requires Consistent(s0, s) && NothingInvented(s0, s) && KeysCarried(s0, s) && Run(s, acts, s')
    ensures KeysCarried(s0, s')
    decreases |acts|
  {
    hide Consistent, NothingInvented, AllGrow, Apply, KeysCarried;
    if acts == [] {
    } else {
      StepKeeps(s0, s, acts[0]);
      StepCarries(s0, s, acts[0]);
      RunCarries(s0, Apply(s, acts[0]), acts[1..], s');
    }
  }

  /** In every run: a GET_PEERS call asks for what its sender looks for. */
  lemma CallsCarryKeys(s0: State, acts: seq<Action>, s: State, m: Message)
    requires Initial(s0) && Run(s0, acts, s) && m in s.sent && m.GetPeersCall?
    ensures m.sender in s0.nodes && m.hash == s0.nodes[m.sender].key
  {
    hide Run, Tidy, NothingInvented;
    StartsConsistent(s0);
    RunCarries(s0, s0, acts, s);
  }
}
