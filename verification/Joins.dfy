/**
 Over every run: whom a JOIN goes to, what a reply to one stands for, and which nodes give up.
 */
module Joins {
  import opened Basics
  import opened Peers
  import opened Neighbours
  import opened Rpc
  import opened Network

  ghost predicate Knows(s: State, a: Address, to: Address) {
    a in s.nodes && exists p :: In(p, s.nodes[a].table) && Place(p) == to
  }

  /** The JOIN that `to` sent has reached some node, and is kept in its table. */
  ghost predicate Recorded(s: State, to: Address) {
    exists b :: JoinCall(b, to) in s.sent && b in s.nodes && In(Joiner(to), s.nodes[b].table)
  }

  ghost predicate JoinsKept(s: State) {
    && (forall m :: m in s.sent && m.JoinCall? ==> Knows(s, m.sender, m.dest))
    && (forall m :: m in s.sent && m.JoinReply? ==> Recorded(s, m.dest))
  }

  lemma InLater(t: Table, t': Table, p: Peer)
    requires Grows(t, t') && In(p, t)
    ensures In(p, t')
  {
    var i :| 0 <= i < MAX_PEER_BUCKETS && p in t[i].peers;
    assert t[i].peers <= t'[i].peers;
  }

  lemma KnowsLater(s: State, s': State, a: Address, to: Address)
    requires Knows(s, a, to) && AllGrow(s, s')
    ensures Knows(s', a, to)
  {
    hide Grows, In;
    var p :| In(p, s.nodes[a].table) && Place(p) == to;
    InLater(s.nodes[a].table, s'.nodes[a].table, p);
  }

  lemma RecordedLater(s: State, s': State, to: Address)
    requires Recorded(s, to) && AllGrow(s, s') && s.sent <= s'.sent
    ensures Recorded(s', to)
  {
    hide Grows, In;
    var b :| JoinCall(b, to) in s.sent && b in s.nodes && In(Joiner(to), s.nodes[b].table);
    InLater(s.nodes[b].table, s'.nodes[b].table, Joiner(to));
    assert JoinCall(b, to) in s'.sent;
  }

  lemma JoinKnows(n: Node)
    ensures forall m :: m in Join(n).0 ==>
                m.JoinCall? && m.sender == n.at && exists p :: In(p, n.table) && Place(p) == m.dest
  {
    hide Residue;
    var peers := PeersOf(n.table, n.key);
    forall m | m in Join(n).0
      ensures m.JoinCall? && m.sender == n.at && exists p :: In(p, n.table) && Place(p) == m.dest
    {
      var i :| 0 <= i < |peers| && m == JoinCall(Place(peers[i]), n.at);
      InBucket(n.table, Residue(n.key), peers[i]);
    }
  }

  /** A JOIN is sent only to a peer in the table, and answered only when its sender is put there. */
  lemma RecvJoins(n: Node, m: Message, replied: bool)
    requires Tidy(n.table)
    ensures var (n', out) := Recv(n, m, replied);
            forall t :: t in out ==>
              && (t.JoinCall? ==> t.sender == n.at && exists p :: In(p, n'.table) && Place(p) == t.dest)
              && (t.JoinReply? ==> m.JoinCall? && t.dest == m.sender && In(Joiner(m.sender), n'.table))
  {
    hide Tidy, In, Residue, WithPeer, SetAll, Join, Query;
    var (n', out) := Recv(n, m, replied);
    match m
    case JoinCall(_, sender) =>
      if replied { Joined(n, sender); }
    case GetPeersReply(_, _, _) => JoinKnows(n.(table := n'.table));
    case GetPeersCall(_, _, _, _) => QuerySays(n, n.key, m.src, m.sender);
    case _ =>
  }

  lemma QuerySays(n: Node, hash: seq<byte>, src: Address, replyTo: Address)
    ensures forall t :: t in Query(n, hash, src, replyTo) ==> t.GetPeersCall?
  {
  }

  lemma Joined(n: Node, sender: Address)
    requires Tidy(n.table)
    ensures In(Joiner(sender), WithPeer(n.table, n.key, Joiner(sender)))
  {
    hide Tidy, WithPeer, Residue;
    SetPeerAppends(n.table, n.key, Joiner(sender));
    assert Joiner(sender) in WithPeer(n.table, n.key, Joiner(sender))[Residue(n.key)].peers;
  }

  /** What a step says about joining. */
  ghost predicate Says(s: State, s': State, out: seq<Message>) {
    && s'.sent == s.sent + out
    && (forall m :: m in out && m.JoinCall? ==> Knows(s', m.sender, m.dest))
    && (forall m :: m in out && m.JoinReply? ==> Recorded(s', m.dest))
  }

  lemma SaysKeeps(s: State, s': State, out: seq<Message>)
    requires JoinsKept(s) && AllGrow(s, s') && Says(s, s', out)
    ensures JoinsKept(s')
  {
    hide AllGrow, Knows, Recorded;
    forall m | m in s'.sent && m.JoinCall? ensures Knows(s', m.sender, m.dest) {
      if m !in out { KnowsLater(s, s', m.sender, m.dest); }
    }
    forall m | m in s'.sent && m.JoinReply? ensures Recorded(s', m.dest) {
      if m !in out { RecordedLater(s, s', m.dest); }
    }
  }

  lemma DeliverSays(s0: State, s: State, m: Message, replied: bool)
    requires Consistent(s0, s) && Enabled(s, Deliver(m, replied))
    ensures Says(s, Apply(s, Deliver(m, replied)), Recv(s.nodes[m.dest], m, replied).1)
  {
    hide Tidy, In, Recv;
    var (n', out) := Recv(s.nodes[m.dest], m, replied);
    var s' := Apply(s, Deliver(m, replied));
    RecvKeeps(s.nodes[m.dest], m, replied);
    RecvJoins(s.nodes[m.dest], m, replied);
    assert s'.nodes[m.dest] == n';
    forall t | t in out && t.JoinReply? ensures Recorded(s', t.dest) {
      assert JoinCall(m.dest, t.dest) == m && m in s.sent && m in s'.sent;
    }
  }

  lemma StepJoins(s0: State, s: State, act: Action)
    requires Consistent(s0, s) && NothingInvented(s0, s) && JoinsKept(s) && Enabled(s, act)
    ensures JoinsKept(Apply(s, act))
  {
    hide NothingInvented, JoinsKept, AllGrow, Recv, Tidy, In, Query, Join;
    var s' := Apply(s, act);
    StepKeeps(s0, s, act);
    match act
    case Start(a) =>
      QuerySays(s.nodes[a], s.nodes[a].key, a, a);
      SaysKeeps(s, s', Query(s.nodes[a], s.nodes[a].key, a, a));
    case Deliver(m, replied) =>
      DeliverSays(s0, s, m, replied);
      SaysKeeps(s, s', Recv(s.nodes[m.dest], m, replied).1);
    case Lose(_) =>
      SaysKeeps(s, s', []);
    case TimeOut(a) =>
      JoinKnows(s.nodes[a]);
      SaysKeeps(s, s', if Join(s.nodes[a]).1 then Join(s.nodes[a]).0 else []);
  }

  lemma {:induction false} RunJoins(s0: State, s: State, acts: seq<Action>, s': State)
    requires Consistent(s0, s) && NothingInvented(s0, s) && JoinsKept(s) && Run(s, acts, s')
    ensures JoinsKept(s')
    decreases |acts|
  {
    hide Consistent, NothingInvented, AllGrow, Apply, JoinsKept;
    if acts == [] {
    } else {
      StepKeeps(s0, s, acts[0]);
      StepJoins(s0, s, acts[0]);
      RunJoins(s0, Apply(s, acts[0]), acts[1..], s');
    }
  }

  /**
   In every run a JOIN goes only to a peer that its sender has in its table, and whoever is
   sent a reply to a JOIN is, from then on, in the table of a node it sent a JOIN to.
   */
  lemma AcknowledgedJoinsAreKept(s0: State, acts: seq<Action>, s: State, later: seq<Action>, s': State, m: Message)
    requires Initial(s0) && Run(s0, acts, s) && Run(s, later, s') && m in s.sent
    ensures m.JoinCall? ==> Knows(s', m.sender, m.dest)
    ensures m.JoinReply? ==> Recorded(s, m.dest) && Recorded(s', m.dest)
  {
    hide Run, Tidy, Knows, Recorded, NothingInvented, AllGrow;
    StartsConsistent(s0);
    RunKeeps(s0, s0, acts, s);
    RunJoins(s0, s0, acts, s);
    RunKeeps(s0, s, later, s');
    if m.JoinCall? { KnowsLater(s, s', m.sender, m.dest); }
    if m.JoinReply? {
      SentGrows(s, later, s');
      RecordedLater(s, s', m.dest);
    }
  }

  lemma {:induction false} SentGrows(s: State, acts: seq<Action>, s': State)
    requires Run(s, acts, s')
    ensures s.sent <= s'.sent
    decreases |acts|
  {
    hide Recv;
    if acts == [] {
    } else {
      SentGrows(Apply(s, acts[0]), acts[1..], s');
    }
  }

  // ---------- waiting and giving up ----------

  /** A node has exited only without a peer, and stopped waiting only with one or with nobody to ask. */
  ghost predicate Patient(s: State, a: Address) {
    a in s.nodes ==>
      var n := s.nodes[a];
      && (a in s.exited ==> PeersOf(n.table, n.key) == [])
      && (a in s.started && !n.waiting ==> n.neighbours == [] || exists p :: In(p, n.table))
  }

  lemma RecvPatient(n: Node, m: Message, replied: bool)
    requires Tidy(n.table)
    ensures var n' := Recv(n, m, replied).0;
            !n'.waiting ==> !n.waiting || n.neighbours == [] || exists p :: In(p, n'.table)
  {
    hide Tidy, In, Residue, WithPeer, Query, Join, JoinCalls;
    match m
    case GetPeersCall(_, _, _, hash) =>
      BucketFound(n, m);
      var known := PeersOf(n.table, hash);
      if known != [] { InBucket(n.table, Residue(hash), known[0]); }
    case GetPeersReply(dest, ok, peers) =>
      if ok && peers != [] {
        ReplyTaken(n, dest, peers, replied);
        var n' := Recv(n, m, replied).0;
        assert n'.table[Residue(n.key)].peers[|PeersOf(n.table, n.key)|] == peers[0];
        InBucket(n'.table, Residue(n.key), peers[0]);
      }
    case _ =>
  }

  lemma StepPatient(s0: State, s: State, act: Action, a: Address)
    requires Consistent(s0, s) && NothingInvented(s0, s) && Patient(s, a) && Enabled(s, act)
    ensures Patient(Apply(s, act), a)
  {
    hide NothingInvented, AllGrow, Recv, Tidy, In, Query, Residue, Grows;
    if act.Deliver? && act.msg.dest == a {
      var n := s.nodes[a];
      RecvKeeps(n, act.msg, act.replied);
      RecvPatient(n, act.msg, act.replied);
      if exists p :: In(p, n.table) {
        var p :| In(p, n.table);
        InLater(n.table, Recv(n, act.msg, act.replied).0.table, p);
      }
    } else if act == TimeOut(a) {
      LookupFinds(s.nodes[a].table, s.nodes[a].key);
    }
  }

  lemma {:induction false} RunPatient(s0: State, s: State, acts: seq<Action>, s': State, a: Address)
    requires Consistent(s0, s) && NothingInvented(s0, s) && Patient(s, a) && Run(s, acts, s')
    ensures Patient(s', a)
    decreases |acts|
  {
    hide Consistent, NothingInvented, AllGrow, Apply, Patient;
    if acts == [] {
    } else {
      StepKeeps(s0, s, acts[0]);
      StepPatient(s0, s, acts[0], a);
      RunPatient(s0, Apply(s, acts[0]), acts[1..], s', a);
    }
  }

  /** In every run a node gives up only when it knows no peer, and waits until it knows one. */
  lemma OnlyPeerlessExit(s0: State, acts: seq<Action>, s: State, a: Address)
    requires Initial(s0) && Run(s0, acts, s) && a in s.nodes
    ensures a in s.exited ==> PeersOf(s.nodes[a].table, s.nodes[a].key) == []
    ensures a in s.started && !s.nodes[a].waiting ==> s.nodes[a].neighbours == [] || exists p :: In(p, s.nodes[a].table)
  {
    hide Run, Tidy, In, NothingInvented;
    StartsConsistent(s0);
    assert Patient(s0, a);
    RunPatient(s0, s0, acts, s, a);
  }
}
