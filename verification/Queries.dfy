/**
 The queries of a run: each is one message that walks from node to node, never straight back,
 and is answered at most once. Where the neighbours form no cycle the walk is a simple path.
 */
module Queries {
  import opened Basics
  import opened Peers
  import opened Neighbours
  import opened Rpc
  import opened Network

  /** A message of the query that `a` started. */
  predicate Token(m: Message, a: Address) {
    (m.GetPeersCall? && m.src == a) || (m.GetPeersReply? && m.dest == a)
  }

  /** The history of `a`'s query. */
  function Tokens(sent: seq<Message>, a: Address): seq<Message> {
    if sent == [] then []
    else Tokens(sent[..|sent| - 1], a) + if Token(sent[|sent| - 1], a) then [sent[|sent| - 1]] else []
  }

  lemma {:induction false} TokensJoin(s: seq<Message>, t: seq<Message>, a: Address)
    ensures Tokens(s + t, a) == Tokens(s, a) + Tokens(t, a)
    decreases |t|
  {
    if t == [] {
      assert s + t == s;
    } else {
      TokensJoin(s, t[..|t| - 1], a);
      assert (s + t)[..|s + t| - 1] == s + t[..|t| - 1];
    }
  }

  lemma {:induction false} TokensNone(s: seq<Message>, a: Address)
    requires forall m :: m in s ==> !Token(m, a)
    ensures Tokens(s, a) == []
    decreases |s|
  {
    if s == [] {
    } else {
      TokensNone(s[..|s| - 1], a);
    }
  }

  lemma TokensOne(m: Message, a: Address)
    ensures Tokens([m], a) == if Token(m, a) then [m] else []
  {
    assert [m][..0] == [];
  }

  // ---------- one hop ----------

  ghost predicate Adjacent(nodes: map<Address, Node>, u: Address, v: Address) {
    u in nodes && exists i :: 0 <= i < |nodes[u].neighbours| && nodes[u].neighbours[i].at == v
  }

  /** The call that starts the query. */
  ghost predicate First(nodes: map<Address, Node>, m: Message, a: Address) {
    m.GetPeersCall? && m.src == a && m.sender == a
    && a in nodes && Forward(nodes[a].neighbours, a) == Some(m.dest)
  }

  /** The call `m` is passed on to the nearest neighbour but the one it came from, or its source is answered. */
  ghost predicate Hop(nodes: map<Address, Node>, m: Message, m': Message) {
    && m.GetPeersCall? && m.dest in nodes
    && (m'.GetPeersReply? || m'.GetPeersCall?)
    && (m'.GetPeersReply? ==> m'.dest == m.src)
    && (m'.GetPeersCall? ==>
          && m'.src == m.src && m'.sender == m.dest
          && Forward(nodes[m.dest].neighbours, m.sender) == Some(m'.dest))
  }

  ghost predicate Chain(nodes: map<Address, Node>, c: seq<Message>, a: Address) {
    && (c != [] ==> First(nodes, c[0], a))
    && forall k, l :: 0 <= k && l == k + 1 < |c| ==> Hop(nodes, c[k], c[l])
  }

  /** The answer holds what the node that gave it knows, and is empty only where the query cannot go on. */
  ghost predicate Answers(n: Node, m: Message, r: Message) {
    m.GetPeersCall? && r.GetPeersReply? ==>
      r.peers <= PeersOf(n.table, m.hash) && (r.peers != [] || n.neighbours == [])
  }

  lemma QueryHops(nodes: map<Address, Node>, n: Node, hash: seq<byte>, src: Address, replyTo: Address)
    requires n.at in nodes && SameNode(nodes[n.at], n)
    ensures var out := Query(n, hash, src, replyTo);
            out == [] || (|out| == 1 && out[0].GetPeersCall? && out[0].src == src && out[0].sender == n.at
                          && Forward(nodes[n.at].neighbours, replyTo) == Some(out[0].dest))
  {
  }

  /** Only a call of the query gives rise to a message of the query, and to one at most. */
  lemma RecvPasses(nodes: map<Address, Node>, n: Node, m: Message, replied: bool, a: Address)
    requires n.at == m.dest && n.at in nodes && SameNode(nodes[n.at], n) && Tidy(n.table)
    ensures var (n', out) := Recv(n, m, replied);
            if m.GetPeersCall? && m.src == a
            then |out| <= 1 && (out != [] ==> Token(out[0], a) && Hop(nodes, m, out[0]) && Answers(n', m, out[0]))
            else forall t :: t in out ==> !Token(t, a)
  {
    hide Tidy, Residue, SetAll, WithPeer, Adjacent, Query;
    if m.GetPeersCall? {
      BucketFound(n, m);
      QueryHops(nodes, n, n.key, m.src, m.sender);
    }
  }

  // ---------- what every step keeps ----------

  /** At most the latest message of `a`'s query is in flight, once. */
  ghost predicate Single(s: State, c: seq<Message>, a: Address) {
    forall m :: m in s.net && Token(m, a) ==> c != [] && m == c[|c| - 1] && s.net[m] == 1
  }

  ghost predicate Answered(s: State, c: seq<Message>) {
    |c| >= 2 && c[|c| - 2].GetPeersCall? && c[|c| - 2].dest in s.nodes ==>
      Answers(s.nodes[c[|c| - 2].dest], c[|c| - 2], c[|c| - 1])
  }

  ghost predicate Walking(s0: State, s: State, a: Address) {
    var c := Tokens(s.sent, a);
    Chain(s0.nodes, c, a) && Single(s, c, a) && Answered(s, c) && (a !in s.started ==> c == [])
  }

  /** A step that has no part in the query. */
  lemma Aside(s0: State, s: State, s': State, a: Address, out: seq<Message>)
    requires Walking(s0, s, a) && AllGrow(s, s') && s'.sent == s.sent + out && s'.net <= s.net + multiset(out)
    requires forall b :: b in s.nodes ==> s.nodes[b].neighbours == s'.nodes[b].neighbours
    requires forall m :: m in out ==> !Token(m, a)
    requires s.started <= s'.started
    ensures Walking(s0, s', a)
  {
    hide Chain, Token, Tokens;
    TokensJoin(s.sent, out, a);
    TokensNone(out, a);
    var c := Tokens(s.sent, a);
    assert c + [] == c;
    forall m | m in s'.net && Token(m, a) ensures c != [] && m == c[|c| - 1] && s'.net[m] == 1 {
      assert m !in out;
      assert multiset(out)[m] == 0;
    }
    if |c| >= 2 && c[|c| - 2].GetPeersCall? && c[|c| - 2].dest in s.nodes {
      var m := c[|c| - 2];
      GrowsAt(s, s', m.dest, m.hash);
    }
  }

  lemma GrowsAt(s: State, s': State, b: Address, hash: seq<byte>)
    requires AllGrow(s, s') && b in s.nodes
    ensures PeersOf(s.nodes[b].table, hash) <= PeersOf(s'.nodes[b].table, hash)
  {
    hide Residue;
  }

  /** The query's next message, when none of its messages is left in flight. */
  lemma Onward(s0: State, s: State, s': State, a: Address, m': Message)
    requires Chain(s0.nodes, Tokens(s.sent, a) + [m'], a) && Token(m', a)
    requires forall m :: m in s.net ==> !Token(m, a)
    requires s'.sent == s.sent + [m'] && s'.net == s.net + multiset{m'} && a in s'.started
    requires Answered(s', Tokens(s.sent, a) + [m'])
    ensures Walking(s0, s', a)
  {
    hide Chain, Answered, Token, Tokens;
    TokensJoin(s.sent, [m'], a);
    TokensOne(m', a);
  }

  lemma Extend(nodes: map<Address, Node>, c: seq<Message>, a: Address, m': Message)
    requires Chain(nodes, c, a)
    requires if c == [] then First(nodes, m', a) else Hop(nodes, c[|c| - 1], m')
    ensures Chain(nodes, c + [m'], a)
  {
    hide First, Hop;
  }

  lemma StartWalks(s0: State, s: State, a: Address, b: Address)
    requires Consistent(s0, s) && Enabled(s, Start(b)) && Walking(s0, s, a)
    requires AllGrow(s, Apply(s, Start(b)))
    ensures Walking(s0, Apply(s, Start(b)), a)
  {
    hide Tidy, Query, Adjacent, AllGrow, Hop, Tokens, Answers;
    var s', n := Apply(s, Start(b)), s.nodes[b];
    var out := Query(n, n.key, b, b);
    QueryHops(s0.nodes, n, n.key, b, b);
    if a != b || out == [] {
      Aside(s0, s, s', a, out);
    } else {
      assert out == [out[0]];
      assert Tokens(s.sent, a) == [];
      Extend(s0.nodes, [], a, out[0]);
      Onward(s0, s, s', a, out[0]);
    }
  }

  lemma DeliverWalks(s0: State, s: State, a: Address, m: Message, replied: bool)
    requires Consistent(s0, s) && Enabled(s, Deliver(m, replied)) && Walking(s0, s, a)
    requires AllGrow(s, Apply(s, Deliver(m, replied)))
    ensures Walking(s0, Apply(s, Deliver(m, replied)), a)
  {
    hide Tidy, Recv, Adjacent, AllGrow, Hop, Tokens, Answers, Walking, Token;
    var s', n := Apply(s, Deliver(m, replied)), s.nodes[m.dest];
    var (n', out) := Recv(n, m, replied);
    RecvPasses(s0.nodes, n, m, replied, a);
    RecvKeeps(n, m, replied);
    if m.GetPeersCall? && m.src == a && out != [] {
      assert out == [out[0]];
      PassedOn(s0, s, s', a, m, out[0]);
    } else {
      Aside(s0, s, s', a, out);
    }
  }

  lemma PassedOn(s0: State, s: State, s': State, a: Address, m: Message, m': Message)
    requires Walking(s0, s, a) && m in s.net && m.GetPeersCall? && m.src == a && Token(m', a)
    requires s'.net == s.net - multiset{m} + multiset{m'} && s'.sent == s.sent + [m'] && s'.started == s.started
    requires Hop(s0.nodes, m, m') && (m.dest in s'.nodes ==> Answers(s'.nodes[m.dest], m, m'))
    ensures Walking(s0, s', a)
  {
    hide Adjacent, Hop, Tokens, Answers, Chain;
    var c := Tokens(s.sent, a);
    assert Token(m, a) && m == c[|c| - 1];
    Extend(s0.nodes, c, a, m');
    forall t | t in s.net - multiset{m} ensures !Token(t, a) { assert t in s.net; }
    Onward(s0, s.(net := s.net - multiset{m}), s', a, m');
  }

  lemma StepWalks(s0: State, s: State, act: Action, a: Address)
    requires Consistent(s0, s) && Enabled(s, act) && Walking(s0, s, a)
    requires AllGrow(s, Apply(s, act))
    ensures Walking(s0, Apply(s, act), a)
  {
    hide Walking, Consistent, AllGrow;
    match act
    case Start(b) => StartWalks(s0, s, a, b);
    case Deliver(m, replied) => DeliverWalks(s0, s, a, m, replied);
    case Lose(m) => Aside(s0, s, Apply(s, act), a, []);
    case TimeOut(b) =>
      var (out, anyone) := Join(s.nodes[b]);
      Aside(s0, s, Apply(s, act), a, if anyone then out else []);
  }

  lemma {:induction false} RunWalks(s0: State, s: State, acts: seq<Action>, s': State, a: Address)
    requires Consistent(s0, s) && NothingInvented(s0, s) && Walking(s0, s, a) && Run(s, acts, s')
    ensures Walking(s0, s', a)
    decreases |acts|
  {
    hide Consistent, NothingInvented, AllGrow, Apply, Walking;
    if acts == [] {
    } else {
      StepKeeps(s0, s, acts[0]);
      StepWalks(s0, s, acts[0], a);
      RunWalks(s0, Apply(s, acts[0]), acts[1..], s', a);
    }
  }

  /**
   In every run, with any number of queries under way: of the query that `a` started at most
   one message is in flight; its messages in order are a first call, calls each passed on by
   the receiver of the one before to its first neighbour but the sender, all naming `a` as their source,
   and perhaps one reply, which is last, goes to `a` and says what its sender knows.
   */
  lemma SingleToken(s0: State, acts: seq<Action>, s: State, a: Address)
    requires Initial(s0) && Run(s0, acts, s)
    ensures forall m :: m in s.net && Token(m, a) ==> s.net[m] == 1 && forall t :: t in s.net && Token(t, a) ==> t == m
    ensures var c := Tokens(s.sent, a);
            && Chain(s0.nodes, c, a) && Answered(s, c)
            && forall k :: 0 <= k < |c| - 1 ==> c[k].GetPeersCall? && c[k].src == a
  {
    hide Run, Tidy;
    StartsConsistent(s0);
    assert Walking(s0, s0, a);
    RunWalks(s0, s0, acts, s, a);
    ChainNames(s0.nodes, Tokens(s.sent, a), a);
  }

  /** Where all nodes look for one key, an answer is the beginning of what its sender holds under that key. */
  lemma AnsweredUnderKey(s0: State, acts: seq<Action>, s: State, a: Address, key: seq<byte>)
    requires Initial(s0) && Run(s0, acts, s) && forall b :: b in s0.nodes ==> s0.nodes[b].key == key
    ensures var c := Tokens(s.sent, a);
            |c| > 0 && c[|c| - 1].GetPeersReply? ==>
              && |c| > 1 && c[|c| - 2].GetPeersCall? && c[|c| - 2].hash == key && c[|c| - 2].dest in s.nodes
              && c[|c| - 1].peers <= PeersOf(s.nodes[c[|c| - 2].dest].table, key)
  {
    hide Run, Tidy, Residue, Forward, NothingInvented;
    SingleToken(s0, acts, s, a);
    StartsConsistent(s0);
    RunKeeps(s0, s0, acts, s);
    var c := Tokens(s.sent, a);
    if |c| > 0 && c[|c| - 1].GetPeersReply? {
      assert |c| > 1 && Hop(s0.nodes, c[|c| - 2], c[|c| - 1]);
      TokensSent(s.sent, a);
      assert c[|c| - 2] in s.sent;
      CallsCarryKeys(s0, acts, s, c[|c| - 2]);
    }
  }

  lemma {:induction false} TokensSent(sent: seq<Message>, a: Address)
    ensures forall m :: m in Tokens(sent, a) ==> m in sent
    decreases |sent|
  {
    if sent == [] {
    } else {
      TokensSent(sent[..|sent| - 1], a);
    }
  }

  lemma {:induction false} ChainNames(nodes: map<Address, Node>, c: seq<Message>, a: Address)
    requires Chain(nodes, c, a)
    ensures forall k :: 0 <= k < |c| - 1 ==> c[k].GetPeersCall? && c[k].src == a
    decreases |c|
  {
    hide Adjacent;
    if |c| > 1 {
      var front := c[..|c| - 1];
      ChainNames(nodes, front, a);
      assert Hop(nodes, c[|c| - 2], c[|c| - 1]);
      if |c| > 2 { assert Hop(nodes, c[|c| - 3], c[|c| - 2]); }
    }
  }

  // ---------- the path ----------

  /** The calls of a query. */
  function Calls(c: seq<Message>): seq<Message> {
    if c != [] && c[|c| - 1].GetPeersReply? then c[..|c| - 1] else c
  }

  /** The addresses a query has been at. */
  function Visited(calls: seq<Message>, a: Address): seq<Address> {
    [a] + seq(|calls|, i requires 0 <= i < |calls| => calls[i].dest)
  }

  ghost predicate Distinct<T>(w: seq<T>) {
    forall i, j :: 0 <= i < j < |w| ==> w[i] != w[j]
  }

  ghost predicate Walk(nodes: map<Address, Node>, w: seq<Address>) {
    && (forall i, j :: 0 <= i && j == i + 1 < |w| ==> Adjacent(nodes, w[i], w[j]))
    && (forall i, j :: 0 <= i && j == i + 2 < |w| ==> w[i] != w[j])
  }

  ghost predicate Cycle(nodes: map<Address, Node>, w: seq<Address>) {
    && w != [] && |w| != 2 && Distinct(w)
    && (forall i, j :: 0 <= i && j == i + 1 < |w| ==> Adjacent(nodes, w[i], w[j]))
    && Adjacent(nodes, w[|w| - 1], w[0])
  }

  /** Being neighbours of each other does not count as a cycle. */
  ghost predicate Acyclic(nodes: map<Address, Node>) {
    forall w :: !Cycle(nodes, w)
  }

  ghost predicate Closed(nodes: map<Address, Node>) {
    forall u, v :: Adjacent(nodes, u, v) ==> v in nodes
  }

  lemma Closes(nodes: map<Address, Node>, w: seq<Address>, i: nat)
    requires i < |w| - 1 && Walk(nodes, w) && Distinct(w[..|w| - 1]) && w[i] == w[|w| - 1]
    ensures Cycle(nodes, w[i..|w| - 1])
  {
    hide Adjacent;
    var front, c := w[..|w| - 1], w[i..|w| - 1];
    assert forall k :: 0 <= k < |c| ==> c[k] == front[i + k];
    assert Adjacent(nodes, w[|w| - 2], w[|w| - 1]);
  }

  lemma {:induction false} WalkIsPath(nodes: map<Address, Node>, w: seq<Address>)
    requires Acyclic(nodes) && Walk(nodes, w)
    ensures Distinct(w)
    decreases |w|
  {
    hide Adjacent;
    if w == [] {
    } else {
      var n := |w| - 1;
      WalkIsPath(nodes, w[..n]);
      forall i | 0 <= i < n ensures w[i] != w[n] {
        if w[i] == w[n] {
          Closes(nodes, w, i);
        }
      }
      forall i, j | 0 <= i < j < |w| ensures w[i] != w[j] {
        if j < n { assert w[..n][i] != w[..n][j]; }
      }
    }
  }

  lemma {:induction false} DistinctFits<T>(w: seq<T>, all: set<T>)
    requires Distinct(w) && forall i :: 0 <= i < |w| ==> w[i] in all
    ensures |w| <= |all|
    decreases |w|
  {
    if w == [] {
    } else {
      var n := |w| - 1;
      DistinctFits(w[..n], all - {w[n]});
    }
  }

  lemma Leads(nodes: map<Address, Node>, u: Address, from: Address, v: Address)
    requires u in nodes && Forward(nodes[u].neighbours, from) == Some(v)
    ensures Adjacent(nodes, u, v) && v != from
  {
  }

  lemma ChainWalks(nodes: map<Address, Node>, c: seq<Message>, a: Address)
    requires Chain(nodes, c, a)
    ensures Walk(nodes, Visited(Calls(c), a))
  {
    hide Adjacent;
    var w, calls := Visited(Calls(c), a), Calls(c);
    ChainNames(nodes, c, a);
    forall k | 0 <= k < |calls|
      ensures calls[k].GetPeersCall? && calls[k].sender == w[k] && Adjacent(nodes, w[k], w[k + 1])
    {
      if k > 0 {
        assert Hop(nodes, c[k - 1], c[k]);
        Leads(nodes, w[k], if k == 1 then a else w[k - 1], w[k + 1]);
      } else {
        Leads(nodes, a, a, w[1]);
      }
    }
    forall i, j | 0 <= i && j == i + 2 < |w| ensures w[i] != w[j] {
      assert Hop(nodes, c[i], c[i + 1]);
      Leads(nodes, w[i + 1], w[i], w[j]);
    }
  }

  /**
   Where the neighbours form no cycle, every query visits each node at most once, in every
   run. It makes no more hops than there are nodes, and fewer if every neighbour is a node.
   */
  lemma QueryIsSimplePath(s0: State, acts: seq<Action>, s: State, a: Address)
    requires Initial(s0) && Run(s0, acts, s) && a in s0.nodes && Acyclic(s0.nodes)
    ensures var calls := Calls(Tokens(s.sent, a));
            && Distinct(Visited(calls, a)) && |calls| <= |s0.nodes|
            && (Closed(s0.nodes) ==> |calls| < |s0.nodes|)
  {
    hide Run, Adjacent, Initial, Tokens, Chain, Answered, Acyclic;
    SingleToken(s0, acts, s, a);
    var c := Tokens(s.sent, a);
    ChainWalks(s0.nodes, c, a);
    var w := Visited(Calls(c), a);
    WalkIsPath(s0.nodes, w);
    forall i | 0 <= i < |w| - 1 ensures w[i] in s0.nodes.Keys { Departs(s0.nodes, w, i); }
    DistinctFits(w[..|w| - 1], s0.nodes.Keys);
    assert |s0.nodes.Keys| == |s0.nodes|;
    if Closed(s0.nodes) {
      if |w| > 1 { assert Adjacent(s0.nodes, w[|w| - 2], w[|w| - 1]); }
      DistinctFits(w, s0.nodes.Keys);
    }
  }

  lemma Departs(nodes: map<Address, Node>, w: seq<Address>, i: nat)
    requires Walk(nodes, w) && i + 1 < |w|
    ensures w[i] in nodes
  {
    assert Adjacent(nodes, w[i], w[i + 1]);
  }

  // ---------- how far a query can go ----------

  /** A query that is at `u`, and came from `from`, has `k` more hops before it. */
  predicate CanGo(nodes: map<Address, Node>, u: Address, from: Address, k: nat)
    decreases k
  {
    k == 0 ||
    (&& u in nodes && Forward(nodes[u].neighbours, from).Some?
     && CanGo(nodes, Forward(nodes[u].neighbours, from).value, u, k - 1))
  }

  ghost predicate NoPeers(nodes: map<Address, Node>) {
    forall a, i :: a in nodes && 0 <= i < MAX_PEER_BUCKETS ==> nodes[a].table[i].peers == []
  }

  /** A run with `k` calls of `a`'s query. */
  ghost predicate Goes(s: State, a: Address, k: nat) {
    exists acts, s' :: Run(s, acts, s') && |Calls(Tokens(s'.sent, a))| == k
  }

  /** A call of `a`'s query is in flight, and every node is as it was, but for waiting. */
  ghost predicate Midway(s0: State, s: State, a: Address, m: Message) {
    && Consistent(s0, s) && NoPeers(s.nodes) && s.exited == {}
    && m in s.net && m.GetPeersCall? && m.src == a
    && Tokens(s.sent, a) != [] && Tokens(s.sent, a)[|Tokens(s.sent, a)| - 1] == m
  }

  lemma Passes(s0: State, s: State, a: Address, m: Message) returns (s': State, m': Message)
    requires Midway(s0, s, a, m) && m.dest in s0.nodes
    requires Forward(s0.nodes[m.dest].neighbours, m.sender).Some?
    ensures Enabled(s, Deliver(m, true)) && s' == Apply(s, Deliver(m, true)) && Midway(s0, s', a, m')
    ensures m'.dest == Forward(s0.nodes[m.dest].neighbours, m.sender).value && m'.sender == m.dest
    ensures |Tokens(s'.sent, a)| == |Tokens(s.sent, a)| + 1
  {
    hide Residue, Tokens, Lookup;
    var n := s.nodes[m.dest];
    LookupFinds(n.table, m.hash);
    BucketFound(n, m);
    var next := Forward(n.neighbours, m.sender).value;
    m' := GetPeersCall(next, n.at, m.src, n.key);
    s' := Apply(s, Deliver(m, true));
    assert s'.sent == s.sent + [m'];
    TokensJoin(s.sent, [m'], a);
    TokensOne(m', a);
  }

  lemma {:induction false} GoesOn(s0: State, s: State, a: Address, m: Message, k: nat)
    requires Midway(s0, s, a, m) && CanGo(s0.nodes, m.dest, m.sender, k)
    ensures Goes(s, a, |Tokens(s.sent, a)| + k)
    decreases k
  {
    hide Midway, Tokens, Apply, Enabled;
    var c := Tokens(s.sent, a);
    if k == 0 {
      EndsWith(s0, s, a, m);
      assert Run(s, [], s);
    } else {
      var s', m' := Passes(s0, s, a, m);
      GoesOn(s0, s', a, m', k - 1);
      Before(s, Deliver(m, true), a, |c| + k);
    }
  }

  lemma EndsWith(s0: State, s: State, a: Address, m: Message)
    requires Midway(s0, s, a, m)
    ensures |Calls(Tokens(s.sent, a))| == |Tokens(s.sent, a)|
  {
    hide Tokens;
  }

  lemma Before(s: State, act: Action, a: Address, k: nat)
    requires Enabled(s, act) && Goes(Apply(s, act), a, k)
    ensures Goes(s, a, k)
  {
    hide Apply, Enabled, Tokens, Calls;
    var acts, s' :| Run(Apply(s, act), acts, s') && |Calls(Tokens(s'.sent, a))| == k;
    assert ([act] + acts)[1..] == acts;
    assert Run(s, [act] + acts, s');
  }

  lemma GoesThatFar(s0: State, a: Address, k: nat)
    requires Initial(s0) && NoPeers(s0.nodes) && a in s0.nodes && CanGo(s0.nodes, a, a, k)
    ensures Goes(s0, a, k)
  {
    hide Tidy, Tokens, Calls, Run, NothingInvented, AllGrow, Goes;
    if k == 0 {
      TokensNone([], a);
      Nothing(s0, a);
    } else {
      var n := s0.nodes[a];
      var s := Apply(s0, Start(a));
      var m := GetPeersCall(Forward(n.neighbours, a).value, a, a, n.key);
      TokensOne(m, a);
      assert s.sent == [m];
      StartsConsistent(s0);
      StepKeeps(s0, s0, Start(a));
      assert NoPeers(s.nodes) && Midway(s0, s, a, m);
      GoesOn(s0, s, a, m, k - 1);
      Before(s0, Start(a), a, k);
    }
  }

  lemma Nothing(s: State, a: Address)
    requires Tokens(s.sent, a) == []
    ensures Goes(s, a, 0)
  {
    hide Tokens;
    assert Run(s, [], s);
  }

  lemma {:induction false} ChainCanGo(nodes: map<Address, Node>, c: seq<Message>, a: Address, i: nat)
    requires Chain(nodes, c, a) && i < |Calls(c)|
    ensures Calls(c)[i].GetPeersCall? && CanGo(nodes, Calls(c)[i].dest, Calls(c)[i].sender, |Calls(c)| - 1 - i)
    decreases |c| - i
  {
    hide Forward;
    ChainNames(nodes, c, a);
    if i + 1 < |Calls(c)| {
      ChainCanGo(nodes, c, a, i + 1);
      assert Hop(nodes, c[i], c[i + 1]);
    } else if i > 0 {
      assert Hop(nodes, c[i - 1], c[i]);
    }
  }

  /** From empty tables some run takes `a`'s query `k` hops exactly when the neighbours lead on that far. */
  lemma QueryLength(s0: State, a: Address, k: nat)
    requires Initial(s0) && NoPeers(s0.nodes) && a in s0.nodes
    ensures Goes(s0, a, k) <==> CanGo(s0.nodes, a, a, k)
  {
    hide Run, Initial, NoPeers, Chain, Calls, Tokens;
    if CanGo(s0.nodes, a, a, k) { GoesThatFar(s0, a, k); }
    if Goes(s0, a, k) && k > 0 {
      var acts, s :| Run(s0, acts, s) && |Calls(Tokens(s.sent, a))| == k;
      SingleToken(s0, acts, s, a);
      ChainCanGo(s0.nodes, Tokens(s.sent, a), a, 0);
      Sets(s0.nodes, Tokens(s.sent, a), a);
    }
  }

  lemma Sets(nodes: map<Address, Node>, c: seq<Message>, a: Address)
    requires Chain(nodes, c, a) && Calls(c) != []
    ensures Calls(c)[0] == c[0] && First(nodes, c[0], a)
  {
  }

  /** Where a query is, and where it came from, `i` hops on. */
  function At(nodes: map<Address, Node>, u: Address, from: Address, i: nat): (Address, Address)
    requires CanGo(nodes, u, from, i)
    decreases i
  {
    if i == 0 then (u, from) else At(nodes, Forward(nodes[u].neighbours, from).value, u, i - 1)
  }

  lemma {:induction false} GoesBeyond(nodes: map<Address, Node>, u: Address, from: Address, i: nat, k: nat)
    requires CanGo(nodes, u, from, i)
    ensures var (v, w) := At(nodes, u, from, i);
            && CanGo(nodes, u, from, i + k) == CanGo(nodes, v, w, k)
            && (CanGo(nodes, v, w, k) ==> At(nodes, u, from, i + k) == At(nodes, v, w, k))
    decreases i
  {
    if i == 0 {
    } else {
      GoesBeyond(nodes, Forward(nodes[u].neighbours, from).value, u, i - 1, k);
    }
  }

  lemma {:induction false} GoesLess(nodes: map<Address, Node>, u: Address, from: Address, i: nat, k: nat)
    requires CanGo(nodes, u, from, k) && i <= k
    ensures CanGo(nodes, u, from, i)
    decreases i
  {
    if i == 0 {
    } else {
      GoesLess(nodes, Forward(nodes[u].neighbours, from).value, u, i - 1, k - 1);
    }
  }

  /** A query that comes back to where it was, from where it came, never ends. */
  lemma {:induction false} GoesRound(nodes: map<Address, Node>, u: Address, from: Address, p: nat, k: nat)
    requires p > 0 && CanGo(nodes, u, from, p) && At(nodes, u, from, p) == (u, from)
    ensures CanGo(nodes, u, from, k)
    decreases k
  {
    if k <= p {
      GoesLess(nodes, u, from, k, p);
    } else {
      GoesRound(nodes, u, from, p, k - p);
      GoesBeyond(nodes, u, from, p, k - p);
    }
  }

  lemma {:induction false} StaysAmong(nodes: map<Address, Node>, u: Address, from: Address, i: nat)
    requires CanGo(nodes, u, from, i + 1) && from in nodes
    ensures CanGo(nodes, u, from, i)
    ensures var (v, w) := At(nodes, u, from, i); v in nodes && w in nodes
    decreases i
  {
    GoesLess(nodes, u, from, i, i + 1);
    if i == 0 {
    } else {
      StaysAmong(nodes, Forward(nodes[u].neighbours, from).value, u, i - 1);
    }
  }

  ghost function Pairs<T>(a: set<T>, b: set<T>): set<(T, T)> {
    set x, y | x in a && y in b :: (x, y)
  }

  lemma {:induction false} PairsCount<T>(a: set<T>, b: set<T>)
    ensures |Pairs(a, b)| == |a| * |b|
    decreases |a|
  {
    hide Pairs;
    if a == {} {
      NoPairs(b);
    } else {
      var x :| x in a;
      var rest := a - {x};
      PairsCount(rest, b);
      PairsOfOne(x, b);
      PairsSplit(x, rest, b);
      assert a == rest + {x};
      assert |a| * |b| == |rest| * |b| + |b|;
    }
  }

  lemma NoPairs<T>(b: set<T>)
    ensures Pairs({}, b) == {}
  {
  }

  lemma PairsSplit<T>(x: T, rest: set<T>, b: set<T>)
    requires x !in rest
    ensures Pairs(rest + {x}, b) == Pairs(rest, b) + Pairs({x}, b)
    ensures |Pairs(rest + {x}, b)| == |Pairs(rest, b)| + |Pairs({x}, b)|
  {
    assert Pairs(rest, b) !! Pairs({x}, b);
  }

  lemma {:induction false} PairsOfOne<T>(x: T, b: set<T>)
    ensures |Pairs({x}, b)| == |b|
    decreases |b|
  {
    if b == {} {
      assert Pairs({x}, b) == {};
    } else {
      var y :| y in b;
      PairsOfOne(x, b - {y});
      assert Pairs({x}, b) == Pairs({x}, b - {y}) + {(x, y)};
    }
  }

  /** A query never ends if and only if it can make one hop more than there are pairs of nodes. */
  lemma EndlessOrShort(nodes: map<Address, Node>, a: Address)
    requires a in nodes
    ensures (forall k :: CanGo(nodes, a, a, k)) <==> CanGo(nodes, a, a, |nodes| * |nodes| + 1)
  {
    hide CanGo, At;
    var n := |nodes| * |nodes| + 1;
    if CanGo(nodes, a, a, n) {
      var i, j := ComesBack(nodes, a, n);
      var (v, w) := At(nodes, a, a, i);
      GoesBeyond(nodes, a, a, i, j - i);
      forall k ensures CanGo(nodes, a, a, k) {
        GoesRound(nodes, v, w, j - i, k);
        GoesBeyond(nodes, a, a, i, k);
        GoesLess(nodes, a, a, k, i + k);
      }
    }
  }

  lemma ComesBack(nodes: map<Address, Node>, a: Address, n: nat) returns (i: nat, j: nat)
    requires a in nodes && n > |nodes| * |nodes| && CanGo(nodes, a, a, n)
    ensures i < j < n && CanGo(nodes, a, a, i) && CanGo(nodes, a, a, j) && At(nodes, a, a, i) == At(nodes, a, a, j)
  {
    hide CanGo, At, Pairs;
    forall k | 0 <= k < n ensures CanGo(nodes, a, a, k) { GoesLess(nodes, a, a, k, n); }
    var w := seq(n, k requires 0 <= k < n => At(nodes, a, a, k));
    PairsCount(nodes.Keys, nodes.Keys);
    assert |nodes.Keys| == |nodes|;
    forall k | 0 <= k < n ensures w[k] in Pairs(nodes.Keys, nodes.Keys) {
      GoesLess(nodes, a, a, k + 1, n);
      StaysAmong(nodes, a, a, k);
      PairIn(nodes.Keys, w[k]);
    }
    if Distinct(w) { DistinctFits(w, Pairs(nodes.Keys, nodes.Keys)); }
    i, j :| 0 <= i < j < |w| && w[i] == w[j];
  }

  lemma PairIn<T>(all: set<T>, p: (T, T))
    requires p.0 in all && p.1 in all
    ensures p in Pairs(all, all)
  {
  }

  /** So from empty tables there is a finite test for a query that can go on for ever. */
  lemma EndlessQuery(s0: State, a: Address)
    requires Initial(s0) && NoPeers(s0.nodes) && a in s0.nodes
    ensures (forall k :: Goes(s0, a, k)) <==> CanGo(s0.nodes, a, a, |s0.nodes| * |s0.nodes| + 1)
  {
    hide CanGo, Goes, Initial, NoPeers;
    forall k ensures Goes(s0, a, k) <==> CanGo(s0.nodes, a, a, k) { QueryLength(s0, a, k); }
    EndlessOrShort(s0.nodes, a);
    if CanGo(s0.nodes, a, a, |s0.nodes| * |s0.nodes| + 1) {
      forall k ensures Goes(s0, a, k) { assert CanGo(s0.nodes, a, a, k); }
    }
  }

  // ---------- from empty tables ----------

  /** Nobody knows a peer, asks to join one, or tells of one. */
  ghost predicate Peerless(s: State) {
    NoPeers(s.nodes) && forall m :: m in s.sent ==> Mute(m)
  }

  predicate Mute(m: Message) {
    !m.JoinCall? && !m.JoinReply? && (m.GetPeersReply? ==> m.peers == [])
  }

  lemma RecvMute(n: Node, m: Message, replied: bool)
    requires Tidy(n.table) && Mute(m) && forall i :: 0 <= i < MAX_PEER_BUCKETS ==> n.table[i].peers == []
    ensures var (n', out) := Recv(n, m, replied);
            n'.table == n.table && forall t :: t in out ==> Mute(t)
  {
    hide Tidy, Residue;
    if m.GetPeersCall? { BucketFound(n, m); }
  }

  lemma JoinsNobody(n: Node)
    requires Tidy(n.table) && forall i :: 0 <= i < MAX_PEER_BUCKETS ==> n.table[i].peers == []
    ensures Join(n) == ([], false)
  {
    hide Tidy, Residue;
    LookupFinds(n.table, n.key);
    assert PeersOf(n.table, n.key) == [] && JoinCalls([], n.at) == [];
  }

  lemma StepPeerless(s0: State, s: State, act: Action)
    requires Consistent(s0, s) && Peerless(s) && Enabled(s, act)
    ensures Peerless(Apply(s, act))
    ensures act.TimeOut? ==> act.at in Apply(s, act).exited
  {
    hide Tidy, Recv, Join, Mute;
    match act
    case Start(a) => QueryMute(s.nodes[a], s.nodes[a].key, a, a);
    case Deliver(m, replied) => RecvMute(s.nodes[m.dest], m, replied);
    case Lose(_) =>
    case TimeOut(a) => JoinsNobody(s.nodes[a]);
  }

  lemma QueryMute(n: Node, hash: seq<byte>, src: Address, replyTo: Address)
    ensures forall t :: t in Query(n, hash, src, replyTo) ==> Mute(t)
  {
  }

  lemma {:induction false} RunPeerless(s0: State, s: State, acts: seq<Action>, s': State)
    requires Consistent(s0, s) && NothingInvented(s0, s) && Peerless(s) && Run(s, acts, s')
    ensures Consistent(s0, s') && Peerless(s')
    decreases |acts|
  {
    hide Consistent, NothingInvented, Peerless, AllGrow, Apply;
    if acts == [] {
    } else {
      StepKeeps(s0, s, acts[0]);
      StepPeerless(s0, s, acts[0]);
      RunPeerless(s0, Apply(s, acts[0]), acts[1..], s');
    }
  }

  /**
   Where all tables are empty at the start, they stay so in every run: no JOIN is ever sent,
   every reply is empty, and a node that times out exits.
   */
  lemma EmptyTablesStayEmpty(s0: State, acts: seq<Action>, s: State)
    requires Initial(s0) && NoPeers(s0.nodes) && Run(s0, acts, s)
    ensures NoPeers(s.nodes)
    ensures forall m :: m in s.sent ==> !m.JoinCall? && !m.JoinReply? && (m.GetPeersReply? ==> m.peers == [])
    ensures forall a :: Enabled(s, TimeOut(a)) ==> a in Apply(s, TimeOut(a)).exited
  {
    hide Run, Tidy, NothingInvented, NoPeers, Apply;
    StartsConsistent(s0);
    RunPeerless(s0, s0, acts, s);
    forall a | Enabled(s, TimeOut(a)) ensures a in Apply(s, TimeOut(a)).exited { StepPeerless(s0, s, TimeOut(a)); }
  }

  /** Of three nodes each next to the other two: a query among them need not end. */
  function Triangle(x: Address, y: Address, z: Address): map<Address, Node> {
    map[x := Corner(x, y, z), y := Corner(y, z, x), z := Corner(z, x, y)]
  }

  function Corner(a: Address, first: Address, second: Address): Node {
    Node(a, [], EMPTY_TABLE, [Neighbour([], first, 0), Neighbour([], second, 0)], false)
  }

  lemma {:induction false} Around(x: Address, y: Address, z: Address, k: nat)
    requires x != y && y != z && z != x
    ensures CanGo(Triangle(x, y, z), y, x, k)
    decreases k
  {
    if k > 0 {
      Around(y, z, x, k - 1);
      assert Triangle(y, z, x) == Triangle(x, y, z);
    }
  }

  lemma Corners(x: Address, y: Address, z: Address)
    requires x != y && y != z && z != x
    ensures var nodes := Triangle(x, y, z);
            && x in nodes && NoPeers(nodes) && Forward(nodes[x].neighbours, x) == Some(y)
            && forall a :: a in nodes ==> nodes[a].at == a && Tidy(nodes[a].table)
  {
  }

  lemma TriangleNeverEnds(x: Address, y: Address, z: Address, k: nat)
    requires x != y && y != z && z != x
    ensures var s0 := State(Triangle(x, y, z), {}, {}, multiset{}, []);
            Initial(s0) && Goes(s0, x, k)
  {
    hide Goes, Forward, Run, Triangle;
    var s0 := State(Triangle(x, y, z), {}, {}, multiset{}, []);
    Corners(x, y, z);
    if k > 0 { Around(x, y, z, k - 1); }
    QueryLength(s0, x, k);
  }
}
