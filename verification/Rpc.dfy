/**
 One node of the peer discovery: what `recv_rpc` does with a message, as a function from the
 node and the message to the node afterwards and the messages it puts in flight; then the
 process that does it, with the table it updates in place.
 */
module Rpc {
  import opened Basics
  import opened Peers
  import opened Neighbours

  const MAX_PAYLOAD_SIZE: nat := 1024
  const PEER_SIZE: nat := 40   // sizeof(peer_t)

  datatype Message =
    | GetPeersCall(dest: Address, sender: Address, src: Address, hash: seq<byte>)
    | JoinCall(dest: Address, sender: Address)
    | OtherCall(dest: Address, sender: Address)
    | GetPeersReply(dest: Address, ok: bool, peers: seq<Peer>)
    | JoinReply(dest: Address)

  datatype Node = Node(at: Address, key: seq<byte>, table: Table, neighbours: seq<Neighbour>, waiting: bool)

  function Place(p: Peer): Address { Address(p.ip, p.port) }

  /** The peer that a JOIN adds. */
  function Joiner(a: Address): Peer { Peer(a.ip, a.port, [], Passive) }

  // ---------- what is sent ----------

  /** `get_peers` */
  function Query(n: Node, hash: seq<byte>, src: Address, replyTo: Address): seq<Message> {
    match Forward(n.neighbours, replyTo)
    case None => []
    case Some(next) => [GetPeersCall(next, n.at, src, hash)]
  }

  function JoinCalls(peers: seq<Peer>, sender: Address): seq<Message> {
    seq(|peers|, i requires 0 <= i < |peers| => JoinCall(Place(peers[i]), sender))
  }

  /** `join_peers`: the messages, and whether there was anyone to join. */
  function Join(n: Node): (seq<Message>, bool) {
    if !Lookup(n.table, n.key).0 then ([], true)
    else (JoinCalls(PeersOf(n.table, n.key), n.at), PeersOf(n.table, n.key) != [])
  }

  // ---------- what is received ----------

  function Labelled(key: seq<byte>, peers: seq<Peer>): seq<(seq<byte>, Peer)> {
    seq(|peers|, i requires 0 <= i < |peers| => (key, peers[i]))
  }

  /** The message fits the buffer it is copied to, and its answer the payload. */
  predicate Fits(n: Node, m: Message) {
    match m
    case GetPeersCall(_, _, _, hash) => 1 + PEER_SIZE * |PeersOf(n.table, hash)| <= MAX_PAYLOAD_SIZE
    case GetPeersReply(_, _, peers) => |peers| <= MAX_PEER_BUCKETS
    case _ => true
  }

  function OnGetPeers(n: Node, m: Message): (Node, seq<Message>)
    requires m.GetPeersCall?
  {
    if !Lookup(n.table, m.hash).0 then (n, [GetPeersReply(m.sender, true, [])])
    else if PeersOf(n.table, m.hash) == [] && n.neighbours != [] then
      (n.(waiting := true), Query(n, n.key, m.src, m.sender))
    else (n.(waiting := false), [GetPeersReply(m.src, true, PeersOf(n.table, m.hash))])
  }

  function OnPeers(n: Node, peers: seq<Peer>): (Node, seq<Message>) {
    var n' := n.(table := SetAll(n.table, Labelled(n.key, peers)));
    if Lookup(n'.table, n.key).0 && |PeersOf(n'.table, n.key)| >= INITIAL_CAP
    then (n'.(waiting := false), Join(n').0)
    else (n', [])
  }

  /** `recv_rpc`; a JOIN counts only when the reply to it could be sent. */
  function Recv(n: Node, m: Message, replied: bool): (Node, seq<Message>) {
    match m
    case GetPeersCall(_, _, _, _) => OnGetPeers(n, m)
    case JoinCall(_, sender) =>
      if replied then (n.(table := WithPeer(n.table, n.key, Joiner(sender))), [JoinReply(sender)]) else (n, [])
    case OtherCall(_, _) => (n, [])
    case GetPeersReply(_, ok, peers) => if !ok || peers == [] then (n, []) else OnPeers(n, peers)
    case JoinReply(_) => (n, [])
  }

  // ---------- the process ----------

  class NodeProcess {
    const at: Address
    const key: seq<byte>
    const neighbours: seq<Neighbour>
    const table: PeerTable
    var waiting: bool
    var outbox: seq<Message>   // everything handed to the socket so far

    ghost predicate Valid()
      reads this, table, table.buckets, table.Arrays()
    {
      table.Valid()
    }

    ghost function Contents(): Node
      requires Valid()
      reads this, table, table.buckets, table.Arrays()
    {
      Node(at, key, table.Contents(), neighbours, waiting)
    }

    constructor (at: Address, key: seq<byte>, neighbours: seq<Neighbour>)
      ensures Valid() && Contents() == Node(at, key, EMPTY_TABLE, neighbours, true) && outbox == []
      ensures fresh(table) && fresh(table.buckets) && fresh(table.Arrays())
    {
      this.at, this.key, this.neighbours := at, key, neighbours;
      table := new PeerTable();
      waiting, outbox := true, [];
    }

    method CallRpc(m: Message)
      modifies `outbox
      ensures outbox == old(outbox) + [m]
    {
      outbox := outbox + [m];
    }

    /** The loop over the neighbours returns after the first call it makes. */
    method GetPeers(hash: seq<byte>, src: Address, replyTo: Address)
      requires Valid()
      modifies `outbox
      ensures Valid() && Contents() == old(Contents())
      ensures outbox == old(outbox) + Query(old(Contents()), hash, src, replyTo)
    {
      var i := 0;
      while i < |neighbours|
        invariant i <= |neighbours| && outbox == old(outbox)
        invariant Forward(neighbours[i..], replyTo) == Forward(neighbours, replyTo)
      {
        assert neighbours[i..][0] == neighbours[i] && neighbours[i..][1..] == neighbours[i + 1..];
        if neighbours[i].at != replyTo {
          CallRpc(GetPeersCall(neighbours[i].at, at, src, hash));
          return;
        }
        i := i + 1;
      }
    }

    /** The bucket found is the one of the table's value. */
    method Find(hash: seq<byte>) returns (bucket: PeerArray?, peers: seq<Peer>)
      requires Valid()
      ensures (bucket != null) == Lookup(table.Contents(), hash).0
      ensures bucket != null ==> peers == PeersOf(table.Contents(), hash) && |peers| == bucket.len
    {
      hide Residue;
      bucket := table.GetPeerBucket(hash);
      if bucket != null {
        peers := bucket.data[..bucket.len];
      } else {
        peers := [];
      }
    }

    method JoinPeers() returns (anyone: bool)
      requires Valid()
      modifies `outbox
      ensures Valid() && Contents() == old(Contents())
      ensures outbox == old(outbox) + Join(old(Contents())).0 && anyone == Join(old(Contents())).1
    {
      var bucket, peers := Find(key);
      if bucket == null { return true; }
      if |peers| == 0 { return false; }
      for i := 0 to |peers|
        invariant outbox == old(outbox) + JoinCalls(peers[..i], at)
      {
        CallRpc(JoinCall(Place(peers[i]), at));
        assert JoinCalls(peers[..i + 1], at) == JoinCalls(peers[..i], at) + [JoinCall(Place(peers[i]), at)];
      }
      assert peers[..|peers|] == peers;
      anyone := true;
    }

    method Accept(peers: seq<Peer>)
      requires Valid()
      modifies table.buckets, table.Arrays()
      ensures Valid() && Contents() == old(Contents()).(table := SetAll(old(table.Contents()), Labelled(key, peers)))
      ensures fresh(table.Arrays() - old(table.Arrays()))
    {
      hide WithPeer;
      for i := 0 to |peers|
        invariant Valid() && fresh(table.Arrays() - old(table.Arrays()))
        invariant table.Contents() == SetAll(old(table.Contents()), Labelled(key, peers[..i]))
      {
        assert Labelled(key, peers[..i + 1])[..i] == Labelled(key, peers[..i]);
        table.SetPeer(key, peers[i]);
      }
      assert peers[..|peers|] == peers;
    }

    method RecvRpc(m: Message, replied: bool)
      requires Valid() && Fits(Contents(), m)
      modifies `waiting, `outbox, table.buckets, table.Arrays()
      ensures Valid() && Contents() == Recv(old(Contents()), m, replied).0
      ensures outbox == old(outbox) + Recv(old(Contents()), m, replied).1
      ensures fresh(table.Arrays() - old(table.Arrays()))
    {
      hide SetAll, WithPeer, Query, Join, Residue, Lookup, PeersOf, PeerTable.Contents, PeerTable.Valid;
      match m
      case GetPeersCall(_, sender, src, hash) =>
        var bucket, peers := Find(hash);
        if bucket == null {
          CallRpc(GetPeersReply(sender, true, []));
        } else if |peers| == 0 && |neighbours| > 0 {
          GetPeers(key, src, sender);
          waiting := true;
        } else {
          CallRpc(GetPeersReply(src, true, peers));
          waiting := false;
        }
      case JoinCall(_, sender) =>
        if replied {
          CallRpc(JoinReply(sender));
          table.SetPeer(key, Joiner(sender));
        }
      case OtherCall(_, _) =>
      case GetPeersReply(_, ok, peers) =>
        if ok && |peers| != 0 {
          Accept(peers);
          var bucket, known := Find(key);
          if bucket != null && |known| >= INITIAL_CAP {
            var anyone := JoinPeers();
            waiting := false;
          }
        }
      case JoinReply(_) =>
    }
  }
}
