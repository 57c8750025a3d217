/**
 * The gossip flooding protocol (GossipNode) and the simulation driver that
 * creates nodes, wires a random topology and starts a gossip
 * (NetworkBuilder). Both live in one module because a node appends its
 * traces to the builder that created it.
 *
 * Everything the nodes cannot see or control is an input: the random bytes
 * of a message ID, the clock, the random draws of the peer sampler and of
 * the starter, whether creating a node fails, and whether each single send
 * to a peer succeeds. Concurrent fan-out is a sequential loop, and the
 * relay that the real handler starts in the background runs inline.
 */
module Gossip {
  import opened Wrappers
  import opened Transport

  const BASE_PORT := 8000
  const LOCAL_IP := "127.0.0.1"
  const INITIAL_TTL := 20
  const MESSAGE_ID_BYTES := 16
  const GOSSIP_TAG := "gossip"
  /** The handler skips this many payload characters: the tag and its ':'. */
  const GOSSIP_BODY_OFFSET := 7

  newtype byte = x: int | 0 <= x < 256

  datatype GossipMessage = GossipMessage(id: string, content: string, sender: int, timestamp: int, ttl: int)

  /** One record per first reception of a message at a node. */
  datatype MessageTrace = MessageTrace(
    timestamp: int,
    messageId: string,
    originalSender: int,
    immediateForwarder: int,
    receiver: int,
    content: string,
    ttl: int,
    isDirect: bool)

  /** A message handed to the transport for one peer, whose send succeeded. */
  datatype Delivery = Delivery(to: Address, msg: GossipMessage)

  datatype HandlerError = UnmarshalFailed

  /** The address of the node created with index i. */
  function NodeAddress(i: int): (a: Address)
    ensures a.ip == LOCAL_IP && ForwarderId(a) == i
  {
    Address(LOCAL_IP, BASE_PORT + i)
  }

  // ---------------------------------------------------------------------------
  // Message IDs: 16 random bytes in lower-case hexadecimal

  function HexDigit(v: nat): char
    requires v < 16
  {
    "0123456789abcdef"[v]
  }

  function HexValue(c: char): Option<nat>
  {
    if '0' <= c <= '9' then Some(c as int - '0' as int)
    else if 'a' <= c <= 'f' then Some(c as int - 'a' as int + 10)
    else None
  }

  function HexEncode(bs: seq<byte>): (s: string)
    ensures |s| == 2 * |bs|
  {
    if bs == [] then []
    else [HexDigit(bs[0] as int / 16), HexDigit(bs[0] as int % 16)] + HexEncode(bs[1..])
  }

  function HexDecode(s: string): Option<seq<byte>>
  {
    if |s| == 0 then Some([])
    else if |s| == 1 then None
    else match (HexValue(s[0]), HexValue(s[1]), HexDecode(s[2..]))
      case (Some(hi), Some(lo), Some(rest)) =>
        if hi * 16 + lo < 256 then Some([(hi * 16 + lo) as byte] + rest) else None
      case _ => None
  }

  lemma HexDigitValue(v: nat)
    requires v < 16
    ensures HexValue(HexDigit(v)) == Some(v)
  {
    var digits := "0123456789abcdef";
    assert digits[v] as int == if v < 10 then '0' as int + v else 'a' as int + v - 10;
  }

  lemma HexDecodeCons(a: char, b: char, rest: string, hi: nat, lo: nat, r: seq<byte>)
    requires HexValue(a) == Some(hi) && HexValue(b) == Some(lo) && hi * 16 + lo < 256
    requires HexDecode(rest) == Some(r)
    ensures HexDecode([a, b] + rest) == Some([(hi * 16 + lo) as byte] + r)
  {
    var s := [a, b] + rest;
    assert s[0] == a && s[1] == b && s[2..] == rest;
  }

  lemma {:induction false} HexRoundTrip(bs: seq<byte>)
    ensures HexDecode(HexEncode(bs)) == Some(bs)
  {
    if bs != [] {
      var v := bs[0] as int;
      var hi, lo := v / 16, v % 16;
      HexDigitValue(hi);
      HexDigitValue(lo);
      HexRoundTrip(bs[1..]);
      assert hi * 16 + lo == v;
      HexDecodeCons(HexDigit(hi), HexDigit(lo), HexEncode(bs[1..]), hi, lo, bs[1..]);
      assert HexEncode(bs) == [HexDigit(hi), HexDigit(lo)] + HexEncode(bs[1..]);
      assert [bs[0]] + bs[1..] == bs;
    }
  }

  /** A fresh message ID: the hexadecimal rendering of the random bytes, which it determines uniquely. */
  function GenerateMessageID(random: seq<byte>): (id: string)
    requires |random| == MESSAGE_ID_BYTES
    ensures |id| == 2 * MESSAGE_ID_BYTES
    ensures HexDecode(id) == Some(random)
  {
    HexRoundTrip(random);
    HexEncode(random)
  }

  // ---------------------------------------------------------------------------
  // The gossip handler's view of an envelope

  /** The body the handler decodes: the payload after the fixed-length tag prefix. */
  function GossipBody(payload: string): string
    requires |payload| >= GOSSIP_BODY_OFFSET
  {
    payload[GOSSIP_BODY_OFFSET..]
  }

  /** The immediate forwarder's node ID, derived from the sender's port. */
  function ForwarderId(from: Address): int
  {
    from.port - BASE_PORT
  }

  /** The fixed offset matches the "gossip" tag exactly, so the body comes back unchanged. */
  lemma GossipBodyOfTaggedPayload(body: string)
    ensures |TagPayload(GOSSIP_TAG, body)| >= GOSSIP_BODY_OFFSET
    ensures GossipBody(TagPayload(GOSSIP_TAG, body)) == body
  {
  }

  // ---------------------------------------------------------------------------
  // Peer lists

  predicate HasPort(peers: seq<Address>, port: int)
  {
    exists i :: 0 <= i < |peers| && peers[i].port == port
  }

  /** No entry for the node's own port, and no two entries for one port. */
  ghost predicate PeersWellFormed(peers: seq<Address>, own: int)
  {
    && (forall i :: 0 <= i < |peers| ==> peers[i].port != own)
    && (forall i, j :: 0 <= i < j < |peers| ==> peers[i].port != peers[j].port)
  }

  /** The peer list after offering a; a is appended unless it is the node itself or its port is taken. */
  function WithPeer(peers: seq<Address>, own: int, a: Address): (r: seq<Address>)
    ensures r == peers + [a] <==> a.port != own && !HasPort(peers, a.port)
    ensures r != peers + [a] ==> r == peers
    ensures PeersWellFormed(peers, own) ==> PeersWellFormed(r, own)
    ensures a.port != own ==> HasPort(r, a.port)
  {
    if a.port == own || HasPort(peers, a.port) then peers
    else
      var r := peers + [a];
      assert r[|peers|].port == a.port;
      r
  }

  /** Offering the same address twice is the same as offering it once. */
  lemma WithPeerIdempotent(peers: seq<Address>, own: int, a: Address)
    ensures WithPeer(WithPeer(peers, own, a), own, a) == WithPeer(peers, own, a)
  {
  }

  /** The peer list after offering every address of addrs in order. */
  function AddPeers(peers: seq<Address>, own: int, addrs: seq<Address>): (r: seq<Address>)
    ensures |peers| <= |r| <= |peers| + |addrs|
    ensures r[..|peers|] == peers
    ensures PeersWellFormed(peers, own) ==> PeersWellFormed(r, own)
    decreases |addrs|
  {
    if addrs == [] then peers
    else WithPeer(AddPeers(peers, own, addrs[..|addrs| - 1]), own, addrs[|addrs| - 1])
  }

  function PeerAddresses(ids: seq<int>): (addrs: seq<Address>)
    ensures |addrs| == |ids|
    ensures forall k :: 0 <= k < |ids| ==> addrs[k] == NodeAddress(ids[k])
  {
    seq(|ids|, k requires 0 <= k < |ids| => NodeAddress(ids[k]))
  }

  // ---------------------------------------------------------------------------
  // Fan-out and receptions

  /**
   * The successful sends of msg to a snapshot of peers; sendOk[k] says
   * whether the send to peers[k] succeeded (a missing entry is a failure).
   */
  function Deliveries(peers: seq<Address>, msg: GossipMessage, sendOk: seq<bool>): (out: seq<Delivery>)
    ensures |out| <= |peers|
    ensures forall k :: 0 <= k < |out| ==> out[k].msg == msg && out[k].to in peers
    decreases |peers|
  {
    if peers == [] then []
    else
      var last := |peers| - 1;
      Deliveries(peers[..last], msg, sendOk)
        + (if last < |sendOk| && sendOk[last] then [Delivery(peers[last], msg)] else [])
  }

  /** How many of the first n sends succeed; a missing entry is a failure. */
  function CountOk(sendOk: seq<bool>, n: nat): nat
  {
    if n == 0 then 0 else CountOk(sendOk, n - 1) + (if n - 1 < |sendOk| && sendOk[n - 1] then 1 else 0)
  }

  /** Some send to address a among the peers succeeded. */
  ghost predicate SentTo(peers: seq<Address>, sendOk: seq<bool>, a: Address)
  {
    exists k :: 0 <= k < |peers| && k < |sendOk| && sendOk[k] && peers[k] == a
  }

  /** A failed send is swallowed: only the successful sends are delivered and counted. */
  lemma {:induction false} DeliveriesCount(peers: seq<Address>, msg: GossipMessage, sendOk: seq<bool>)
    ensures |Deliveries(peers, msg, sendOk)| == CountOk(sendOk, |peers|)
    decreases |peers|
  {
    if peers != [] {
      DeliveriesCount(peers[..|peers| - 1], msg, sendOk);
    }
  }

  /** A delivery happens iff it carries the message to a peer whose send succeeded. */
  lemma {:induction false} DeliveriesExact(peers: seq<Address>, msg: GossipMessage, sendOk: seq<bool>, d: Delivery)
    ensures d in Deliveries(peers, msg, sendOk) <==> d.msg == msg && SentTo(peers, sendOk, d.to)
    decreases |peers|
  {
    if peers != [] {
      var last := |peers| - 1;
      var init := peers[..last];
      DeliveriesExact(init, msg, sendOk, d);
      if SentTo(peers, sendOk, d.to) && !(last < |sendOk| && sendOk[last] && peers[last] == d.to) {
        var k :| 0 <= k < |peers| && k < |sendOk| && sendOk[k] && peers[k] == d.to;
        assert k < last && init[k] == peers[k];
        assert SentTo(init, sendOk, d.to);
      }
      if SentTo(init, sendOk, d.to) {
        var k :| 0 <= k < |init| && k < |sendOk| && sendOk[k] && init[k] == d.to;
        assert peers[k] == init[k];
        assert SentTo(peers, sendOk, d.to);
      }
      if last < |sendOk| && sendOk[last] && peers[last] == d.to {
        assert SentTo(peers, sendOk, d.to);
      }
    }
  }

  lemma DeliveriesStep(peers: seq<Address>, i: int, msg: GossipMessage, sendOk: seq<bool>)
    requires 0 <= i < |peers|
    ensures Deliveries(peers[..i + 1], msg, sendOk) == Deliveries(peers[..i], msg, sendOk)
      + (if i < |sendOk| && sendOk[i] then [Delivery(peers[i], msg)] else [])
  {
    assert peers[..i + 1][..i] == peers[..i];
  }

  /** When every send succeeds, each peer gets the message exactly once, in peer order. */
  lemma {:induction false} DeliveriesAllSucceed(peers: seq<Address>, msg: GossipMessage, sendOk: seq<bool>)
    requires |sendOk| >= |peers|
    requires forall k :: 0 <= k < |peers| ==> sendOk[k]
    ensures |Deliveries(peers, msg, sendOk)| == |peers|
    ensures forall k :: 0 <= k < |peers| ==> Deliveries(peers, msg, sendOk)[k] == Delivery(peers[k], msg)
    decreases |peers|
  {
    if peers != [] {
      var last := |peers| - 1;
      var init := peers[..last];
      DeliveriesAllSucceed(init, msg, sendOk);
      assert Deliveries(peers, msg, sendOk) == Deliveries(init, msg, sendOk) + [Delivery(peers[last], msg)];
      forall k | 0 <= k < |peers|
        ensures Deliveries(peers, msg, sendOk)[k] == Delivery(peers[k], msg)
      {
        if k < last {
          assert init[k] == peers[k];
        }
      }
    }
  }

  function Trace(msg: GossipMessage, forwarder: int, receiver: int, now: int): (t: MessageTrace)
    ensures t.messageId == msg.id && t.originalSender == msg.sender && t.receiver == receiver
    ensures t.immediateForwarder == forwarder && t.ttl == msg.ttl
    ensures t.isDirect <==> msg.sender == forwarder
  {
    MessageTrace(now, msg.id, msg.sender, forwarder, receiver, msg.content, msg.ttl, msg.sender == forwarder)
  }

  function IdsOf(msgs: seq<GossipMessage>): set<string>
  {
    set k | 0 <= k < |msgs| :: msgs[k].id
  }

  ghost predicate DistinctIds(msgs: seq<GossipMessage>)
  {
    forall i, j :: 0 <= i < j < |msgs| ==> msgs[i].id != msgs[j].id
  }

  /** Logging a message whose ID is new adds exactly that ID and keeps the IDs distinct. */
  lemma LogNewMessage(msgs: seq<GossipMessage>, m: GossipMessage)
    requires DistinctIds(msgs) && m.id !in IdsOf(msgs)
    ensures IdsOf(msgs + [m]) == IdsOf(msgs) + {m.id}
    ensures DistinctIds(msgs + [m])
  {
    var r := msgs + [m];
    forall x | x in IdsOf(r)
      ensures x in IdsOf(msgs) + {m.id}
    {
      var k :| 0 <= k < |r| && r[k].id == x;
      if k < |msgs| {
        assert msgs[k] == r[k];
      }
    }
    forall x | x in IdsOf(msgs) + {m.id}
      ensures x in IdsOf(r)
    {
      if x == m.id {
        assert r[|msgs|] == m;
      } else {
        var k :| 0 <= k < |msgs| && msgs[k].id == x;
        assert r[k] == msgs[k];
      }
    }
    forall i, j | 0 <= i < j < |r|
      ensures r[i].id != r[j].id
    {
      assert r[i] == msgs[i];
      if j == |msgs| {
        assert msgs[i].id in IdsOf(msgs);
      } else {
        assert r[j] == msgs[j];
      }
    }
  }

  /** A log of distinct IDs has as many entries as IDs: the seen set and the log stay the same size. */
  lemma {:induction false} DistinctIdsCount(msgs: seq<GossipMessage>)
    requires DistinctIds(msgs)
    ensures |IdsOf(msgs)| == |msgs|
    decreases |msgs|
  {
    if msgs != [] {
      var init := msgs[..|msgs| - 1];
      DistinctIdsCount(init);
      assert IdsOf(msgs) == IdsOf(init) + {msgs[|msgs| - 1].id};
      assert msgs[|msgs| - 1].id !in IdsOf(init);
    }
  }

  // ---------------------------------------------------------------------------
  // The node

  class GossipNode {
    const id: int
    const addr: Address
    const builder: NetworkBuilder?
    var peers: seq<Address>
    var seen: set<string>
    var receivedMsgs: seq<GossipMessage>
    var messagesSent: int
    var messagesReceived: int

    /**
     * The peer list never holds the node itself or a port twice; the seen set
     * is exactly the IDs of the received log, which holds each ID once; the
     * receive counter is the length of the log.
     */
    ghost predicate Valid()
      reads this
    {
      && PeersWellFormed(peers, addr.port)
      && seen == IdsOf(receivedMsgs)
      && DistinctIds(receivedMsgs)
      && messagesReceived == |receivedMsgs|
      && messagesSent >= 0
    }

    constructor (id: int, port: int, builder: NetworkBuilder?)
      ensures Valid()
      ensures this.id == id && addr == Address(LOCAL_IP, port) && this.builder == builder
      ensures peers == [] && seen == {} && receivedMsgs == []
      ensures messagesSent == 0 && messagesReceived == 0
    {
      this.id := id;
      addr := Address(LOCAL_IP, port);
      this.builder := builder;
      peers := [];
      seen := {};
      receivedMsgs := [];
      messagesSent := 0;
      messagesReceived := 0;
    }

    method AddPeer(peeraddr: Address)
      requires Valid()
      modifies this`peers
      ensures Valid()
      ensures peers == WithPeer(old(peers), addr.port, peeraddr)
    {
      if peeraddr.port == addr.port {
        return;
      }
      var i := 0;
      while i < |peers|
        invariant 0 <= i <= |peers|
        invariant forall j :: 0 <= j < i ==> peers[j].port != peeraddr.port
      {
        if peers[i].port == peeraddr.port {
          return;
        }
        i := i + 1;
      }
      peers := peers + [peeraddr];
    }

    /** Sends msg to every peer of a snapshot; failed sends are dropped silently. */
    method SpreadGossip(msg: GossipMessage, sendOk: seq<bool>) returns (out: seq<Delivery>)
      requires Valid()
      modifies this`messagesSent
      ensures Valid()
      ensures out == Deliveries(peers, msg, sendOk)
      ensures messagesSent == old(messagesSent) + |out|
    {
      var snapshot := peers;
      out := [];
      var i := 0;
      while i < |snapshot|
        invariant 0 <= i <= |snapshot|
        invariant out == Deliveries(snapshot[..i], msg, sendOk)
        invariant messagesSent == old(messagesSent) + |out|
      {
        DeliveriesStep(snapshot, i, msg, sendOk);
        if i < |sendOk| && sendOk[i] {
          out := out + [Delivery(snapshot[i], msg)];
          messagesSent := messagesSent + 1;
        }
        i := i + 1;
      }
      assert snapshot[..i] == snapshot;
    }

    /** Starts a new message with the full hop budget; the originator records nothing for itself. */
    method Gossip(content: string, random: seq<byte>, now: int, sendOk: seq<bool>) returns (out: seq<Delivery>)
      requires Valid()
      requires |random| == MESSAGE_ID_BYTES
      modifies this`messagesSent
      ensures Valid()
      ensures out == Deliveries(peers, GossipMessage(GenerateMessageID(random), content, id, now, INITIAL_TTL), sendOk)
      ensures messagesSent == old(messagesSent) + |out|
      ensures seen == old(seen) && receivedMsgs == old(receivedMsgs) && messagesReceived == old(messagesReceived)
    {
      var msgid := GenerateMessageID(random);
      var gossipmsg := GossipMessage(msgid, content, id, now, INITIAL_TTL);
      out := SpreadGossip(gossipmsg, sendOk);
    }

    /**
     * The seen check and the marking are one step. A known ID changes
     * nothing. A new ID is marked, logged and counted, traced once, and
     * relayed with one hop less only while its TTL is positive.
     */
    method HandleGossipMessage(msg: GossipMessage, immediateForwarder: int, now: int, sendOk: seq<bool>)
      returns (out: seq<Delivery>)
      requires Valid()
      modifies this`seen, this`receivedMsgs, this`messagesReceived, this`messagesSent, builder
      ensures Valid()
      ensures builder != null ==> builder.nodes == old(builder.nodes)
      ensures msg.id in old(seen) ==>
        && seen == old(seen) && receivedMsgs == old(receivedMsgs)
        && messagesReceived == old(messagesReceived) && messagesSent == old(messagesSent)
        && out == []
        && (builder != null ==> builder.traces == old(builder.traces))
      ensures msg.id !in old(seen) ==>
        && seen == old(seen) + {msg.id}
        && receivedMsgs == old(receivedMsgs) + [msg]
        && messagesReceived == old(messagesReceived) + 1
        && (builder != null ==> builder.traces == old(builder.traces) + [Trace(msg, immediateForwarder, id, now)])
        && out == (if msg.ttl > 0 then Deliveries(peers, msg.(ttl := msg.ttl - 1), sendOk) else [])
        && messagesSent == old(messagesSent) + |out|
    {
      if msg.id in seen {
        return [];
      }
      LogNewMessage(receivedMsgs, msg);
      seen := seen + {msg.id};
      receivedMsgs := receivedMsgs + [msg];
      messagesReceived := messagesReceived + 1;

      if builder != null {
        builder.traces := builder.traces + [Trace(msg, immediateForwarder, id, now)];
      }

      out := [];
      if msg.ttl > 0 {
        out := SpreadGossip(msg.(ttl := msg.ttl - 1), sendOk);
      }
    }

    /**
     * The "gossip" handler: strip the tag prefix, decode the body (decode
     * stands for the JSON decoder) and pass the message on with the
     * forwarder derived from the sender's port.
     */
    method HandleGossipEnvelope(env: Message, decode: string -> Option<GossipMessage>, now: int, sendOk: seq<bool>)
      returns (r: Result<seq<Delivery>, HandlerError>)
      requires Valid()
      requires |env.payload| >= GOSSIP_BODY_OFFSET
      modifies this`seen, this`receivedMsgs, this`messagesReceived, this`messagesSent, builder
      ensures Valid()
      ensures builder != null ==> builder.nodes == old(builder.nodes)
      ensures r.Err? <==> decode(GossipBody(env.payload)).None?
      ensures r.Err? ==>
        && receivedMsgs == old(receivedMsgs) && messagesSent == old(messagesSent)
        && (builder != null ==> builder.traces == old(builder.traces))
      ensures r.Ok? ==>
        var m := decode(GossipBody(env.payload)).value;
        && messagesSent == old(messagesSent) + |r.value|
        && (m.id in old(seen) ==>
              && receivedMsgs == old(receivedMsgs) && r.value == []
              && messagesSent == old(messagesSent)
              && (builder != null ==> builder.traces == old(builder.traces)))
        && (m.id !in old(seen) ==>
              && receivedMsgs == old(receivedMsgs) + [m]
              && (builder != null ==> builder.traces == old(builder.traces) + [Trace(m, ForwarderId(env.from), id, now)])
              && r.value == (if m.ttl > 0 then Deliveries(peers, m.(ttl := m.ttl - 1), sendOk) else []))
    {
      var decoded := decode(GossipBody(env.payload));
      if decoded.None? {
        return Err(UnmarshalFailed);
      }
      var immediateForwarder := ForwarderId(env.from);
      var out := HandleGossipMessage(decoded.value, immediateForwarder, now, sendOk);
      r := Ok(out);
    }

    /** (peer count, log length, sends, receive counter); the last two readings of receptions agree. */
    method GetStats() returns (peerCount: int, receivedCount: int, sentCount: int, receivedCounter: int)
      requires Valid()
      ensures peerCount == |peers| && receivedCount == |receivedMsgs|
      ensures sentCount == messagesSent && receivedCounter == messagesReceived
      ensures receivedCount == receivedCounter == |seen|
    {
      DistinctIdsCount(receivedMsgs);
      peerCount, receivedCount, sentCount, receivedCounter := |peers|, |receivedMsgs|, messagesSent, messagesReceived;
    }

    /** A copy of the received log, in reception order, one entry per ID. */
    method GetReceivedMessages() returns (messages: seq<GossipMessage>)
      requires Valid()
      ensures messages == receivedMsgs
      ensures IdsOf(messages) == seen && DistinctIds(messages)
    {
      messages := receivedMsgs;
    }
  }

  // ---------------------------------------------------------------------------
  // The builder

  /** The number of random draws the sampler may make for count peers. */
  function Budget(count: int): nat
  {
    if count > 0 then 3 * count else 0
  }

  /**
   * The bounded-retry sampler, from a point where acc has been chosen and
   * budget draws remain: a draw equal to the node itself or already chosen
   * is spent without effect.
   */
  function Sample(nodeid: int, count: int, draws: seq<int>, budget: nat, acc: seq<int>): seq<int>
    requires |draws| >= budget
    decreases budget
  {
    if |acc| >= count || budget == 0 then acc
    else if draws[0] == nodeid || draws[0] in acc then Sample(nodeid, count, draws[1..], budget - 1, acc)
    else Sample(nodeid, count, draws[1..], budget - 1, acc + [draws[0]])
  }

  function SampledPeers(nodeid: int, count: int, draws: seq<int>): seq<int>
    requires |draws| >= Budget(count)
  {
    Sample(nodeid, count, draws, Budget(count), [])
  }

  /** Only the first budget draws are ever looked at. */
  lemma {:induction false} SampleUsesBudgetOnly(nodeid: int, count: int, draws: seq<int>, budget: nat, acc: seq<int>)
    requires |draws| >= budget
    ensures Sample(nodeid, count, draws, budget, acc) == Sample(nodeid, count, draws[..budget], budget, acc)
    decreases budget
  {
    if |acc| < count && budget > 0 {
      assert draws[..budget][1..] == draws[1..][..budget - 1];
      SampleUsesBudgetOnly(nodeid, count, draws[1..], budget - 1, acc);
      SampleUsesBudgetOnly(nodeid, count, draws[1..], budget - 1, acc + [draws[0]]);
    }
  }

  /** The sampler never chooses more than count peers. */
  lemma {:induction false} SampleBound(nodeid: int, count: int, draws: seq<int>, budget: nat, acc: seq<int>)
    requires |draws| >= budget
    requires |acc| <= (if count > 0 then count else 0)
    ensures |Sample(nodeid, count, draws, budget, acc)| <= (if count > 0 then count else 0)
    decreases budget
  {
    if |acc| < count && budget > 0 {
      SampleBound(nodeid, count, draws[1..], budget - 1, acc);
      SampleBound(nodeid, count, draws[1..], budget - 1, acc + [draws[0]]);
    }
  }

  /**
   * A node that starts without peers ends the topology build with at most
   * peerspernode peers, none of them itself and no port twice.
   */
  lemma FreshNodePeers(own: int, nodeid: int, peerspernode: int, draws: seq<int>)
    requires |draws| >= Budget(peerspernode)
    ensures var peers := AddPeers([], own, PeerAddresses(SampledPeers(nodeid, peerspernode, draws)));
      && |peers| <= (if peerspernode > 0 then peerspernode else 0)
      && PeersWellFormed(peers, own)
  {
    SampleBound(nodeid, peerspernode, draws, Budget(peerspernode), []);
  }

  /** Draws that all hit the node itself select nothing. */
  lemma {:induction false} SampleOnlySelf(nodeid: int, count: int, draws: seq<int>, budget: nat, acc: seq<int>)
    requires |draws| >= budget
    requires forall k :: 0 <= k < budget ==> draws[k] == nodeid
    ensures Sample(nodeid, count, draws, budget, acc) == acc
    decreases budget
  {
    if |acc| < count && budget > 0 {
      SampleOnlySelf(nodeid, count, draws[1..], budget - 1, acc);
    }
  }

  /** In a network of one node, node 0 finds no peers, whatever is drawn. */
  lemma SingleNodeHasNoPeers(count: int, draws: seq<int>)
    requires |draws| >= Budget(count)
    requires forall k :: 0 <= k < |draws| ==> 0 <= draws[k] < 1
    ensures SampledPeers(0, count, draws) == []
  {
    SampleOnlySelf(0, count, draws, Budget(count), []);
  }

  /** The linear scan for an already selected ID. */
  method Contains(xs: seq<int>, x: int) returns (found: bool)
    ensures found <==> x in xs
  {
    found := false;
    var j := 0;
    while j < |xs|
      invariant 0 <= j <= |xs|
      invariant x !in xs[..j]
    {
      assert xs[..j + 1] == xs[..j] + [xs[j]];
      if xs[j] == x {
        return true;
      }
      j := j + 1;
    }
    assert xs[..j] == xs;
  }

  ghost predicate IsNewNode(n: GossipNode, i: int, b: NetworkBuilder)
    reads n
  {
    && n.id == i && n.addr == NodeAddress(i) && n.builder == b
    && n.peers == [] && n.seen == {} && n.receivedMsgs == []
    && n.messagesSent == 0 && n.messagesReceived == 0
  }

  /** The peer list node n ends with after being offered its sampled peers. */
  ghost function Offered(n: GossipNode, before: seq<Address>, count: int, draws: seq<int>): seq<Address>
    requires |draws| >= Budget(count)
  {
    AddPeers(before, n.addr.port, PeerAddresses(SampledPeers(n.id, count, draws)))
  }

  class NetworkBuilder {
    var nodes: seq<GossipNode>
    var traces: seq<MessageTrace>
    const startTime: int

    ghost predicate Valid()
      reads this, nodes
    {
      && (forall i, j :: 0 <= i < j < |nodes| ==> nodes[i] != nodes[j])
      && (forall i :: 0 <= i < |nodes| ==> nodes[i].Valid())
    }

    constructor (startTime: int)
      ensures Valid() && nodes == [] && traces == [] && this.startTime == startTime
    {
      nodes := [];
      traces := [];
      this.startTime := startTime;
    }

    /**
     * Appends nodes 0, 1, ... with ports 8000 + i. Creating node i fails
     * exactly when i is in failures; the first failure stops the loop with its
     * index and keeps the nodes already appended.
     */
    method CreateNodes(count: int, failures: set<int>) returns (err: Option<int>)
      requires Valid()
      modifies this`nodes
      ensures Valid()
      ensures err.Some? ==>
        && 0 <= err.value < count && err.value in failures
        && (forall j :: 0 <= j < err.value ==> j !in failures)
      ensures err.None? ==> forall j :: 0 <= j < count ==> j !in failures
      ensures |nodes| == |old(nodes)| + (if err.Some? then err.value else if count > 0 then count else 0)
      ensures nodes[..|old(nodes)|] == old(nodes)
      ensures forall k :: |old(nodes)| <= k < |nodes| ==>
        fresh(nodes[k]) && IsNewNode(nodes[k], k - |old(nodes)|, this)
    {
      ghost var n0 := |nodes|;
      var i := 0;
      while i < count
        invariant 0 <= i && (i <= count || i == 0)
        invariant forall j :: 0 <= j < i ==> j !in failures
        invariant |nodes| == n0 + i
        invariant nodes[..n0] == old(nodes)
        invariant forall k :: n0 <= k < |nodes| ==> fresh(nodes[k]) && IsNewNode(nodes[k], k - n0, this)
        invariant Valid()
      {
        if i in failures {
          return Some(i);
        }
        var node := new GossipNode(i, BASE_PORT + i, this);
        nodes := nodes + [node];
        i := i + 1;
      }
      return None;
    }

    /**
     * Up to count distinct peer IDs other than nodeid. draws are the random
     * candidates in [0, |nodes|) in the order they are drawn.
     */
    method SelectRandomPeers(nodeid: int, count: int, draws: seq<int>) returns (peers: seq<int>)
      requires |draws| >= Budget(count)
      requires forall k :: 0 <= k < |draws| ==> 0 <= draws[k] < |nodes|
      ensures peers == SampledPeers(nodeid, count, draws)
      ensures |peers| <= (if count > 0 then count else 0)
      ensures forall i, j :: 0 <= i < j < |peers| ==> peers[i] != peers[j]
      ensures forall i :: 0 <= i < |peers| ==> peers[i] != nodeid && 0 <= peers[i] < |nodes|
      ensures forall i :: 0 <= i < |peers| ==> peers[i] in draws[..Budget(count)]
    {
      peers := [];
      var maxattempts := count * 3;
      var used := 0;
      while |peers| < count && maxattempts > 0
        invariant 0 <= used <= Budget(count)
        invariant count > 0 ==> maxattempts == Budget(count) - used
        invariant count <= 0 ==> used == 0
        invariant Sample(nodeid, count, draws, Budget(count), [])
          == Sample(nodeid, count, draws[used..], Budget(count) - used, peers)
        invariant |peers| <= (if count > 0 then count else 0)
        invariant forall i, j :: 0 <= i < j < |peers| ==> peers[i] != peers[j]
        invariant forall i :: 0 <= i < |peers| ==> peers[i] != nodeid && 0 <= peers[i] < |nodes|
        invariant forall i :: 0 <= i < |peers| ==> peers[i] in draws[..used]
      {
        var candidate := draws[used];
        assert draws[used..][1..] == draws[used + 1..];
        assert draws[..used + 1] == draws[..used] + [candidate];
        used := used + 1;
        if candidate == nodeid {
          maxattempts := maxattempts - 1;
          continue;
        }
        var found := Contains(peers, candidate);
        if !found {
          peers := peers + [candidate];
        }
        maxattempts := maxattempts - 1;
      }
      assert draws[..used] <= draws[..Budget(count)];
    }

    /**
     * Offers every node the addresses of its sampled peers; draws[k] are the
     * random candidates for nodes[k].
     */
    method BuildRandomTopology(peerspernode: int, draws: seq<seq<int>>)
      requires Valid()
      requires |draws| >= |nodes|
      requires forall k :: 0 <= k < |nodes| ==> |draws[k]| >= Budget(peerspernode)
      requires forall k, d :: 0 <= k < |nodes| && 0 <= d < |draws[k]| ==> 0 <= draws[k][d] < |nodes|
      modifies nodes`peers
      ensures Valid()
      ensures forall k :: 0 <= k < |nodes| ==>
        nodes[k].peers == Offered(nodes[k], old(nodes[k].peers), peerspernode, draws[k])
      ensures forall k :: 0 <= k < |nodes| ==>
        && nodes[k].seen == old(nodes[k].seen) && nodes[k].receivedMsgs == old(nodes[k].receivedMsgs)
        && nodes[k].messagesSent == old(nodes[k].messagesSent)
        && nodes[k].messagesReceived == old(nodes[k].messagesReceived)
    {
      var k := 0;
      while k < |nodes|
        invariant 0 <= k <= |nodes|
        invariant Valid()
        invariant forall m :: 0 <= m < k ==>
          nodes[m].peers == Offered(nodes[m], old(nodes[m].peers), peerspernode, draws[m])
        invariant forall m :: k <= m < |nodes| ==> nodes[m].peers == old(nodes[m].peers)
      {
        OfferSampledPeers(k, peerspernode, draws[k]);
        k := k + 1;
      }
    }

    /** One iteration of BuildRandomTopology: node k is offered its sampled peers. */
    method OfferSampledPeers(k: int, peerspernode: int, draws: seq<int>)
      requires Valid() && 0 <= k < |nodes|
      requires |draws| >= Budget(peerspernode)
      requires forall d :: 0 <= d < |draws| ==> 0 <= draws[d] < |nodes|
      modifies {nodes[k]}`peers
      ensures Valid()
      ensures nodes[k].peers == Offered(nodes[k], old(nodes[k].peers), peerspernode, draws)
      ensures forall m :: 0 <= m < |nodes| && m != k ==> nodes[m].peers == old(nodes[m].peers)
    {
      var node := nodes[k];
      var selected := SelectRandomPeers(node.id, peerspernode, draws);
      AddSelectedPeers(node, selected);
      forall m | 0 <= m < |nodes| && m != k
        ensures nodes[m].peers == old(nodes[m].peers)
      {
        assert nodes[m] != node;
      }
    }

    /** Offers node the address of every selected peer ID, in order. */
    method AddSelectedPeers(node: GossipNode, selected: seq<int>)
      requires node.Valid()
      modifies node`peers
      ensures node.Valid()
      ensures node.peers == AddPeers(old(node.peers), node.addr.port, PeerAddresses(selected))
    {
      var j := 0;
      while j < |selected|
        invariant 0 <= j <= |selected|
        invariant node.Valid()
        invariant node.peers == AddPeers(old(node.peers), node.addr.port, PeerAddresses(selected[..j]))
      {
        assert PeerAddresses(selected[..j + 1]) == PeerAddresses(selected[..j]) + [NodeAddress(selected[j])];
        node.AddPeer(NodeAddress(selected[j]));
        j := j + 1;
      }
      assert selected[..j] == selected;
    }

    /** Gossip from the node at the drawn index starter; nothing happens in an empty network. */
    method InitiateGossip(content: string, starter: int, random: seq<byte>, now: int, sendOk: seq<bool>)
      returns (out: seq<Delivery>)
      requires Valid()
      requires |nodes| > 0 ==> 0 <= starter < |nodes|
      requires |random| == MESSAGE_ID_BYTES
      modifies if |nodes| > 0 && 0 <= starter < |nodes| then {nodes[starter]} else {}
      ensures Valid()
      ensures |nodes| == 0 ==> out == []
      ensures |nodes| > 0 ==>
        && out == Deliveries(nodes[starter].peers,
                             GossipMessage(GenerateMessageID(random), content, nodes[starter].id, now, INITIAL_TTL),
                             sendOk)
        && nodes[starter].messagesSent == old(nodes[starter].messagesSent) + |out|
        && nodes[starter].peers == old(nodes[starter].peers)
        && nodes[starter].seen == old(nodes[starter].seen)
        && nodes[starter].receivedMsgs == old(nodes[starter].receivedMsgs)
    {
      if |nodes| == 0 {
        return [];
      }
      out := nodes[starter].Gossip(content, random, now, sendOk);
    }
  }
}
