/**
 * The in-memory transport: a table from listening address to a bounded FIFO
 * inbox, a set of "cut" (partitioned) addresses, and connections that send
 * into, receive from and release those inboxes. Locks and channel blocking
 * are replaced by sequential steps; a receive on an empty inbox reports
 * WouldBlock where the real one waits.
 */
module MockTransport {
  import opened Wrappers
  import opened Transport

  /** Capacity of every listener's inbox. */
  const INBOX_CAPACITY := 100

  datatype TransportError =
    | AddressInUse         // Listen on an address that already has a listener
    | AddressNotFound      // Dial of an address without a listener
    | Partitioned          // Send while either endpoint is cut
    | DestinationNotFound  // Send to an address without a listener
    | QueueFull            // Send to a full inbox
    | NotListening         // Recv on a closed or dialled connection
    | WouldBlock           // Recv on an empty inbox (the real call blocks)

  /** The bounded channel behind one listening address. */
  class Inbox {
    var queue: seq<Message>

    constructor ()
      ensures queue == []
    {
      queue := [];
    }
  }

  /**
   * The outcome of a send, in the order the checks are made: a cut endpoint
   * (the connection's own address or the destination), then a missing
   * listener, then a full inbox. The envelope's from-address takes no part.
   */
  function SendError(cut: set<Address>, self: Address, to: Address, inboxLen: Option<nat>): (e: Option<TransportError>)
    ensures e == None <==> self !in cut && to !in cut && inboxLen.Some? && inboxLen.value < INBOX_CAPACITY
    ensures self in cut || to in cut ==> e == Some(Partitioned)
    ensures self !in cut && to !in cut && inboxLen.None? ==> e == Some(DestinationNotFound)
    ensures self !in cut && to !in cut && inboxLen.Some? && inboxLen.value >= INBOX_CAPACITY ==> e == Some(QueueFull)
  {
    if self in cut || to in cut then Some(Partitioned)
    else if inboxLen.None? then Some(DestinationNotFound)
    else if inboxLen.value >= INBOX_CAPACITY then Some(QueueFull)
    else None
  }

  class MockNetwork {
    var listeners: map<Address, Inbox>
    var cut: set<Address>

    /** Every listener owns its own inbox, and no inbox holds more than its capacity. */
    ghost predicate Valid()
      reads this, listeners.Values
    {
      && (forall a, b :: a in listeners && b in listeners && a != b ==> listeners[a] != listeners[b])
      && (forall a :: a in listeners ==> |listeners[a].queue| <= INBOX_CAPACITY)
    }

    /** The number of queued messages at addr, if something listens there. */
    function InboxLength(addr: Address): Option<nat>
      reads this, listeners.Values
    {
      if addr in listeners then Some(|listeners[addr].queue|) else None
    }

    constructor ()
      ensures Valid() && listeners == map[] && cut == {}
    {
      listeners := map[];
      cut := {};
    }

    method Listen(addr: Address) returns (r: Result<MockConnection, TransportError>)
      requires Valid()
      modifies this`listeners
      ensures Valid()
      ensures r.Err? <==> addr in old(listeners)
      ensures r.Err? ==> r.error == AddressInUse && listeners == old(listeners)
      ensures r.Ok? ==>
        && fresh(r.value) && r.value.inbox != null && fresh(r.value.inbox)
        && r.value.addr == addr && r.value.net == this && !r.value.closed
        && r.value.inbox.queue == []
        && listeners == old(listeners)[addr := r.value.inbox]
        && r.value.OwnsInbox()
    {
      if addr in listeners {
        return Err(AddressInUse);
      }
      var ch := new Inbox();
      listeners := listeners[addr := ch];
      var c := new MockConnection(addr, this, ch);
      r := Ok(c);
    }

    /** Dialling allocates a sending-only connection and changes nothing in the network. */
    method Dial(addr: Address) returns (r: Result<MockConnection, TransportError>)
      ensures r.Err? <==> addr !in listeners
      ensures r.Err? ==> r.error == AddressNotFound
      ensures r.Ok? ==>
        && fresh(r.value) && r.value.addr == addr && r.value.net == this
        && r.value.inbox == null && !r.value.closed
    {
      if addr !in listeners {
        return Err(AddressNotFound);
      }
      var c := new MockConnection(addr, this, null);
      r := Ok(c);
    }

    method Partition(group1: seq<Address>, group2: seq<Address>)
      modifies this`cut
      ensures cut == old(cut) + (set a | a in group1) + (set a | a in group2)
    {
      var i := 0;
      while i < |group1|
        invariant 0 <= i <= |group1|
        invariant cut == old(cut) + (set a | a in group1[..i])
      {
        assert group1[..i + 1] == group1[..i] + [group1[i]];
        cut := cut + {group1[i]};
        i := i + 1;
      }
      assert group1[..i] == group1;
      var j := 0;
      while j < |group2|
        invariant 0 <= j <= |group2|
        invariant cut == old(cut) + (set a | a in group1) + (set a | a in group2[..j])
      {
        assert group2[..j + 1] == group2[..j] + [group2[j]];
        cut := cut + {group2[j]};
        j := j + 1;
      }
      assert group2[..j] == group2;
    }

    method Heal()
      modifies this`cut
      ensures cut == {}
    {
      cut := {};
    }
  }

  class MockConnection {
    const addr: Address
    const net: MockNetwork
    var inbox: Inbox?   // the receive channel; null for a dialled connection
    var closed: bool

    constructor (addr: Address, net: MockNetwork, inbox: Inbox?)
      ensures this.addr == addr && this.net == net && this.inbox == inbox && !closed
    {
      this.addr := addr;
      this.net := net;
      this.inbox := inbox;
      closed := false;
    }

    /** An open listening connection receives on the inbox the network lists under its address. */
    ghost predicate OwnsInbox()
      reads this, net
    {
      !closed && inbox != null && addr in net.listeners && net.listeners[addr] == inbox
    }

    /**
     * Sending never consults whether this connection is closed; only the
     * destination inbox can change, and only by one message at its end.
     */
    method Send(msg: Message) returns (err: Option<TransportError>)
      requires net.Valid()
      modifies if msg.to in net.listeners then {net.listeners[msg.to]} else {}
      ensures net.Valid()
      ensures err == SendError(net.cut, addr, msg.to, old(net.InboxLength(msg.to)))
      ensures err == None ==> net.listeners[msg.to].queue == old(net.listeners[msg.to].queue) + [msg]
      ensures err != None && msg.to in net.listeners ==> net.listeners[msg.to].queue == old(net.listeners[msg.to].queue)
      ensures forall a :: a in net.listeners && a != msg.to ==> net.listeners[a].queue == old(net.listeners[a].queue)
    {
      if addr in net.cut || msg.to in net.cut {
        return Some(Partitioned);
      }
      if msg.to !in net.listeners {
        return Some(DestinationNotFound);
      }
      var ch := net.listeners[msg.to];
      if |ch.queue| >= INBOX_CAPACITY {
        return Some(QueueFull);
      }
      ch.queue := ch.queue + [msg];
      err := None;
    }

    /** Takes the oldest message of this connection's own inbox. */
    method Recv() returns (r: Result<Message, TransportError>)
      requires net.Valid()
      modifies inbox
      ensures net.Valid()
      ensures closed || inbox == null ==> r == Err(NotListening)
      ensures !closed && inbox != null && old(inbox.queue) == [] ==> r == Err(WouldBlock) && inbox.queue == []
      ensures !closed && inbox != null && old(inbox.queue) != [] ==>
        r == Ok(old(inbox.queue)[0]) && inbox.queue == old(inbox.queue)[1..]
      ensures old(OwnsInbox()) ==> OwnsInbox() && net.listeners[addr] == inbox
    {
      if closed || inbox == null {
        return Err(NotListening);
      }
      if inbox.queue == [] {
        return Err(WouldBlock);
      }
      r := Ok(inbox.queue[0]);
      inbox.queue := inbox.queue[1..];
    }

    /**
     * The first close of a listening connection drops its inbox and frees its
     * address for a new Listen; closing a dialled connection leaves the
     * listeners alone; every later close does nothing.
     */
    method Close() returns (err: Option<TransportError>)
      requires net.Valid()
      modifies this, net`listeners
      ensures net.Valid() && err == None && closed
      ensures old(closed) ==> inbox == old(inbox) && net.listeners == old(net.listeners)
      ensures !old(closed) ==> inbox == null
      ensures !old(closed) && old(inbox) != null ==> net.listeners == old(net.listeners) - {addr}
      ensures !old(closed) && old(inbox) == null ==> net.listeners == old(net.listeners)
      ensures !OwnsInbox()
    {
      if closed {
        return None;
      }
      closed := true;
      if inbox != null {
        net.listeners := net.listeners - {addr};
        inbox := null;
      }
      err := None;
    }
  }

  /**
   * Message.ReplyString: dial the original sender and send it the reply.
   * The reply travels on a connection dialled to m.from, so only m.from's
   * partition mark matters.
   */
  method ReplyString(m: Message, prefix: string, message: string, net: MockNetwork) returns (err: Option<TransportError>)
    requires net.Valid()
    modifies if m.from in net.listeners then {net.listeners[m.from]} else {}
    ensures net.Valid()
    ensures m.from !in net.listeners ==> err == Some(AddressNotFound)
    ensures m.from in net.listeners ==> err == SendError(net.cut, m.from, m.from, old(net.InboxLength(m.from)))
    ensures err == None ==> net.listeners[m.from].queue == old(net.listeners[m.from].queue) + [Reply(m, prefix, message)]
    ensures forall a :: a in net.listeners && (a != m.from || err != None) ==> net.listeners[a].queue == old(net.listeners[a].queue)
  {
    var d := net.Dial(m.from);
    if d.Err? {
      return Some(d.error);
    }
    err := d.value.Send(Reply(m, prefix, message));
  }
}
