module Proxy {
  // The proxy phase of samples/socks5-proxy/client.c: bytes go back and forth between two connections.

  type byte = x: int | 0 <= x < 256

  const BUFFER := 2048
  const UV_ETIMEDOUT := -110
  const UV_ECANCELED := -125

  // c_busy, c_done, c_stop, c_dead
  datatype ConnState = Busy | Done | Stop | Dead

  // The states of client_ctx that matter here.
  datatype ClientState = ProxyStart | Proxying | AlmostDead1

  // conn.  What the sockets see: got is what has been read from the peer of this connection, wire what has been
  // written to it; an outstanding uv_write takes the first len bytes of the buffer of from.
  class Conn {
    var rdstate: ConnState
    var wrstate: ConnState
    var result: int
    const buf: array<byte>
    var from: Conn?
    var len: nat
    ghost var got: seq<byte>
    ghost var wire: seq<byte>

    constructor ()
      ensures rdstate == Stop && wrstate == Stop && result == 0 && buf.Length == BUFFER && fresh(buf)
      ensures got == [] && wire == []
    {
      rdstate, wrstate, result, from, len := Stop, Stop, 0, null, 0;
      buf := new byte[BUFFER](_ => 0);
      got, wire := [], [];
    }
  }

  // One direction, from b to a, between two callbacks: either b is being read, into a buffer that nothing is being
  // written from, or what was read is being written to a.  What has been and is being written is what was read.
  ghost predicate Flows(a: Conn, b: Conn)
    reads a, b, b.buf
  {
    && b.buf.Length == BUFFER
    && ((a.wrstate == Stop && b.rdstate == Busy && a.wire == b.got)
        || (a.wrstate == Busy && b.rdstate == Stop && a.from == b && a.len <= BUFFER
            && a.wire + b.buf[..a.len] == b.got))
  }

  // conn_read; conn_alloc hands out the buffer of c itself.
  method ConnRead(c: Conn)
    requires c.rdstate == Stop
    modifies c`rdstate
    ensures c.rdstate == Busy
  {
    c.rdstate := Busy;
  }

  // conn_write of the first len bytes in the buffer of b.
  method ConnWrite(c: Conn, b: Conn, len: nat)
    requires c.wrstate == Stop || c.wrstate == Done
    modifies c`wrstate, c`from, c`len
    ensures c.wrstate == Busy && c.from == b && c.len == len
  {
    c.wrstate, c.from, c.len := Busy, b, len;
  }

  method ConnClose(c: Conn)
    requires c.rdstate != Dead && c.wrstate != Dead
    modifies c`rdstate, c`wrstate
    ensures c.rdstate == Dead && c.wrstate == Dead
  {
    c.rdstate := Dead;
    c.wrstate := Dead;
  }

  // What conn_cycle can find: the direction from b to a is idle for now, or has just had a read or a write end.
  ghost predicate Turning(a: Conn, b: Conn)
    reads a, b, b.buf
  {
    || Flows(a, b)
    || (b.buf.Length == BUFFER && a.wrstate == Done && b.rdstate == Stop && a.wire == b.got)
    || (b.buf.Length == BUFFER && a.wrstate == Stop && b.rdstate == Done
        && 0 <= b.result <= BUFFER && a.wire + b.buf[..b.result] == b.got)
  }

  method ConnCycle(a: Conn, b: Conn) returns (r: int)
    requires a != b && (a.result >= 0 && b.result >= 0 ==> Turning(a, b))
    modifies a`wrstate, a`from, a`len, b`rdstate
    ensures r == if a.result < 0 || b.result < 0 then -1 else 0
    ensures r == 0 ==> Flows(a, b)
    ensures r == 0 && old(a.wrstate) == Stop && old(b.rdstate) == Done ==> a.wrstate == Busy && a.len == b.result
    ensures r == 0 && old(a.wrstate) == Done && old(b.rdstate) == Stop ==> b.rdstate == Busy
    ensures r == 0 && old(Flows(a, b)) ==> unchanged(a) && unchanged(b)
    ensures r != 0 ==> unchanged(a) && unchanged(b)
  {
    if a.result < 0 {
      return -1;
    }
    if b.result < 0 {
      return -1;
    }
    if a.wrstate == Done {
      a.wrstate := Stop;
    }
    if a.wrstate == Stop {
      if b.rdstate == Stop {
        ConnRead(b);
      } else if b.rdstate == Done {
        ConnWrite(a, b, b.result);
        b.rdstate := Stop;
      }
    }
    r := 0;
  }

  class Client {
    var state: ClientState
    const incoming: Conn
    const outgoing: Conn

    // While the session proxies, both directions flow, each with one operation outstanding.
    ghost predicate Valid()
      reads this, incoming, outgoing, incoming.buf, outgoing.buf
    {
      && incoming != outgoing && incoming.buf != outgoing.buf
      && incoming.buf.Length == outgoing.buf.Length == BUFFER
      && (state == Proxying ==>
            Flows(incoming, outgoing) && Flows(outgoing, incoming) && incoming.result >= 0 && outgoing.result >= 0)
      && (state == AlmostDead1 ==>
            incoming.rdstate == incoming.wrstate == outgoing.rdstate == outgoing.wrstate == Dead)
    }

    ghost predicate Alive()
      reads this, incoming, outgoing
    {
      incoming.rdstate != Dead && incoming.wrstate != Dead && outgoing.rdstate != Dead && outgoing.wrstate != Dead
    }

    constructor ()
      ensures Valid() && state == ProxyStart && incoming.rdstate == outgoing.rdstate == outgoing.wrstate == Stop
      ensures incoming.got == incoming.wire == outgoing.got == outgoing.wire == []
    {
      state := ProxyStart;
      incoming := new Conn();
      outgoing := new Conn();
    }

    // do_kill, outside address lookup.
    method DoKill() returns (next: ClientState)
      requires state != AlmostDead1 && Alive() && incoming != outgoing
      modifies incoming`rdstate, incoming`wrstate, outgoing`rdstate, outgoing`wrstate
      ensures next == AlmostDead1
      ensures incoming.rdstate == incoming.wrstate == outgoing.rdstate == outgoing.wrstate == Dead
    {
      next := AlmostDead1;
      ConnClose(incoming);
      ConnClose(outgoing);
    }

    // do_proxy_start: the reply to the client has been written, and the upstream connection stands.
    method DoProxyStart()
      requires Valid() && state == ProxyStart
      requires incoming.rdstate == Stop && incoming.wrstate == Done && outgoing.rdstate == Stop
               && outgoing.wrstate == Stop
      requires outgoing.result >= 0 && incoming.wire == outgoing.got && outgoing.wire == incoming.got
      modifies this`state, incoming`rdstate, incoming`wrstate, outgoing`rdstate, outgoing`wrstate
      ensures Valid() && state == if incoming.result < 0 then AlmostDead1 else Proxying
    {
      incoming.wrstate := Stop;
      if incoming.result < 0 {
        state := DoKill();
        return;
      }
      ConnRead(incoming);
      ConnRead(outgoing);
      state := Proxying;
    }

    // do_proxy, as do_next runs it after every callback.
    method DoProxy()
      requires Apart() && state == Proxying && Alive()
      requires incoming.result >= 0 && outgoing.result >= 0 ==>
        Turning(incoming, outgoing) && Turning(outgoing, incoming)
      modifies this`state
      modifies incoming`rdstate, incoming`wrstate, incoming`from, incoming`len
      modifies outgoing`rdstate, outgoing`wrstate, outgoing`from, outgoing`len
      ensures Valid() && state == if incoming.result < 0 || outgoing.result < 0 then AlmostDead1 else Proxying
      ensures state == Proxying ==> Handled(incoming, outgoing) && Handled(outgoing, incoming)
    {
      var r := ConnCycle(incoming, outgoing);
      if r != 0 {
        state := DoKill();
        return;
      }
      // The first call has looked at both results, so the exit after the second one is never taken.
      r := ConnCycle(outgoing, incoming);
      assert r == 0;
    }

    ghost predicate Apart()
      reads this
    {
      incoming != outgoing && incoming.buf != outgoing.buf && incoming.buf.Length == outgoing.buf.Length == BUFFER
    }

    // What has just been read is being written now; after a write, reading goes on.
    twostate predicate Handled(a: Conn, b: Conn)
      reads a, b
    {
      && (old(a.wrstate) == Stop && old(b.rdstate) == Done ==> a.wrstate == Busy && a.from == b && a.len == b.result)
      && (old(a.wrstate) == Done && old(b.rdstate) == Stop ==> b.rdstate == Busy)
    }

    ghost function Other(c: Conn): Conn {
      if c == incoming then outgoing else incoming
    }

    // conn_read_done, with data the bytes that were read if nread is not an error.
    method ReadDone(c: Conn, nread: int, data: seq<byte>)
      requires Valid() && state == Proxying && (c == incoming || c == outgoing) && c.rdstate == Busy
      requires nread >= 0 ==> |data| == nread <= BUFFER
      modifies this`state, incoming, outgoing, c.buf
      ensures Valid() && state == if nread < 0 then AlmostDead1 else Proxying
      ensures nread >= 0 ==> c.got == old(c.got) + data && Other(c).got == old(Other(c).got)
      ensures nread >= 0 ==> Other(c).wrstate == Busy && Other(c).from == c && c.buf[..Other(c).len] == data
      ensures incoming.wire == old(incoming.wire) && outgoing.wire == old(outgoing.wire)
    {
      if nread >= 0 {
        Receive(c, data);
      }
      c.rdstate := Done;
      c.result := nread;
      DoProxy();
    }

    // The kernel fills the buffer.
    method Receive(c: Conn, data: seq<byte>)
      requires |data| <= c.buf.Length
      modifies c`got, c.buf
      ensures c.got == old(c.got) + data && c.buf[..|data|] == data
    {
      forall i | 0 <= i < |data| {
        c.buf[i] := data[i];
      }
      c.got := c.got + data;
    }

    // conn_write_done; a successful write has put the bytes that are in the buffer now on the wire, a cancelled one is
    // that of a closed handle.
    method WriteDone(c: Conn, status: int)
      requires Valid() && (c == incoming || c == outgoing) && status <= 0
      requires status != UV_ECANCELED ==> state == Proxying && c.wrstate == Busy
      modifies this`state, incoming, outgoing
      ensures Valid() && incoming.got == old(incoming.got) && outgoing.got == old(outgoing.got)
      ensures status == UV_ECANCELED ==> unchanged(this) && unchanged(incoming) && unchanged(outgoing)
      ensures status != UV_ECANCELED ==> state == if status < 0 then AlmostDead1 else Proxying
      ensures status == 0 ==> c.wire == Other(c).got && Other(c).wire == old(Other(c).wire) && Other(c).rdstate == Busy
    {
      if status == UV_ECANCELED {
        return;
      }
      if status == 0 {
        c.wire := c.wire + c.from.buf[..c.len];
      }
      c.wrstate := Done;
      c.result := status;
      DoProxy();
    }

    // conn_timer_expire
    method TimerExpire(c: Conn)
      requires Valid() && state == Proxying && (c == incoming || c == outgoing)
      modifies this`state, incoming, outgoing
      ensures Valid() && state == AlmostDead1
    {
      c.result := UV_ETIMEDOUT;
      DoProxy();
    }
  }
}
