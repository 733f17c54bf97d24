/**
 * What each operation of XnMqttClient does to the client's two fields
 * ($socket open or not, $connected) and to the far end of its socket, as
 * functions of the state before the call. The class in MqttClient is proved
 * to follow these functions; the lemmas here state what they promise.
 *
 * The socket is abstract: whether fsockopen succeeds, the bytes the broker
 * sends (a read that finds no byte has timed out), how many bytes each
 * successive fwrite call accepts, and the log of everything written.
 */
module MqttSession {
  import opened Base
  import opened MqttCodec

  /** The RuntimeExceptions the client throws. */
  datatype ClientError =
    | ConnectFailed               // fsockopen failed
    | NotConnected                // write with no socket
    | WriteFailed                 // fwrite returned 0 or false
    | InvalidConnAck              // no reply, or a reply that is not CONNACK
    | MalformedConnAck            // CONNACK body shorter than two bytes
    | ConnAckRefused(code: byte)  // non-zero CONNACK return code
    | NoSubAck                    // no reply, or a reply that is not SUBACK

  /** Normal return, or the exception thrown. */
  datatype Outcome = Pass | Fail(error: ClientError)

  /**
   * The far end of the socket: whether a connection attempt succeeds, the
   * bytes still to arrive, what each successive fwrite call accepts (0 means
   * the call fails; none left means every further call fails) and every byte
   * written so far, in order.
   */
  datatype Peer = Peer(listening: bool, inbox: seq<byte>, accepts: seq<nat>, sent: seq<byte>)

  /** $socket (open or not), $connected, and the far end of the socket. */
  datatype Conn = Conn(socketOpen: bool, connected: bool, peer: Peer)

  /** The client is never connected without a socket. */
  predicate Consistent(c: Conn)
  {
    c.connected ==> c.socketOpen
  }

  // ---------------------------------------------------------------- write

  /** How a write loop ended: all bytes sent or not, bytes sent, fwrite calls made. */
  datatype WriteReport = WriteReport(ok: bool, written: nat, calls: nat)

  /**
   * The write loop with `written` of `len` bytes already sent: each fwrite
   * call sends as much as the peer accepts (never more than what is left); a
   * call that sends nothing ends the loop with a failure.
   */
  function WriteRun(len: nat, written: nat, accepts: seq<nat>): (r: WriteReport)
    requires written <= len
    ensures written <= r.written <= len
    ensures r.ok <==> r.written == len
    ensures r.calls <= |accepts|
    decreases |accepts|
  {
    if written == len then WriteReport(true, written, 0)
    else if accepts == [] then WriteReport(false, written, 0)
    else if accepts[0] == 0 then WriteReport(false, written, 1)
    else
      var r := WriteRun(len, written + Min(accepts[0], len - written), accepts[1..]);
      r.(calls := r.calls + 1)
  }

  /** The write loop's run from the start ends as the run from `written` bytes and `calls` calls does. */
  ghost predicate WriteRunAfter(len: nat, written: nat, accepts: seq<nat>, calls: nat)
    requires written <= len && calls <= |accepts|
  {
    var r := WriteRun(len, written, accepts[calls..]);
    WriteRun(len, 0, accepts) == r.(calls := r.calls + calls)
  }

  /** The peer while the write loop has sent `written` bytes of data in `calls` fwrite calls. */
  function PeerDuring(p0: Peer, data: seq<byte>, accepts: seq<nat>, written: nat, calls: nat): Peer
    requires written <= |data| && calls <= |accepts|
  {
    p0.(accepts := accepts[calls..], sent := p0.sent + data[..written])
  }

  /**
   * One fwrite call of the write loop that sends n bytes: a call that sends
   * nothing ends the run, any other moves it on by n bytes and one call.
   */
  lemma WriteRunStep(len: nat, written: nat, accepts: seq<nat>, calls: nat, n: nat)
    requires written < len && calls <= |accepts| && WriteRunAfter(len, written, accepts, calls)
    requires n == if calls == |accepts| then 0 else Min(accepts[calls], len - written)
    ensures n == 0 ==> WriteRun(len, 0, accepts) == WriteReport(false, written, if calls == |accepts| then calls else calls + 1)
    ensures n > 0 ==> calls < |accepts| && written + n <= len && WriteRunAfter(len, written + n, accepts, calls + 1)
  {
    var rest := accepts[calls..];
    var r := WriteRun(len, written, rest);
    if rest == [] {
      assert r == WriteReport(false, written, 0);
    } else {
      assert rest[0] == accepts[calls] && rest[1..] == accepts[calls + 1..];
      if n == 0 {
        assert r == WriteReport(false, written, 1);
      } else {
        assert rest[0] != 0;
        var r' := WriteRun(len, written + n, rest[1..]);
        assert r == r'.(calls := r'.calls + 1);
      }
    }
  }

  /** The peer after one fwrite call of the write loop, from p (after written bytes and calls calls) to p'. */
  lemma WritePeerStep(p0: Peer, p: Peer, p': Peer, data: seq<byte>, accepts: seq<nat>, written: nat, calls: nat, n: nat)
    requires written < |data| && calls <= |accepts|
    requires p == PeerDuring(p0, data, accepts, written, calls)
    requires p.accepts == [] ==> n == 0 && p' == p
    requires p.accepts != [] ==>
      && n == Min(p.accepts[0], |data[written..]|)
      && p' == p.(accepts := p.accepts[1..], sent := p.sent + data[written..][..n])
    ensures n == if calls == |accepts| then 0 else Min(accepts[calls], |data| - written)
    ensures n == 0 ==> p' == PeerDuring(p0, data, accepts, written, if calls == |accepts| then calls else calls + 1)
    ensures n > 0 ==> p' == PeerDuring(p0, data, accepts, written + n, calls + 1)
  {
    if p.accepts != [] {
      assert p.accepts[0] == accepts[calls] && p.accepts[1..] == accepts[calls + 1..];
      SentJoin(data, written, n);
      assert p.sent + data[written..][..n] == p0.sent + data[..written + n] by {
        assert (p0.sent + data[..written]) + data[written..][..n] == p0.sent + (data[..written] + data[written..][..n]);
      }
    }
  }

  /** What one more fwrite sends extends what was sent before. */
  lemma SentJoin(data: seq<byte>, written: nat, n: nat)
    requires written + n <= |data|
    ensures data[..written] + data[written..][..n] == data[..written + n]
  {
    assert data[written..][..n] == data[written..written + n];
  }

  /** A peer that takes everything in one call makes the write succeed in one call. */
  lemma WriteRunOneCall(len: nat, accepts: seq<nat>)
    requires len > 0 && |accepts| > 0 && accepts[0] >= len
    ensures WriteRun(len, 0, accepts) == WriteReport(true, len, 1)
  {
  }

  /** write: sends all of data, or throws; what was sent before a failure stays sent. */
  function WriteStep(c: Conn, data: seq<byte>): (r: (Conn, Outcome))
    ensures r.0.socketOpen == c.socketOpen && r.0.connected == c.connected
    ensures r.0.peer.listening == c.peer.listening && r.0.peer.inbox == c.peer.inbox
    ensures r.1.Pass? <==> c.socketOpen && WriteRun(|data|, 0, c.peer.accepts).ok
    ensures r.1.Pass? ==> r.0.peer.sent == c.peer.sent + data
    ensures r.1 == Fail(NotConnected) <==> !c.socketOpen
    ensures r.1 == Fail(NotConnected) ==> r.0 == c
    ensures r.1 == Fail(WriteFailed) ==>
      && |c.peer.sent| <= |r.0.peer.sent| < |c.peer.sent| + |data|
      && r.0.peer.sent == c.peer.sent + data[..|r.0.peer.sent| - |c.peer.sent|]
  {
    if !c.socketOpen then (c, Fail(NotConnected))
    else
      var w := WriteRun(|data|, 0, c.peer.accepts);
      var peer := c.peer.(accepts := c.peer.accepts[w.calls..], sent := c.peer.sent + data[..w.written]);
      (c.(peer := peer), if w.ok then Pass else Fail(WriteFailed))
  }

  // ---------------------------------------------------------------- read, disconnect

  /** readPacket: null without a socket, otherwise the next packet off the stream. */
  function ReadStep(c: Conn): (r: (Option<Packet>, Conn))
  {
    if !c.socketOpen then (None, c)
    else
      var (p, rest) := ParsePacket(c.peer.inbox);
      (p, c.(peer := c.peer.(inbox := rest)))
  }

  /**
   * disconnect: with a socket, one best-effort fwrite of DISCONNECT whose
   * failure is ignored, then close; in every case no socket and not connected.
   */
  function DisconnectStep(c: Conn): (r: Conn)
    ensures !r.socketOpen && !r.connected
    ensures r.peer.listening == c.peer.listening && r.peer.inbox == c.peer.inbox
    ensures !c.socketOpen ==> r.peer == c.peer
    ensures c.socketOpen ==>
      && |c.peer.sent| <= |r.peer.sent| <= |c.peer.sent| + 2
      && r.peer.sent == c.peer.sent + DisconnectPacket[..|r.peer.sent| - |c.peer.sent|]
  {
    if !c.socketOpen then c.(connected := false)
    else
      var n := if c.peer.accepts == [] then 0 else Min(c.peer.accepts[0], |DisconnectPacket|);
      var accepts := if c.peer.accepts == [] then [] else c.peer.accepts[1..];
      Conn(false, false, c.peer.(accepts := accepts, sent := c.peer.sent + DisconnectPacket[..n]))
  }

  // ---------------------------------------------------------------- connect

  /** The checks connect applies to the broker's reply (section 3.2.2.3 of MQTT 3.1.1). */
  function ConnAckVerdict(reply: Option<Packet>): (r: Outcome)
    ensures r.Pass? <==> reply.Some? && reply.value.ptype == 2 && |reply.value.body| >= 2 && reply.value.body[1] == 0
    ensures r.Fail? ==> r.error.InvalidConnAck? || r.error.MalformedConnAck? || r.error.ConnAckRefused?
  {
    if reply.None? || reply.value.ptype != 2 then Fail(InvalidConnAck)
    else if |reply.value.body| < 2 then Fail(MalformedConnAck)
    else if reply.value.body[1] != 0 then Fail(ConnAckRefused(reply.value.body[1]))
    else Pass
  }

  /**
   * connect: nothing when already connected; otherwise open the socket, send
   * CONNECT, read one reply and judge it. A rejected reply disconnects; a
   * failed fsockopen or a failed write throws without calling disconnect.
   */
  function ConnectStep(o: ConnectOptions, c: Conn): (r: (Conn, Outcome))
  {
    if c.connected then (c, Pass)
    else if !c.peer.listening then (c.(socketOpen := false), Fail(ConnectFailed))
    else
      var (c1, w) := WriteStep(c.(socketOpen := true), ConnectPacket(o));
      if w.Fail? then (c1, w)
      else
        var (reply, c2) := ReadStep(c1);
        var verdict := ConnAckVerdict(reply);
        if verdict.Pass? then (c2.(connected := true), Pass) else (DisconnectStep(c2), verdict)
  }

  /**
   * From a disconnected state, connect succeeds exactly when the socket opens,
   * CONNECT is written in full and the first packet back is a CONNACK with a
   * body of two bytes or more whose return code is 0; it then leaves the
   * client connected over an open socket, CONNECT sent and the CONNACK consumed.
   * On every failure the client is not connected, and every failure after a
   * reply has also closed the socket.
   */
  lemma ConnectAcceptsOnlyConnAckZero(o: ConnectOptions, c: Conn)
    requires !c.connected
    ensures var (c', r) := ConnectStep(o, c);
      && (r.Pass? <==>
            && c.peer.listening
            && WriteRun(|ConnectPacket(o)|, 0, c.peer.accepts).ok
            && ConnAckVerdict(ParsePacket(c.peer.inbox).0).Pass?)
      && (r.Pass? ==>
            && c'.connected && c'.socketOpen
            && c'.peer.sent == c.peer.sent + ConnectPacket(o)
            && c'.peer.inbox == ParsePacket(c.peer.inbox).1)
      && (r.Fail? ==> !c'.connected)
      && (r.Fail? && r.error != WriteFailed ==> !c'.socketOpen)
      && (r.Fail? && r.error == WriteFailed ==> c'.socketOpen)
  {
  }

  /** Already connected: connect changes nothing. */
  lemma ConnectWhenConnected(o: ConnectOptions, c: Conn)
    requires c.connected
    ensures ConnectStep(o, c) == (c, Pass)
  {
  }

  /**
   * A CONNACK carrying return code 2 (identifier rejected) makes connect throw
   * with that code and leaves the client disconnected with its socket closed.
   */
  lemma ConnAckRefusedExample(o: ConnectOptions, c: Conn, more: seq<byte>)
    requires !c.connected && c.peer.listening
    requires WriteRun(|ConnectPacket(o)|, 0, c.peer.accepts).ok
    requires c.peer.inbox == [0x20, 0x02, 0x00, 0x02] + more
    ensures ConnectStep(o, c).1 == Fail(ConnAckRefused(2))
    ensures !ConnectStep(o, c).0.connected && !ConnectStep(o, c).0.socketOpen
  {
    FrameRoundTrip(0x20, [0x00, 0x02], more);
    assert Frame(0x20, [0x00, 0x02]) == [0x20, 0x02, 0x00, 0x02] by {
      assert RemainingLength(2) == [2];
    }
  }

  // ---------------------------------------------------------------- publish

  /** publish: connect first when not connected, then write one QoS-0 PUBLISH. */
  function PublishStep(o: ConnectOptions, c: Conn, topic: seq<byte>, payload: seq<byte>, retain: bool): (r: (Conn, Outcome))
  {
    var (c1, res) := if c.connected then (c, Pass) else ConnectStep(o, c);
    if res.Fail? then (c1, res) else WriteStep(c1, PublishPacket(topic, payload, retain))
  }

  /**
   * On a connected client, publish writes exactly
   * `0x30|retain, RemainingLength(|body|), body` with body = encodeString(topic) + payload,
   * and succeeds exactly when that write does; nothing is read.
   */
  lemma PublishWritesPacket(o: ConnectOptions, c: Conn, topic: seq<byte>, payload: seq<byte>, retain: bool)
    requires c.connected && Consistent(c)
    ensures var (c', r) := PublishStep(o, c, topic, payload, retain);
      && (r.Pass? <==> WriteRun(|PublishPacket(topic, payload, retain)|, 0, c.peer.accepts).ok)
      && (r.Pass? ==> (c'.peer.sent == c.peer.sent + [PublishHeader(retain)]
            + RemainingLength(|EncodeString(topic) + payload|) + EncodeString(topic) + payload))
      && c'.peer.inbox == c.peer.inbox && c'.connected
  {
  }

  /** publish("a/b", "hi", false) on a connected client puts 30 07 00 03 61 2F 62 68 69 on the wire. */
  lemma PublishExampleOnWire(o: ConnectOptions, c: Conn)
    requires c.connected && Consistent(c)
    requires |c.peer.accepts| > 0 && c.peer.accepts[0] >= 9
    ensures PublishStep(o, c, [0x61, 0x2F, 0x62], [0x68, 0x69], false)
      == (c.(peer := c.peer.(accepts := c.peer.accepts[1..],
                              sent := c.peer.sent + [0x30, 0x07, 0x00, 0x03, 0x61, 0x2F, 0x62, 0x68, 0x69])), Pass)
  {
    PublishExample();
    WriteRunOneCall(9, c.peer.accepts);
  }

  // ---------------------------------------------------------------- subscribeLoop

  function Delivered(m: Option<Message>): seq<Message>
  {
    if m.Some? then [m.value] else []
  }

  /**
   * The receive loop of subscribeLoop, at the i-th reading of the clock: it
   * runs while the reading is before endTime; a read that times out delivers
   * nothing, a PUBLISH goes through handlePublish, any other packet is ignored.
   * It also stops if the readings run out.
   */
  function ReceiveRun(c: Conn, endTime: int, clock: seq<int>, i: nat): (r: (Conn, seq<Message>))
    decreases |clock| - i
  {
    if i >= |clock| || clock[i] >= endTime then (c, [])
    else
      var (p, c1) := ReadStep(c);
      var (c2, later) := ReceiveRun(c1, endTime, clock, i + 1);
      (c2, Delivery(p) + later)
  }

  /** What one read of the receive loop hands to the callback. */
  function Delivery(p: Option<Packet>): seq<Message>
  {
    if p.Some? && p.value.ptype == 3 then Delivered(HandlePublish(p.value.body)) else []
  }

  /**
   * One iteration of the receive loop: if the run from c owes `total` after
   * `here` was delivered, then reading one packet and delivering what it
   * carries leaves the same total owed by the run from the next reading on.
   */
  lemma ReceiveRunStep(c: Conn, c1: Conn, p: Option<Packet>, endTime: int, clock: seq<int>, i: nat,
                       here: seq<Message>, total: (Conn, seq<Message>))
    requires i < |clock| && clock[i] < endTime
    requires ReadStep(c) == (p, c1)
    requires total == (ReceiveRun(c, endTime, clock, i).0, here + ReceiveRun(c, endTime, clock, i).1)
    ensures total == (ReceiveRun(c1, endTime, clock, i + 1).0, (here + Delivery(p)) + ReceiveRun(c1, endTime, clock, i + 1).1)
  {
    var rest := ReceiveRun(c1, endTime, clock, i + 1);
    ReceiveRunOnce(c, endTime, clock, i);
    assert here + (Delivery(p) + rest.1) == (here + Delivery(p)) + rest.1;
  }

  /** One read of the receive loop before the end time. */
  lemma ReceiveRunOnce(c: Conn, endTime: int, clock: seq<int>, i: nat)
    requires i < |clock| && clock[i] < endTime
    ensures ReceiveRun(c, endTime, clock, i)
      == (ReceiveRun(ReadStep(c).1, endTime, clock, i + 1).0, Delivery(ReadStep(c).0) + ReceiveRun(ReadStep(c).1, endTime, clock, i + 1).1)
  {
  }

  /** What subscribeLoop leaves behind: state, outcome and the callback's invocations in order. */
  datatype SubscribeResult = SubscribeResult(conn: Conn, outcome: Outcome, delivered: seq<Message>)

  /**
   * subscribeLoop: connect if needed, send SUBSCRIBE, require a SUBACK, then
   * run the receive loop until clock[0] + durationSec. clock lists the
   * successive readings of time().
   */
  function SubscribeStep(o: ConnectOptions, c: Conn, filter: seq<byte>, durationSec: int, clock: seq<int>): (r: SubscribeResult)
    requires |clock| >= 1
  {
    var (c1, res) := if c.connected then (c, Pass) else ConnectStep(o, c);
    if res.Fail? then SubscribeResult(c1, res, []) else SubscribeConnected(c1, filter, durationSec, clock)
  }

  /** subscribeLoop once connected: SUBSCRIBE, SUBACK, then the receive loop. */
  function SubscribeConnected(c: Conn, filter: seq<byte>, durationSec: int, clock: seq<int>): (r: SubscribeResult)
    requires |clock| >= 1
  {
    var (c2, w) := WriteStep(c, SubscribePacket(filter));
    if w.Fail? then SubscribeResult(c2, w, []) else AwaitSubAck(c2, clock[0] + durationSec, clock)
  }

  /** SubscribeConnected after its write: a failed write ends it, otherwise the SUBACK wait follows. */
  lemma SubscribeSplit(c: Conn, c1: Conn, w: Outcome, filter: seq<byte>, durationSec: int, clock: seq<int>)
    requires |clock| >= 1 && (c1, w) == WriteStep(c, SubscribePacket(filter))
    ensures w.Fail? ==> SubscribeConnected(c, filter, durationSec, clock) == SubscribeResult(c1, w, [])
    ensures !w.Fail? ==> SubscribeConnected(c, filter, durationSec, clock) == AwaitSubAck(c1, clock[0] + durationSec, clock)
  {
  }

  /** After SUBSCRIBE is sent: the next packet must be a SUBACK, then the receive loop runs. */
  function AwaitSubAck(c: Conn, endTime: int, clock: seq<int>): (r: SubscribeResult)
  {
    var (ack, c1) := ReadStep(c);
    if ack.None? || ack.value.ptype != 9 then SubscribeResult(c1, Fail(NoSubAck), [])
    else
      var (c2, msgs) := ReceiveRun(c1, endTime, clock, 1);
      SubscribeResult(c2, Pass, msgs)
  }

  /**
   * On a connected client, subscribeLoop writes one SUBSCRIBE packet;
   * it fails with NoSubAck exactly when the reply is not of type 9, and only
   * a failed write or a missing SUBACK stops it before the receive loop.
   */
  lemma SubscribeSendsRequest(o: ConnectOptions, c: Conn, filter: seq<byte>, durationSec: int, clock: seq<int>)
    requires c.connected && Consistent(c) && |clock| >= 1
    requires WriteRun(|SubscribePacket(filter)|, 0, c.peer.accepts).ok
    ensures var r := SubscribeStep(o, c, filter, durationSec, clock);
      && r.conn.peer.sent == c.peer.sent + SubscribePacket(filter)
      && (r.outcome == Fail(NoSubAck) <==>
            ParsePacket(c.peer.inbox).0.None? || ParsePacket(c.peer.inbox).0.value.ptype != 9)
      && (r.outcome.Pass? || r.outcome == Fail(NoSubAck))
      && (r.outcome.Fail? ==> r.delivered == [])
      && r.conn.connected
  {
    var c2 := WriteStep(c, SubscribePacket(filter)).0;
    var c3 := ReadStep(c2).1;
    ReceiveKeepsSent(c3, clock[0] + durationSec, clock, 1);
    SubscribeAfterWrite(c, c2, filter, durationSec, clock);
  }

  /** SubscribeSendsRequest once the SUBSCRIBE packet has been written in full. */
  lemma SubscribeAfterWrite(c: Conn, c2: Conn, filter: seq<byte>, durationSec: int, clock: seq<int>)
    requires |clock| >= 1 && c.connected && c2.connected && c2.socketOpen
    requires WriteStep(c, SubscribePacket(filter)) == (c2, Pass)
    requires c2.peer.inbox == c.peer.inbox
    requires var c3 := ReadStep(c2).1;
      ReceiveRun(c3, clock[0] + durationSec, clock, 1).0.peer.sent == c3.peer.sent
      && ReceiveRun(c3, clock[0] + durationSec, clock, 1).0.connected
    ensures var r := SubscribeConnected(c, filter, durationSec, clock);
      && r.conn.peer.sent == c2.peer.sent
      && (r.outcome == Fail(NoSubAck) <==>
            ParsePacket(c.peer.inbox).0.None? || ParsePacket(c.peer.inbox).0.value.ptype != 9)
      && (r.outcome.Pass? || r.outcome == Fail(NoSubAck))
      && (r.outcome.Fail? ==> r.delivered == [])
      && r.conn.connected
  {
  }

  lemma {:induction false} ReceiveKeepsSent(c: Conn, endTime: int, clock: seq<int>, i: nat)
    ensures ReceiveRun(c, endTime, clock, i).0.peer.sent == c.peer.sent
    ensures ReceiveRun(c, endTime, clock, i).0.connected == c.connected
    decreases |clock| - i
  {
    if !(i >= |clock| || clock[i] >= endTime) {
      ReceiveKeepsSent(ReadStep(c).1, endTime, clock, i + 1);
    }
  }

  /** With the deadline already reached at the first reading, the callback is never invoked. */
  lemma ZeroDurationDeliversNothing(o: ConnectOptions, c: Conn, filter: seq<byte>, clock: seq<int>)
    requires |clock| >= 2 && clock[1] >= clock[0]
    ensures SubscribeStep(o, c, filter, 0, clock).delivered == []
  {
  }

  /** While nothing arrives, every tick times out and nothing is delivered. */
  lemma {:induction false} ReceiveIdle(c: Conn, endTime: int, clock: seq<int>, i: nat)
    requires c.peer.inbox == []
    ensures ReceiveRun(c, endTime, clock, i) == (c, [])
    decreases |clock| - i
  {
    if !(i >= |clock| || clock[i] >= endTime) {
      assert ParsePacket([]) == (None, []);
      assert ReadStep(c) == (None, c);
      ReceiveIdle(c, endTime, clock, i + 1);
      assert ReceiveRun(c, endTime, clock, i) == (ReceiveRun(c, endTime, clock, i + 1).0, [] + ReceiveRun(c, endTime, clock, i + 1).1);
      assert ReceiveRun(c, endTime, clock, i + 1).0 == c;
      assert ReceiveRun(c, endTime, clock, i + 1).1 == [];
      assert ReceiveRun(c, endTime, clock, i).1 == [];
      assert ReceiveRun(c, endTime, clock, i).0 == c;
    }
  }

  /** A packet that framing can carry: type and flags in four bits each, body within the length field. */
  predicate Carriable(p: Packet)
  {
    p.ptype < 16 && p.flags < 16 && |p.body| <= MaxRemainingLength
  }

  /** The bytes of a sequence of packets sent back to back. */
  function Wire(ps: seq<Packet>): seq<byte>
    requires forall j :: 0 <= j < |ps| ==> Carriable(ps[j])
  {
    if ps == [] then []
    else
      assert Carriable(ps[0]);
      Frame(ps[0].ptype * 16 + ps[0].flags, ps[0].body) + Wire(ps[1..])
  }

  /** The messages handlePublish extracts from the PUBLISH packets among ps, in order. */
  function Publications(ps: seq<Packet>): seq<Message>
  {
    if ps == [] then []
    else (if ps[0].ptype == 3 then Delivered(HandlePublish(ps[0].body)) else []) + Publications(ps[1..])
  }

  /**
   * The receive loop delivers exactly the PUBLISH packets the broker sends,
   * each once and in order, and ignores every other packet, provided the
   * deadline leaves one tick per packet.
   */
  lemma {:induction false} ReceiveDeliversPublications(c: Conn, endTime: int, clock: seq<int>, i: nat, ps: seq<Packet>)
    requires c.socketOpen
    requires forall j :: 0 <= j < |ps| ==> Carriable(ps[j])
    requires c.peer.inbox == Wire(ps)
    requires i + |ps| <= |clock| && forall j :: i <= j < i + |ps| ==> clock[j] < endTime
    ensures ReceiveRun(c, endTime, clock, i).1 == Publications(ps)
    decreases ps
  {
    if ps == [] {
      ReceiveIdle(c, endTime, clock, i);
    } else {
      ReadWire(c, ps);
      var c1 := c.(peer := c.peer.(inbox := Wire(ps[1..])));
      ReceiveDeliversPublications(c1, endTime, clock, i + 1, ps[1..]);
      assert ReceiveRun(c, endTime, clock, i).1
        == (if ps[0].ptype == 3 then Delivered(HandlePublish(ps[0].body)) else [])
           + ReceiveRun(c1, endTime, clock, i + 1).1;
    }
  }

  /** Reading from a stream of framed packets yields the first one and leaves the others. */
  lemma ReadWire(c: Conn, ps: seq<Packet>)
    requires c.socketOpen && ps != []
    requires forall j :: 0 <= j < |ps| ==> Carriable(ps[j])
    requires c.peer.inbox == Wire(ps)
    ensures ReadStep(c) == (Some(ps[0]), c.(peer := c.peer.(inbox := Wire(ps[1..]))))
  {
    var p := ps[0];
    assert Carriable(p);
    var h: byte := p.ptype * 16 + p.flags;
    FrameRoundTrip(h, p.body, Wire(ps[1..]));
    assert h / 16 == p.ptype && h % 16 == p.flags;
  }

  /**
   * A PUBLISH with body 00 01 'x' 'y' 'z' reaches the callback exactly once,
   * as topic "x" and payload "yz".
   */
  lemma ReceiveExample(c: Conn, endTime: int, clock: seq<int>, i: nat)
    requires c.socketOpen
    requires c.peer.inbox == Frame(0x30, [0x00, 0x01, 0x78, 0x79, 0x7A])
    requires i < |clock| && clock[i] < endTime
    ensures ReceiveRun(c, endTime, clock, i).1 == [Message([0x78], [0x79, 0x7A])]
  {
    var p := Packet(3, 0, [0x00, 0x01, 0x78, 0x79, 0x7A]);
    assert Wire([p]) == Frame(0x30, p.body) + [];
    ReceiveDeliversPublications(c, endTime, clock, i, [p]);
    HandlePublishExample();
    assert Publications([p]) == Delivered(HandlePublish(p.body)) + Publications([]);
  }
}
