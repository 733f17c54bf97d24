/**
 * XnMqttClient: a minimal MQTT 3.1.1 client (QoS 0 publish, one-filter
 * subscribe). Each public and private method that talks to the socket is a
 * method of Client whose effect on (socket, connected, far end) is proved to
 * be the matching function of MqttSession.
 */
module MqttClient {
  import opened Base
  import opened MqttCodec
  import opened MqttSession

  class Client {
    /** clientId, username, password, keepAlive as fixed by the constructor. */
    const options: ConnectOptions
    /** Whether $socket holds an open stream. */
    var socketOpen: bool
    var connected: bool
    /** The far end of the stream (see MqttSession.Peer). */
    var peer: Peer

    function State(): Conn
      reads this
    {
      Conn(socketOpen, connected, peer)
    }

    /** A new client has no socket and is not connected. */
    constructor (options: ConnectOptions, peer: Peer)
      ensures this.options == options
      ensures State() == Conn(false, false, peer)
    {
      this.options := options;
      socketOpen := false;
      connected := false;
      this.peer := peer;
    }

    /** fread($socket, max): up to max of the bytes still to arrive; none once they are exhausted. */
    method Fread(max: nat) returns (chunk: seq<byte>)
      modifies this
      ensures chunk == old(peer.inbox)[..Min(max, |old(peer.inbox)|)]
      ensures peer == old(peer).(inbox := old(peer.inbox)[|chunk|..])
      ensures socketOpen == old(socketOpen) && connected == old(connected)
    {
      var n := Min(max, |peer.inbox|);
      chunk := peer.inbox[..n];
      peer := peer.(inbox := peer.inbox[n..]);
    }

    /** fwrite($socket, data): how many leading bytes of data the peer took; 0 when the call fails. */
    method Fwrite(data: seq<byte>) returns (n: nat)
      modifies this
      ensures old(peer.accepts) == [] ==> n == 0 && peer == old(peer)
      ensures old(peer.accepts) != [] ==>
        && n == Min(old(peer.accepts)[0], |data|)
        && peer == old(peer).(accepts := old(peer.accepts)[1..], sent := old(peer.sent) + data[..n])
      ensures socketOpen == old(socketOpen) && connected == old(connected)
    {
      if peer.accepts == [] {
        n := 0;
      } else {
        n := Min(peer.accepts[0], |data|);
        peer := peer.(accepts := peer.accepts[1..], sent := peer.sent + data[..n]);
      }
    }

    /** write: fwrite the rest of data until all of it is sent; a call that sends nothing throws. */
    method Write(data: seq<byte>) returns (outcome: Outcome)
      modifies this
      ensures (State(), outcome) == WriteStep(old(State()), data)
    {
      if !socketOpen {
        return Fail(NotConnected);
      }
      ghost var accepts := peer.accepts;
      ghost var calls := 0;
      var len := |data|;
      var written := 0;
      assert peer == PeerDuring(old(peer), data, accepts, 0, 0);
      while written < len
        invariant written <= len && calls <= |accepts|
        invariant peer == PeerDuring(old(peer), data, accepts, written, calls)
        invariant socketOpen && connected == old(connected)
        invariant WriteRunAfter(len, written, accepts, calls)
        decreases len - written
      {
        ghost var before := peer;
        var n := Fwrite(data[written..]);
        WritePeerStep(old(peer), before, peer, data, accepts, written, calls, n);
        WriteRunStep(len, written, accepts, calls, n);
        if n == 0 {
          calls := if calls == |accepts| then calls else calls + 1;
          return Fail(WriteFailed);
        }
        written := written + n;
        calls := calls + 1;
      }
      return Pass;
    }

    /**
     * readPacket: one fixed-header byte, the Remaining Length digits (at most
     * four), then up to that many body bytes; null when no socket or when the
     * header or a length digit times out. A body cut short is returned short.
     */
    method ReadPacket() returns (packet: Option<Packet>)
      modifies this
      ensures (packet, State()) == ReadStep(old(State()))
    {
      if !socketOpen {
        return None;
      }
      ghost var stream := peer.inbox;
      var header := Fread(1);
      if header == [] {
        return None;
      }
      var byte1 := header[0];
      var ptype := byte1 / 16;   // byte1 >> 4
      var flags := byte1 % 16;   // byte1 & 0x0F
      assert stream != [] && byte1 == stream[0] && peer.inbox == stream[1..];
      var length := ReadRemainingLength();
      ghost var d := DecodeLength(stream[1..]);
      if length.None? {
        assert d.None? && ParsePacket(stream) == (None, []);
        return None;
      }
      ghost var rest := stream[1 + d.value.1..];
      assert peer.inbox == rest by {
        assert stream[1..][d.value.1..] == rest;
      }
      var body := ReadBody(length.value);
      assert ParsePacket(stream) == (Some(Packet(ptype, flags, body)), peer.inbox);
      return Some(Packet(ptype, flags, body));
    }

    /**
     * The Remaining Length loop of readPacket: adds up base-128 digits until
     * one lacks 0x80 or four have been read; null when a digit times out.
     */
    method ReadRemainingLength() returns (length: Option<nat>)
      modifies this
      ensures var d := DecodeLength(old(peer.inbox));
        && (d.None? ==> length.None? && peer == old(peer).(inbox := []))
        && (d.Some? ==> length == Some(d.value.0) && peer == old(peer).(inbox := old(peer.inbox)[d.value.1..]))
      ensures socketOpen == old(socketOpen) && connected == old(connected)
    {
      ghost var src := peer.inbox;
      var multiplier: nat := 1;
      var value: nat := 0;
      ghost var k: nat := 0;
      var more := true;
      while more
        invariant 0 <= k <= 4 && k <= |src| && multiplier == Weight(k) && value < Weight(k)
        invariant peer == old(peer).(inbox := src[k..])
        invariant socketOpen == old(socketOpen) && connected == old(connected)
        invariant more ==> k < 4 && DecodeLength(src) == DecodeLengthAt(src, k, value)
        invariant !more ==> DecodeLength(src) == Some((value, k))
        decreases 4 - k
      {
        ghost var before := peer;
        var ch := Fread(1);
        ReadOneByte(old(peer), before, peer, src, k, ch);
        if ch == [] {
          return None;
        }
        var digit := ch[0];
        LengthDigit(src, k, value, multiplier, digit);
        value := value + digit % 128 * multiplier;   // ($digit & 127) * $multiplier
        multiplier := multiplier * 128;
        k := k + 1;
        more := digit >= 128 && multiplier <= 128 * 128 * 128;   // ($digit & 128) !== 0
      }
      return Some(value);
    }

    /** The body loop of readPacket: fread what is left until length bytes or a timeout. */
    method ReadBody(length: nat) returns (body: seq<byte>)
      modifies this
      ensures body == old(peer.inbox)[..Min(length, |old(peer.inbox)|)]
      ensures peer == old(peer).(inbox := old(peer.inbox)[|body|..])
      ensures socketOpen == old(socketOpen) && connected == old(connected)
    {
      ghost var rest := peer.inbox;
      body := [];
      var remaining: nat := length;
      while remaining > 0
        invariant |body| + remaining == length && |body| <= |rest|
        invariant body == rest[..|body|]
        invariant peer == old(peer).(inbox := rest[|body|..])
        invariant socketOpen == old(socketOpen) && connected == old(connected)
        decreases remaining
      {
        var chunk := Fread(remaining);
        if chunk == [] {
          assert |rest| == |body| < length;
          break;
        }
        assert rest[..|body|] + chunk == rest[..|body| + |chunk|];
        body := body + chunk;
        remaining := remaining - |chunk|;
      }
      assert |body| == Min(length, |rest|);
    }

    /** disconnect: best-effort DISCONNECT and close when a socket is open; then no socket, not connected. */
    method Disconnect()
      modifies this
      ensures State() == DisconnectStep(old(State()))
    {
      if socketOpen {
        var _ := Fwrite(DisconnectPacket);   // @fwrite: the result is ignored
        socketOpen := false;                 // @fclose
      }
      socketOpen := false;
      connected := false;
    }

    /** connect: open, send CONNECT, check the CONNACK; returns at once when already connected. */
    method Connect() returns (outcome: Outcome)
      modifies this
      ensures (State(), outcome) == ConnectStep(options, old(State()))
    {
      if connected {
        return Pass;
      }
      if !peer.listening {   // fsockopen failed
        socketOpen := false;
        return Fail(ConnectFailed);
      }
      socketOpen := true;
      var packet := BuildConnectPacket();
      outcome := Write(packet);
      if outcome.Fail? {
        return;
      }
      var resp := ReadPacket();
      if resp.None? || resp.value.ptype != 2 {
        Disconnect();
        return Fail(InvalidConnAck);
      }
      if |resp.value.body| < 2 {
        Disconnect();
        return Fail(MalformedConnAck);
      }
      var returnCode := resp.value.body[1];
      if returnCode != 0 {
        Disconnect();
        return Fail(ConnAckRefused(returnCode));
      }
      connected := true;
      return Pass;
    }

    /** buildConnectPacket: the CONNECT packet for this client's options. */
    method BuildConnectPacket() returns (packet: seq<byte>)
      ensures packet == ConnectPacket(options)
    {
      var body := ConnectBody(options);
      var length := EncodeLength(|body|);
      packet := [ConnectHeader] + length + body;
    }

    /** publish: connect if needed, then write one QoS-0 PUBLISH. */
    method Publish(topic: seq<byte>, payload: seq<byte>, retain: bool) returns (outcome: Outcome)
      modifies this
      ensures (State(), outcome) == PublishStep(options, old(State()), topic, payload, retain)
    {
      if !connected {
        outcome := Connect();
        if outcome.Fail? {
          return;
        }
      }
      var topicBin := EncodeString(topic);
      var body := topicBin + payload;
      var length := EncodeLength(|body|);
      var packet := [PublishHeader(retain)] + length + body;
      outcome := Write(packet);
    }

    /**
     * subscribeLoop: connect if needed, subscribe to filter, require a SUBACK,
     * then pass every PUBLISH that arrives before clock[0] + durationSec to the
     * callback; the callback's invocations are returned in order. clock lists
     * the successive values of time(), and its last value is past the deadline.
     */
    method SubscribeLoop(filter: seq<byte>, durationSec: int, clock: seq<int>)
      returns (outcome: Outcome, delivered: seq<Message>)
      requires |clock| >= 2 && clock[|clock| - 1] >= clock[0] + durationSec
      modifies this
      ensures SubscribeResult(State(), outcome, delivered) == SubscribeStep(options, old(State()), filter, durationSec, clock)
    {
      delivered := [];
      if !connected {
        outcome := Connect();
        if outcome.Fail? {
          return;
        }
      }
      assert SubscribeStep(options, old(State()), filter, durationSec, clock)
        == SubscribeConnected(State(), filter, durationSec, clock);
      outcome, delivered := Subscribe(filter, durationSec, clock);
    }

    /** subscribeLoop once connected: SUBSCRIBE, wait for the SUBACK, run the receive loop. */
    method Subscribe(filter: seq<byte>, durationSec: int, clock: seq<int>)
      returns (outcome: Outcome, delivered: seq<Message>)
      requires |clock| >= 2 && clock[|clock| - 1] >= clock[0] + durationSec
      modifies this
      ensures SubscribeResult(State(), outcome, delivered) == SubscribeConnected(old(State()), filter, durationSec, clock)
    {
      delivered := [];
      ghost var c0 := State();
      var packet := BuildSubscribePacket(filter);
      outcome := Write(packet);
      SubscribeSplit(c0, State(), outcome, filter, durationSec, clock);
      if outcome.Fail? {
        return;
      }
      outcome, delivered := FinishSubscribe(clock[0] + durationSec, clock);
    }

    /** The rest of subscribeLoop once SUBSCRIBE is written: require a SUBACK, then receive until endTime. */
    method FinishSubscribe(endTime: int, clock: seq<int>) returns (outcome: Outcome, delivered: seq<Message>)
      requires |clock| >= 2 && clock[|clock| - 1] >= endTime
      modifies this
      ensures SubscribeResult(State(), outcome, delivered) == AwaitSubAck(old(State()), endTime, clock)
    {
      var suback := ReadPacket();
      if suback.None? || suback.value.ptype != 9 {
        return Fail(NoSubAck), [];
      }
      delivered := Receive(endTime, clock);
      outcome := Pass;
    }

    /** What the receive loop passes to the callback for one read: handlePublish's result for a PUBLISH. */
    static method Deliver(pkt: Option<Packet>) returns (here: seq<Message>)
      ensures here == Delivery(pkt)
    {
      here := [];
      if pkt.Some? && pkt.value.ptype == 3 {
        var m := HandlePublish(pkt.value.body);
        if m.Some? {
          here := [m.value];   // $callback($topic, $payload)
        }
      }
    }

    /** The SUBSCRIBE packet subscribeLoop builds: packet identifier 1, the filter, requested QoS 0. */
    method BuildSubscribePacket(filter: seq<byte>) returns (packet: seq<byte>)
      ensures packet == SubscribePacket(filter)
    {
      var topicBin := EncodeString(filter) + [0x00];
      var body := SubscribePacketId + topicBin;
      assert body == SubscribeBody(filter);
      var length := EncodeLength(|body|);
      packet := [SubscribeHeader] + length + body;
    }

    /**
     * The receive loop of subscribeLoop: while time() is before endTime, read
     * one packet; hand a PUBLISH to handlePublish, skip anything else.
     */
    method Receive(endTime: int, clock: seq<int>) returns (delivered: seq<Message>)
      requires |clock| >= 2 && clock[|clock| - 1] >= endTime
      modifies this
      ensures (State(), delivered) == ReceiveRun(old(State()), endTime, clock, 1)
    {
      ghost var total := ReceiveRun(State(), endTime, clock, 1);
      delivered := [];
      var i := 1;
      assert [] + total.1 == total.1;
      while clock[i] < endTime
        invariant 1 <= i < |clock|
        invariant total == (ReceiveRun(State(), endTime, clock, i).0, delivered + ReceiveRun(State(), endTime, clock, i).1)
        decreases |clock| - i
      {
        ghost var before := State();
        var pkt := ReadPacket();
        var here := Deliver(pkt);
        ReceiveRunStep(before, State(), pkt, endTime, clock, i, delivered, total);
        delivered := delivered + here;
        i := i + 1;
      }
      assert delivered + [] == delivered;
    }
  }

  /** fread($socket, 1) at offset k of src: the byte there, or nothing once src is used up. */
  lemma ReadOneByte(p0: Peer, p: Peer, p': Peer, src: seq<byte>, k: nat, ch: seq<byte>)
    requires k <= |src| && p == p0.(inbox := src[k..])
    requires ch == p.inbox[..Min(1, |p.inbox|)] && p' == p.(inbox := p.inbox[|ch|..])
    ensures ch == [] ==> k == |src| && p' == p0.(inbox := [])
    ensures ch != [] ==> k < |src| && ch[0] == src[k] && p' == p0.(inbox := src[k + 1..])
  {
    if ch != [] {
      assert src[k..][1..] == src[k + 1..];
    }
  }
}
