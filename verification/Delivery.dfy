/** From one peer's queue to the other's reader: what the writer reports as sent is heard. */
module Delivery {
  import opened SyncTypes
  import Framing
  import Connection

  /**
    * How packets become bytes: the hello, the cluster configuration and the ping a peer writes, and
    * the messages that the bytes given to `submit_message` encode.
    */
  datatype Voice<!H, !T> = Voice(
    codec: Framing.Codec<H, T>,
    hello: H,
    config: Framing.Message<T>,
    ping: Framing.Message<T>,
    meaning: Bytes -> Framing.Message<T>)

  ghost predicate Sound<H(!new), T(!new)>(v: Voice<H, T>) {
    && Framing.Faithful(v.codec) && |v.codec.encodeHello(v.hello)| < 0x1_0000
    && v.config.kind == Framing.ClusterConfig && Framing.Writable(v.codec, v.config)
    && v.ping.kind == Framing.Ping && Framing.Writable(v.codec, v.ping)
  }

  /** The bytes are a frame of the message they stand for. */
  ghost predicate Encodes<H, T>(v: Voice<H, T>, b: Bytes) {
    b == Framing.Frame(v.codec, v.meaning(b)) && Framing.Writable(v.codec, v.meaning(b))
  }

  function PacketBytes<H, T>(v: Voice<H, T>, p: Connection.Packet): Bytes {
    match p
    case Hello => Framing.HelloFrame(v.codec, v.hello)
    case Config => Framing.Frame(v.codec, v.config)
    case Ping => Framing.Frame(v.codec, v.ping)
    case Message(b) => b
  }

  function WireBytes<H, T>(v: Voice<H, T>, wire: seq<Connection.Packet>): Bytes {
    if wire == [] then [] else PacketBytes(v, wire[0]) + WireBytes(v, wire[1..])
  }

  /** The message a packet after the hello carries. */
  function Said<H, T>(v: Voice<H, T>, p: Connection.Packet): Framing.Message<T> {
    match p
    case Ping => v.ping
    case Message(b) => v.meaning(b)
    case _ => v.config
  }

  function AllSaid<H, T>(v: Voice<H, T>, wire: seq<Connection.Packet>): (ms: seq<Framing.Message<T>>)
    ensures |ms| == |wire| && forall i :: 0 <= i < |wire| ==> ms[i] == Said(v, wire[i])
  {
    seq(|wire|, i requires 0 <= i < |wire| => Said(v, wire[i]))
  }

  // ---------------------------------------------------------------------------
  // Where packets come from
  // ---------------------------------------------------------------------------

  /** The hello comes first and only once. */
  ghost predicate HelloFirst(c: Connection.Conn) {
    forall i :: 0 <= i < |c.wire| ==> (c.wire[i].Hello? <==> i == 0)
  }

  lemma WireStarted(c: Connection.Conn)
    requires Connection.GoodWire(c) && !c.phase.Greeting? && !c.phase.Stopped?
    ensures c.wire != []
  {
  }

  lemma StepKeepsHelloFirst(c: Connection.Conn, step: Connection.Step)
    requires Connection.Enabled(c, step) && Connection.GoodWire(c) && HelloFirst(c)
    ensures HelloFirst(Connection.Apply(c, step))
  {
    if step.ConfigWritten? || step.Finish? {
      WireStarted(c);
    }
  }

  lemma {:induction false} RunKeepsHelloFirst(c: Connection.Conn, steps: seq<Connection.Step>)
    requires Connection.Runs(c, steps) && Connection.GoodWire(c) && HelloFirst(c)
    ensures HelloFirst(Connection.After(c, steps))
    decreases |steps|
  {
    if steps != [] {
      Connection.WireStaysGood(c, steps[0]);
      StepKeepsHelloFirst(c, steps[0]);
      RunKeepsHelloFirst(Connection.Apply(c, steps[0]), steps[1..]);
    }
  }

  /** What a prefix of the packets other than pings was written as, up to and including its last. */
  lemma {:induction false} PrefixWritten(wire: seq<Connection.Packet>, p: seq<Connection.Packet>) returns (n: nat)
    requires p <= Connection.WithoutPings(wire) && p != []
    ensures 0 < n <= |wire| && Connection.WithoutPings(wire[..n]) == p
    ensures wire[n - 1] == Last(p) && Connection.WithoutPings(wire[..n - 1]) == p[..|p| - 1]
    decreases |wire|
  {
    var front, last := wire[..|wire| - 1], Last(wire);
    if last != Connection.Ping && |p| == |Connection.WithoutPings(wire)| {
      n := |wire|;
      assert wire[..n] == wire;
    } else {
      n := PrefixWritten(front, p);
      assert front[..n] == wire[..n] && front[..n - 1] == wire[..n - 1];
    }
  }

  lemma {:induction false} OtherThanPing(wire: seq<Connection.Packet>, i: nat)
    requires i < |wire| && wire[i] != Connection.Ping
    ensures wire[i] in Connection.WithoutPings(wire)
    decreases |wire|
  {
    if i < |wire| - 1 {
      OtherThanPing(wire[..|wire| - 1], i);
    }
  }

  /** The packet is a configuration, a ping, or the message of one of these items. */
  ghost predicate FromItems(p: Connection.Packet, items: seq<Connection.Item>) {
    p == Connection.Config || p == Connection.Ping ||
    (p.Message? && exists a :: 0 <= a < |items| && items[a].bytes == p.bytes != [])
  }

  lemma {:induction false} PacketsFromItems(items: seq<Connection.Item>, p: Connection.Packet)
    requires p in Connection.Packets(items)
    ensures p.Message? && FromItems(p, items)
    decreases |items|
  {
    var n := |items| - 1;
    if p in Connection.Packets(items[..n]) {
      PacketsFromItems(items[..n], p);
      var a :| 0 <= a < n && items[..n][a].bytes == p.bytes != [];
      assert items[a].bytes == p.bytes;
    } else {
      assert items[n].bytes == p.bytes != [];
    }
  }

  lemma WrittenFromItems(wire: seq<Connection.Packet>, items: seq<Connection.Item>, i: nat)
    requires Connection.WithoutPings(wire) <= Connection.OPENING + Connection.Packets(items)
    requires i < |wire| && !wire[i].Hello?
    ensures FromItems(wire[i], items)
  {
    if wire[i] != Connection.Ping {
      OtherThanPing(wire, i);
      var all := Connection.OPENING + Connection.Packets(items);
      assert wire[i] in all;
      if wire[i] != Connection.Config {
        PacketsFromItems(items, wire[i]);
      }
    }
  }

  // ---------------------------------------------------------------------------
  // Reading them
  // ---------------------------------------------------------------------------

  lemma FrameOfSaid<H(!new), T(!new)>(v: Voice<H, T>, p: Connection.Packet, items: seq<Connection.Item>)
    requires Sound(v) && FromItems(p, items)
    requires forall a :: 0 <= a < |items| && items[a].bytes != [] ==> Encodes(v, items[a].bytes)
    ensures PacketBytes(v, p) == Framing.Frame(v.codec, Said(v, p)) && Framing.Writable(v.codec, Said(v, p))
  {
  }

  lemma {:induction false} BytesOfSaid<H(!new), T(!new)>(v: Voice<H, T>, wire: seq<Connection.Packet>, items: seq<Connection.Item>)
    requires Sound(v)
    requires forall i :: 0 <= i < |wire| ==> FromItems(wire[i], items)
    requires forall a :: 0 <= a < |items| && items[a].bytes != [] ==> Encodes(v, items[a].bytes)
    ensures WireBytes(v, wire) == Framing.Frames(v.codec, AllSaid(v, wire)) && Framing.AllWritable(v.codec, AllSaid(v, wire))
    decreases |wire|
  {
    forall i | 0 <= i < |wire| ensures Framing.Writable(v.codec, AllSaid(v, wire)[i]) {
      FrameOfSaid(v, wire[i], items);
    }
    if wire != [] {
      FrameOfSaid(v, wire[0], items);
      assert FromItems(wire[0], items);
      BytesOfSaid(v, wire[1..], items);
      assert AllSaid(v, wire)[1..] == AllSaid(v, wire[1..]);
    }
  }

  lemma {:induction false} WireBytesConcat<H, T>(v: Voice<H, T>, a: seq<Connection.Packet>, b: seq<Connection.Packet>)
    ensures WireBytes(v, a + b) == WireBytes(v, a) + WireBytes(v, b)
    decreases |a|
  {
    if a == [] {
      assert a + b == b;
    } else {
      assert (a + b)[1..] == a[1..] + b;
      WireBytesConcat(v, a[1..], b);
    }
  }

  /** Frames are heard whatever comes after them, as long as none before the last is a close and every wait is for something. */
  lemma {:induction false} FramesAreHeard<H(!new), T(!new)>(
    c: Framing.Codec<H, T>, ms: seq<Framing.Message<T>>, tail: Bytes, waits: nat -> Framing.Wait, k: nat)
    requires Framing.Faithful(c) && Framing.AllWritable(c, ms)
    requires forall i :: 0 <= i < |ms| - 1 ==> ms[i].kind != Framing.Close
    requires forall j :: k <= j < k + |ms| ==> waits(j) == Framing.Arrives
    ensures ms <= Framing.ReadAll(c, Framing.Frames(c, ms) + tail, waits, k).messages
    decreases |ms|
  {
    if ms != [] {
      var rest := Framing.Frames(c, ms[1..]) + tail;
      assert Framing.Frames(c, ms) + tail == Framing.Frame(c, ms[0]) + rest;
      Framing.ReadFrame(c, ms[0], rest);
      assert ms == [ms[0]] + ms[1..];
      if |ms| > 1 {
        assert ms[0].kind != Framing.Close;
        FramesAreHeard(c, ms[1..], tail, waits, k + 1);
      }
    }
  }

  /** What the wire carries up to the n-th packet is read back, hello first. */
  lemma PacketsAreHeard<H(!new), T(!new)>(
    v: Voice<H, T>, wire: seq<Connection.Packet>, n: nat, items: seq<Connection.Item>, tail: Bytes, waits: nat -> Framing.Wait)
    requires Sound(v) && 0 < n <= |wire| && wire[0].Hello?
    requires forall i :: 0 < i < n ==> FromItems(wire[i], items)
    requires forall a :: 0 <= a < |items| && items[a].bytes != [] ==> Encodes(v, items[a].bytes)
    requires forall i :: 0 < i < n - 1 ==> Said(v, wire[i]).kind != Framing.Close
    requires forall j :: 0 <= j < n ==> waits(j) == Framing.Arrives
    ensures var rest := WireBytes(v, wire[1..]) + tail;
            && Framing.ReadHello(v.codec, WireBytes(v, wire) + tail) == Framing.Got(v.hello, rest)
            && AllSaid(v, wire[1..n]) <= Framing.ReadAll(v.codec, rest, waits, 0).messages
  {
    HelloIsHeard(v, wire, tail);
    SplitAfter(v, wire, n, tail);
    SaidIsHeard(v, wire[1..n], items, WireBytes(v, wire[n..]) + tail, waits);
  }

  lemma SaidIsHeard<H(!new), T(!new)>(
    v: Voice<H, T>, wire: seq<Connection.Packet>, items: seq<Connection.Item>, tail: Bytes, waits: nat -> Framing.Wait)
    requires Sound(v) && forall i :: 0 <= i < |wire| ==> FromItems(wire[i], items)
    requires forall a :: 0 <= a < |items| && items[a].bytes != [] ==> Encodes(v, items[a].bytes)
    requires forall i :: 0 <= i < |wire| - 1 ==> Said(v, wire[i]).kind != Framing.Close
    requires forall j :: 0 <= j < |wire| ==> waits(j) == Framing.Arrives
    ensures AllSaid(v, wire) <= Framing.ReadAll(v.codec, WireBytes(v, wire) + tail, waits, 0).messages
  {
    BytesOfSaid(v, wire, items);
    FramesAreHeard(v.codec, AllSaid(v, wire), tail, waits, 0);
  }

  lemma HelloIsHeard<H(!new), T(!new)>(v: Voice<H, T>, wire: seq<Connection.Packet>, tail: Bytes)
    requires Sound(v) && wire != [] && wire[0].Hello?
    ensures Framing.ReadHello(v.codec, WireBytes(v, wire) + tail) == Framing.Got(v.hello, WireBytes(v, wire[1..]) + tail)
  {
    var rest := WireBytes(v, wire[1..]) + tail;
    assert WireBytes(v, wire) + tail == Framing.HelloFrame(v.codec, v.hello) + rest;
    Framing.ReadHelloFrame(v.codec, v.hello, rest);
  }

  lemma Regroup(a: Bytes, b: Bytes, c: Bytes)
    ensures (a + b) + c == a + (b + c)
  {
  }

  lemma SplitAfter<H, T>(v: Voice<H, T>, wire: seq<Connection.Packet>, n: nat, tail: Bytes)
    requires 0 < n <= |wire|
    ensures WireBytes(v, wire[1..]) + tail == WireBytes(v, wire[1..n]) + (WireBytes(v, wire[n..]) + tail)
  {
    assert wire[1..] == wire[1..n] + wire[n..];
    WireBytesConcat(v, wire[1..n], wire[n..]);
    Regroup(WireBytes(v, wire[1..n]), WireBytes(v, wire[n..]), tail);
  }

  /** No message accepted before the k-th asks to close the connection. */
  ghost predicate OpenUntil<H, T>(v: Voice<H, T>, c: Connection.Conn, k: nat) {
    forall a :: 0 <= a < |c.accepted| && a < k && c.accepted[a].bytes != [] ==> v.meaning(c.accepted[a].bytes).kind != Framing.Close
  }

  lemma OpenSaid<H(!new), T(!new)>(v: Voice<H, T>, c: Connection.Conn, k: nat, p: Connection.Packet)
    requires Sound(v) && k <= |c.accepted| && OpenUntil(v, c, k) && FromItems(p, c.accepted[..k])
    ensures Said(v, p).kind != Framing.Close
  {
    if p.Message? {
      var a :| 0 <= a < k && c.accepted[..k][a].bytes == p.bytes != [];
      assert c.accepted[a].bytes == p.bytes;
    }
  }

  /** The packets before the last of those that carry the first k + 1 messages carry the first k. */
  lemma EarlierPackets(c: Connection.Conn, k: nat, n: nat)
    requires k < |c.accepted| && 0 < n <= |c.wire|
    requires var p := Connection.OPENING + Connection.Packets(c.accepted[..k + 1]);
             Connection.WithoutPings(c.wire[..n]) == p && Connection.WithoutPings(c.wire[..n - 1]) == p[..|p| - 1]
    ensures Connection.WithoutPings(c.wire[..n - 1]) <= Connection.OPENING + Connection.Packets(c.accepted[..k])
    ensures c.accepted[k].bytes != [] ==> Connection.Message(c.accepted[k].bytes) in Connection.WithoutPings(c.wire[..n])
  {
    var items := c.accepted[..k + 1];
    assert items[..k] == c.accepted[..k] && Last(items) == c.accepted[k];
  }

  /**
    * When a listener is told that its message was sent, the reader at the other end, unless it stops
    * before, hears hello, configuration, every message accepted before and the message itself, in that
    * order, pings aside, whatever bytes follow: a write that broke off, or later messages.
    */
  lemma SentIsHeard<H(!new), T(!new)>(
    v: Voice<H, T>, steps: seq<Connection.Step>, i: nat, tail: Bytes, waits: nat -> Framing.Wait)
    returns (k: nat, n: nat)
    requires Sound(v) && Connection.Runs(Connection.INITIAL, steps)
    requires var c := Connection.After(Connection.INITIAL, steps);
             && i < |c.told| && c.told[i].reply.Sent?
             && (forall a :: 0 <= a < |c.accepted| && c.accepted[a].bytes != [] ==> Encodes(v, c.accepted[a].bytes))
             && (forall j :: 0 <= j < |c.wire| ==> waits(j) == Framing.Arrives)
    ensures var c := Connection.After(Connection.INITIAL, steps);
            && k < |c.accepted| && 0 < n <= |c.wire|
            && Connection.BornAs(c, c.told[i].listener, Connection.WithMessage(k))
            && Connection.WithoutPings(c.wire[..n]) == Connection.OPENING + Connection.Packets(c.accepted[..k + 1])
            && (OpenUntil(v, c, k) ==>
                  && Framing.ReadHello(v.codec, WireBytes(v, c.wire) + tail) ==
                     Framing.Got(v.hello, WireBytes(v, c.wire[1..]) + tail)
                  && var heard := Framing.ReadAll(v.codec, WireBytes(v, c.wire[1..]) + tail, waits, 0).messages;
                     && AllSaid(v, c.wire[1..n]) <= heard
                     && (c.accepted[k].bytes != [] ==> v.meaning(c.accepted[k].bytes) in heard))
  {
    var c := Connection.After(Connection.INITIAL, steps);
    k := Connection.SentMeansWritten(steps, i);
    RunKeepsHelloFirst(Connection.INITIAL, steps);
    n := PrefixWritten(c.wire, Connection.OPENING + Connection.Packets(c.accepted[..k + 1]));
    EarlierPackets(c, k, n);
    if OpenUntil(v, c, k) {
      WrittenIsHeard(v, c, k, n, tail, waits);
    }
  }

  lemma WrittenIsHeard<H(!new), T(!new)>(
    v: Voice<H, T>, c: Connection.Conn, k: nat, n: nat, tail: Bytes, waits: nat -> Framing.Wait)
    requires Sound(v) && HelloFirst(c) && k < |c.accepted| && 0 < n <= |c.wire| && OpenUntil(v, c, k)
    requires forall a :: 0 <= a < |c.accepted| && c.accepted[a].bytes != [] ==> Encodes(v, c.accepted[a].bytes)
    requires forall j :: 0 <= j < |c.wire| ==> waits(j) == Framing.Arrives
    requires Connection.WithoutPings(c.wire[..n]) == Connection.OPENING + Connection.Packets(c.accepted[..k + 1])
    requires Connection.WithoutPings(c.wire[..n - 1]) <= Connection.OPENING + Connection.Packets(c.accepted[..k])
    requires c.accepted[k].bytes != [] ==> Connection.Message(c.accepted[k].bytes) in Connection.WithoutPings(c.wire[..n])
    ensures Framing.ReadHello(v.codec, WireBytes(v, c.wire) + tail) == Framing.Got(v.hello, WireBytes(v, c.wire[1..]) + tail)
    ensures var heard := Framing.ReadAll(v.codec, WireBytes(v, c.wire[1..]) + tail, waits, 0).messages;
            && AllSaid(v, c.wire[1..n]) <= heard
            && (c.accepted[k].bytes != [] ==> v.meaning(c.accepted[k].bytes) in heard)
  {
    var items := c.accepted[..k + 1];
    forall j | 0 < j < n ensures FromItems(c.wire[j], items) {
      WrittenFromItems(c.wire[..n], items, j);
    }
    forall j | 0 < j < n - 1 ensures Said(v, c.wire[j]).kind != Framing.Close {
      WrittenFromItems(c.wire[..n - 1], c.accepted[..k], j);
      OpenSaid(v, c, k, c.wire[j]);
    }
    PacketsAreHeard(v, c.wire, n, items, tail, waits);
    if c.accepted[k].bytes != [] {
      var j := WrittenAt(c.wire[..n], Connection.Message(c.accepted[k].bytes));
      assert AllSaid(v, c.wire[1..n])[j - 1] == Said(v, c.wire[j]);
    }
  }

  lemma {:induction false} WrittenAt(wire: seq<Connection.Packet>, p: Connection.Packet) returns (j: nat)
    requires p in Connection.WithoutPings(wire)
    ensures j < |wire| && wire[j] == p
    decreases |wire|
  {
    var n := |wire| - 1;
    if p in Connection.WithoutPings(wire[..n]) {
      j := WrittenAt(wire[..n], p);
    } else {
      j := n;
    }
  }
}
