/**
 * The receive side of the serial link: frames are checked, ordered modulo eight and queued
 * in a fixed pool of packets until the upper layer reads them.
 */
module SerialRx {
  import Crc16
  import Slip
  import opened Bytes
  import opened LinkNegotiation
  import SlapWindow

  const HDR_LEN: nat := 4
  const CRC_INIT: bv16 := 0xFFFF

  const SERIAL_DATA: bv8 := 0
  const SERIAL_CTRL: bv8 := 14

  // ---------------------------------------------------------------- frames

  /** Long enough to be checked, and the last two bytes are the CRC of the rest. */
  predicate Intact(f: seq<bv8>) {
    |f| >= HDR_LEN && f[|f| - 2..] == Crc16.Trailer(Crc16.Crc(CRC_INIT, f[..|f| - 2]))
  }

  function LengthIn(f: seq<bv8>): nat
    requires |f| >= HDR_LEN
  {
    f[2] as nat * 256 + f[3] as nat
  }

  function SeqIn(f: seq<bv8>): nat
    requires |f| >= HDR_LEN
  {
    (f[0] >> 4) as nat
  }

  function AckIn(f: seq<bv8>): nat
    requires |f| >= HDR_LEN
  {
    (f[0] & 0x0F) as nat
  }

  function TypeIn(f: seq<bv8>): bv8
    requires |f| >= HDR_LEN
  {
    f[1] & 0x0F
  }

  /** The checks CompletePacket makes before it looks at the packet type. */
  predicate Acceptable(f: seq<bv8>) {
    Intact(f) && LengthIn(f) == |f| - HDR_LEN - 2
  }

  function Payload(f: seq<bv8>): seq<bv8> {
    if |f| < HDR_LEN + 2 then [] else f[HDR_LEN..|f| - 2]
  }

  function Octets(s: seq<bv8>): (r: seq<uint8>)
    ensures |r| == |s|
  {
    seq(|s|, i requires 0 <= i < |s| => s[i] as int as uint8)
  }

  // ---------------------------------------------------------------- the receiver as a value

  /** Calls into the transmit side. */
  datatype Notice = ReceivedAck(ack: nat) | ReceivedSeq(seqNum: nat) | EnqueueCtrl(packet: seq<uint8>)

  /** The link, the next sequence number, the payloads waiting to be read, the free packets and what went to the transmit side. */
  datatype Receiver = Receiver(link: Link, expected: nat, queue: seq<seq<bv8>>, free: nat, sent: seq<Notice>)

  function Controls(packets: seq<seq<uint8>>): seq<Notice> {
    seq(|packets|, i requires 0 <= i < |packets| => EnqueueCtrl(packets[i]))
  }

  predicate InOrder(r: Receiver, f: seq<bv8>) {
    && Acceptable(f) && TypeIn(f) == SERIAL_DATA && r.link.state == Active
    && SeqIn(f) == r.expected && r.free > 0
  }

  /** The data packet with number seqNum, once its acknowledgement has been passed on. */
  function OnData(r: Receiver, seqNum: nat, payload: seq<bv8>): Receiver {
    if seqNum != r.expected then
      if SlapWindow.SeqGt(seqNum, r.expected, r.link.window as nat) then r
      else r.(sent := r.sent + [ReceivedSeq(seqNum)])
    else if r.free == 0 then r
    else r.(expected := (r.expected + 1) % 8, queue := r.queue + [payload], free := r.free - 1,
            sent := r.sent + [ReceivedSeq(seqNum)])
  }

  /** CompletePacket */
  function OnFrame(r: Receiver, f: seq<bv8>): Receiver {
    if !Acceptable(f) then r
    else if TypeIn(f) == SERIAL_CTRL then
      var (link, replies) := OnPacket(r.link, Octets(Payload(f)));
      r.(link := link, sent := r.sent + Controls(replies))
    else if r.link.state != Active then r
    else
      var heard := r.(sent := r.sent + [ReceivedAck(AckIn(f))]);
      if TypeIn(f) != SERIAL_DATA then heard else OnData(heard, SeqIn(f), Payload(f))
  }

  function OnFrames(r: Receiver, frames: seq<seq<bv8>>): Receiver
    decreases |frames|
  {
    if frames == [] then r else OnFrames(OnFrame(r, frames[0]), frames[1..])
  }

  /** The inner loop of AJ_SerialRecv: up to n bytes from the front of the queue. */
  function Take(r: Receiver, n: nat): (seq<bv8>, Receiver)
    decreases |r.queue|
  {
    if n == 0 || r.queue == [] then ([], r)
    else if |r.queue[0]| <= n then
      var (more, rest) := Take(r.(queue := r.queue[1..], free := r.free + 1), n - |r.queue[0]|);
      (r.queue[0] + more, rest)
    else (r.queue[0][..n], r.(queue := [r.queue[0][n..]] + r.queue[1..]))
  }

  // ---------------------------------------------------------------- damage is noticed

  /** A change within two adjacent bytes, anywhere in a frame of any length, is noticed. */
  lemma DamageRejected(p: seq<bv8>, u: seq<bv8>, v: seq<bv8>, s: seq<bv8>)
    requires |u| == |v| <= 2 && u != v
    requires Intact(p + u + s)
    ensures !Intact(p + v + s)
    ensures forall r :: OnFrame(r, p + v + s) == r
  {
    hide Crc16.Crc, Crc16.Trailer;
    if |s| >= 2 {
      BodyDamage(p, u, v, s);
    } else if |s| == 1 && |u| == 2 {
      EdgeDamage(p, u, v, s);
    } else {
      var f, g := p + u + s, p + v + s;
      assert f[..|f| - 2] == g[..|f| - 2] == p[..|f| - 2];
      var k := |p| - (|f| - 2);
      assert f[|f| - 2..] == p[|f| - 2..] + u + s && g[|f| - 2..] == p[|f| - 2..] + v + s;
      assert u == f[|f| - 2..][k..k + |u|] && v == g[|f| - 2..][k..k + |u|];
    }
  }

  lemma BodyDamage(p: seq<bv8>, u: seq<bv8>, v: seq<bv8>, s: seq<bv8>)
    requires |u| == |v| <= 2 && u != v && |s| >= 2
    requires Intact(p + u + s)
    ensures !Intact(p + v + s)
  {
    hide Crc16.Crc, Crc16.Trailer;
    var f, g := p + u + s, p + v + s;
    var t := s[..|s| - 2];
    assert f[..|f| - 2] == p + u + t && g[..|f| - 2] == p + v + t;
    assert f[|f| - 2..] == s[|s| - 2..] == g[|f| - 2..];
    Crc16.TwoBytesDetected(CRC_INIT, p, u, v, t);
    if Intact(g) {
      Crc16.TrailerInjective(Crc16.Crc(CRC_INIT, p + u + t), Crc16.Crc(CRC_INIT, p + v + t));
    }
  }

  /** Damage to the last byte of the payload and the first of the CRC leaves the second CRC byte wrong. */
  lemma EdgeDamage(p: seq<bv8>, u: seq<bv8>, v: seq<bv8>, s: seq<bv8>)
    requires |u| == |v| == 2 && u != v && |s| == 1
    requires Intact(p + u + s)
    ensures !Intact(p + v + s)
  {
    hide Crc16.Crc, Crc16.ReverseByte, Crc16.LowHalf, Crc16.HighHalf;
    var f, g := p + u + s, p + v + s;
    var x, y := u[0], v[0];
    assert f[..|f| - 2] == p + [x] && g[..|f| - 2] == p + [y];
    assert f[|f| - 2..] == [u[1], s[0]] && g[|f| - 2..] == [v[1], s[0]];
    var c := Crc16.Crc(CRC_INIT, p);
    LastStep(p, x);
    LastStep(p, y);
    if Intact(g) {
      assert [u[1], s[0]][1] == Crc16.ReverseByte(Crc16.HighHalf(Crc16.Step(c, x)));
      assert [v[1], s[0]][1] == Crc16.ReverseByte(Crc16.HighHalf(Crc16.Step(c, y)));
      Crc16.ReverseTwice(Crc16.HighHalf(Crc16.Step(c, x)));
      Crc16.ReverseTwice(Crc16.HighHalf(Crc16.Step(c, y)));
      if x != y {
        Crc16.LastByteShows(c, x, y);
      }
    }
  }

  lemma LastStep(p: seq<bv8>, x: bv8)
    ensures Crc16.Crc(CRC_INIT, p + [x]) == Crc16.Step(Crc16.Crc(CRC_INIT, p), x)
  {
    hide Crc16.Step;
    Crc16.CrcAppend(CRC_INIT, p, [x]);
  }

  // ---------------------------------------------------------------- reading conserves the stream

  lemma ConcatOne(a: seq<seq<bv8>>, x: seq<bv8>)
    ensures Concat(a + [x]) == Concat(a) + x
  {
    ConcatAppend(a, [x]);
    assert Concat([x]) == x + Concat([]);
  }

  lemma ConcatHead(x: seq<bv8>, rest: seq<seq<bv8>>)
    ensures Concat([x] + rest) == x + Concat(rest)
  {
    assert ([x] + rest)[1..] == rest;
  }

  /** A read takes exactly what it can of the queued bytes, in order, and leaves the rest. */
  lemma {:induction false} TakeConserves(r: Receiver, n: nat)
    ensures var (got, rest) := Take(r, n);
            && got + Concat(rest.queue) == Concat(r.queue)
            && |got| == (if n < |Concat(r.queue)| then n else |Concat(r.queue)|)
            && rest.free + |rest.queue| == r.free + |r.queue|
            && rest == r.(queue := rest.queue, free := rest.free)
    decreases |r.queue|
  {
    if n > 0 && r.queue != [] {
      var head, tail := r.queue[0], r.queue[1..];
      assert r.queue == [head] + tail;
      if |head| <= n {
        var next := r.(queue := tail, free := r.free + 1);
        TakeConserves(next, n - |head|);
        var (more, rest) := Take(next, n - |head|);
        assert head + more + Concat(rest.queue) == head + (more + Concat(rest.queue));
      } else {
        ConcatHead(head[n..], tail);
        assert head[..n] + (head[n..] + Concat(tail)) == head + Concat(tail);
      }
    }
  }

  // ---------------------------------------------------------------- the packet pool

  datatype PacketState = PacketNew | PacketOpen | PacketFlush | PacketEscape

  /** RX_PKT: the decoded bytes are buffer[..len]. */
  datatype Packet = Packet(state: PacketState, buffer: seq<bv8>)

  function DecoderOf(p: Packet): Slip.Decoder {
    match p.state
    case PacketNew => Slip.New
    case PacketFlush => Slip.Flush
    case PacketOpen => Slip.Open(p.buffer)
    case PacketEscape => Slip.Escaped(p.buffer)
  }

  /** The ids are packets of a pool of size n, each listed once. */
  predicate Distinct(ids: seq<nat>, n: nat) {
    && (forall i :: 0 <= i < |ids| ==> ids[i] < n)
    && (forall i, j :: 0 <= i < j < |ids| ==> ids[i] != ids[j])
  }

  function Payloads(packets: seq<Packet>, ids: seq<nat>): (r: seq<seq<bv8>>)
    requires forall i :: 0 <= i < |ids| ==> ids[i] < |packets|
    ensures |r| == |ids|
  {
    seq(|ids|, i requires 0 <= i < |ids| => Payload(packets[ids[i]].buffer))
  }

  /** A pool in which every packet is listed exactly once. */
  lemma {:induction false} PoolIsCovered(ids: seq<nat>, n: nat, id: nat)
    requires Distinct(ids, n) && |ids| == n && id < n
    ensures id in ids
    decreases n
  {
    if id !in ids {
      Crowded(ids + [id], n);
    }
  }

  lemma {:induction false} Crowded(ids: seq<nat>, n: nat)
    requires Distinct(ids, n)
    ensures |ids| <= n
    decreases n
  {
    if ids != [] {
      var first := ids[0];
      assert first < n;
      if k :| 0 <= k < |ids| && ids[k] == n - 1 {
        Crowded(ids[..k] + ids[k + 1..], n - 1);
      } else {
        Crowded(ids, n - 1);
      }
    }
  }

  // ---------------------------------------------------------------- history

  /** A packet taken into the queue. */
  datatype Arrival = Arrival(seqNum: nat, payload: seq<bv8>)

  function PayloadsOf(arrivals: seq<Arrival>): seq<seq<bv8>> {
    seq(|arrivals|, i requires 0 <= i < |arrivals| => arrivals[i].payload)
  }

  /** Sequence numbers run 0, 1, .. 7, 0, .. without gap or repetition. */
  predicate Consecutive(arrivals: seq<Arrival>) {
    forall k :: 0 <= k < |arrivals| ==> arrivals[k].seqNum == k % 8
  }

  /** What a read has returned is a prefix of what has arrived, and the queue holds the rest. */
  predicate Faithful(arrivals: seq<Arrival>, returned: seq<bv8>, r: Receiver) {
    && Consecutive(arrivals) && r.expected == |arrivals| % 8
    && returned + Concat(r.queue) == Concat(PayloadsOf(arrivals))
  }

  function Arrived(arrivals: seq<Arrival>, r: Receiver, f: seq<bv8>): seq<Arrival> {
    if InOrder(r, f) then arrivals + [Arrival(SeqIn(f), Payload(f))] else arrivals
  }

  lemma ArrivalIsFaithful(arrivals: seq<Arrival>, returned: seq<bv8>, queue: seq<seq<bv8>>, a: Arrival)
    requires Consecutive(arrivals) && a.seqNum == |arrivals| % 8
    requires returned + Concat(queue) == Concat(PayloadsOf(arrivals))
    ensures Consecutive(arrivals + [a])
    ensures returned + Concat(queue + [a.payload]) == Concat(PayloadsOf(arrivals + [a]))
  {
    hide Concat;
    ConcatOne(queue, a.payload);
    ConcatOne(PayloadsOf(arrivals), a.payload);
    assert PayloadsOf(arrivals + [a]) == PayloadsOf(arrivals) + [a.payload];
    assert returned + (Concat(queue) + a.payload) == returned + Concat(queue) + a.payload;
  }

  lemma FrameIsFaithful(arrivals: seq<Arrival>, returned: seq<bv8>, r: Receiver, f: seq<bv8>)
    requires Faithful(arrivals, returned, r)
    ensures Faithful(Arrived(arrivals, r, f), returned, OnFrame(r, f))
    ensures OnFrame(r, f).free + |OnFrame(r, f).queue| == r.free + |r.queue|
  {
    hide Crc16.Crc, Crc16.Trailer, LengthIn, SeqIn, AckIn, TypeIn, Payload, OnPacket, SlapWindow.SeqGt, Consecutive, Concat, PayloadsOf;
    if InOrder(r, f) {
      ArrivalIsFaithful(arrivals, returned, r.queue, Arrival(SeqIn(f), Payload(f)));
    }
  }

  lemma ReadIsFaithful(arrivals: seq<Arrival>, returned: seq<bv8>, r: Receiver, n: nat)
    requires Faithful(arrivals, returned, r)
    ensures var (got, rest) := Take(r, n); Faithful(arrivals, returned + got, rest)
  {
    TakeConserves(r, n);
    var (got, rest) := Take(r, n);
    assert returned + (got + Concat(rest.queue)) == returned + got + Concat(rest.queue);
  }

  // ---------------------------------------------------------------- the receive path

  predicate ListsOk(n: nat, current: nat, recv: seq<nat>, free: seq<nat>) {
    && current < n && current !in recv && current !in free
    && Distinct(recv, n) && Distinct(free, n)
    && (forall i, j :: 0 <= i < |recv| && 0 <= j < |free| ==> recv[i] != free[j])
  }

  predicate PoolOk(packets: seq<Packet>, current: nat, recv: seq<nat>, free: seq<nat>) {
    && ListsOk(|packets|, current, recv, free)
    && 1 + |recv| + |free| == |packets|
    && (forall i :: 0 <= i < |free| ==> packets[free[i]].state == PacketNew)
    && (forall i :: 0 <= i < |recv| ==> |packets[recv[i]].buffer| >= HDR_LEN + 2)
  }

  /** Every packet of the pool is on exactly one of the three lists. */
  lemma PoolIsPartitioned(packets: seq<Packet>, current: nat, recv: seq<nat>, free: seq<nat>, id: nat)
    requires PoolOk(packets, current, recv, free) && id < |packets|
    ensures id == current || id in recv || id in free
    ensures !(id == current && id in recv) && !(id == current && id in free) && !(id in recv && id in free)
  {
    PoolIsCovered([current] + recv + free, |packets|, id);
  }

  datatype Round = Round(arrived: seq<seq<bv8>>, expired: bool)

  datatype Status = Ok | Timeout | LinkDead

  class Receive {
    /** The pool; the lists RxPacket, RxRecv and RxFreeList name packets of it. */
    var packets: seq<Packet>
    var rxPacket: nat
    var rxRecv: seq<nat>
    var rxFreeList: seq<nat>
    var pendingRecv: nat
    var expectedSeq: nat
    var maxRxFrameSize: nat
    /** AJ_SerialLinkParams, and the calls made to the transmit side. */
    var link: Link
    var sent: seq<Notice>
    /** bufferRxQueue: chunks of the line that have not been decoded. */
    var slipped: seq<seq<bv8>>
    ghost var arrivals: seq<Arrival>
    ghost var returned: seq<bv8>

    ghost predicate Pool()
      reads this
    {
      rxPacket < |packets| && PoolOk(packets, rxPacket, rxRecv, rxFreeList) && pendingRecv == |rxRecv|
    }

    ghost function View(): Receiver
      requires Pool()
      reads this
    {
      Receiver(link, expectedSeq, Payloads(packets, rxRecv), |rxFreeList|, sent)
    }

    ghost function Decoder(): Slip.Decoder
      requires Pool()
      reads this
    {
      DecoderOf(packets[rxPacket])
    }

    ghost predicate Valid()
      reads this
    {
      Pool() && Faithful(arrivals, returned, View())
    }

    /** AJ_SerialRX_Init, for a configuration that AJ_SerialInit accepts. */
    constructor (params: Link)
      requires params.packetSize > 0
      ensures Valid()
      ensures View() == Receiver(params, 0, [], params.maxWindow as nat, [])
      ensures Decoder() == Slip.New && slipped == [] && arrivals == [] && returned == []
      ensures maxRxFrameSize == params.packetSize as nat + 2 + HDR_LEN
    {
      var n := params.maxWindow as nat + 1;
      packets := seq(n, i => Packet(PacketNew, []));
      rxPacket := n - 1;
      rxRecv := [];
      rxFreeList := seq(n - 1, i requires 0 <= i < n - 1 => (n - 2 - i) as nat);
      pendingRecv, expectedSeq := 0, 0;
      maxRxFrameSize := params.packetSize as nat + 2 + HDR_LEN;
      link, sent, slipped := params, [], [];
      arrivals, returned := [], [];
      new;
      assert View().queue == [];
    }

    /** CompletePacket */
    method CompletePacket()
      requires Valid() && packets[rxPacket].state == PacketNew
      modifies `packets, `rxPacket, `rxRecv, `rxFreeList, `pendingRecv, `expectedSeq, `link, `sent, `arrivals
      ensures Valid() && Decoder() == Slip.New
      ensures View() == OnFrame(old(View()), old(packets[rxPacket].buffer))
      ensures arrivals == Arrived(old(arrivals), old(View()), old(packets[rxPacket].buffer))
    {
      hide Crc16.Crc, Crc16.Trailer, LengthIn, SeqIn, AckIn, TypeIn, OnPacket, SlapWindow.SeqGt, Controls, Octets;
      hide Faithful, PoolOk, Payloads;
      var f := packets[rxPacket].buffer;
      ghost var before := View();
      FrameIsFaithful(arrivals, returned, before, f);
      if |f| < HDR_LEN {
        return;
      }
      var crc := Crc16.Compute(f[..|f| - 2], CRC_INIT);
      if f[|f| - 2..] != Crc16.Trailer(crc) {
        return;
      }
      var seqNum, ack, kind := SeqIn(f), AckIn(f), TypeIn(f);
      if LengthIn(f) != |f| - HDR_LEN - 2 {
        return;
      }
      if kind == SERIAL_CTRL {
        var (next, replies) := OnPacket(link, Octets(Payload(f)));
        link := next;
        sent := sent + Controls(replies);
        return;
      }
      if link.state != Active {
        return;
      }
      sent := sent + [ReceivedAck(ack)];
      if kind == SERIAL_DATA {
        if seqNum != expectedSeq {
          if !SlapWindow.SeqGt(seqNum, expectedSeq, link.window as nat) {
            sent := sent + [ReceivedSeq(seqNum)];
          }
        } else if rxFreeList != [] {
          expectedSeq := (expectedSeq + 1) % 8;
          Enqueues(packets, rxPacket, rxRecv, rxFreeList);
          rxRecv := rxRecv + [rxPacket];
          rxPacket := rxFreeList[0];
          rxFreeList := rxFreeList[1..];
          pendingRecv := pendingRecv + 1;
          sent := sent + [ReceivedSeq(seqNum)];
          arrivals := arrivals + [Arrival(seqNum, Payload(f))];
        }
      }
    }

    /** The switch of UART_RxComplete; after a bad escape the byte has to be read again. */
    method ReceiveByte(rx: bv8) returns (again: bool)
      requires Valid()
      modifies `packets, `rxPacket, `rxRecv, `rxFreeList, `pendingRecv, `expectedSeq, `link, `sent, `arrivals
      ensures Valid()
      ensures again ==> old(Decoder()).Escaped? && Decoder() == Slip.New && View() == old(View())
      ensures again ==> Slip.Step(old(Decoder()), rx, maxRxFrameSize) == Slip.Step(Slip.New, rx, maxRxFrameSize)
      ensures !again ==> Decoder() == Slip.Step(old(Decoder()), rx, maxRxFrameSize).decoder
      ensures !again ==> View() == OnFrames(old(View()), Slip.Step(old(Decoder()), rx, maxRxFrameSize).frames)
      ensures old(arrivals) <= arrivals
    {
      hide OnFrame, InOrder, Faithful, PoolOk, Payloads;
      again := false;
      var p := packets[rxPacket];
      match p.state {
        case PacketFlush =>
          if rx == Slip.BOUNDARY {
            SetPacket(Packet(PacketNew, p.buffer));
          }
        case PacketNew =>
          SetPacket(Packet(if rx == Slip.BOUNDARY then PacketOpen else PacketFlush, []));
        case PacketEscape =>
          if rx == Slip.BOUNDARY_SUBSTITUTE {
            SetPacket(Packet(PacketOpen, p.buffer + [Slip.BOUNDARY]));
          } else if rx == Slip.ESCAPE_SUBSTITUTE {
            SetPacket(Packet(PacketOpen, p.buffer + [Slip.ESCAPE]));
          } else {
            SetPacket(Packet(PacketNew, p.buffer));
            again := true;
          }
        case PacketOpen =>
          if rx == Slip.BOUNDARY {
            SetPacket(Packet(PacketNew, p.buffer));
            CompletePacket();
            OnOneFrame(old(View()), p.buffer);
          } else if rx == Slip.ESCAPE {
            SetPacket(Packet(PacketEscape, p.buffer));
          } else if |p.buffer| == maxRxFrameSize {
            SetPacket(Packet(PacketNew, p.buffer));
          } else {
            SetPacket(Packet(PacketOpen, p.buffer + [rx]));
          }
      }
    }

    /** UART_RxComplete */
    method RxComplete(buffer: seq<bv8>)
      requires Valid()
      modifies `packets, `rxPacket, `rxRecv, `rxFreeList, `pendingRecv, `expectedSeq, `link, `sent, `arrivals
      ensures Valid()
      ensures Decoder() == Slip.Decode(old(Decoder()), buffer, maxRxFrameSize).decoder
      ensures View() == OnFrames(old(View()), Slip.Decode(old(Decoder()), buffer, maxRxFrameSize).frames)
      ensures old(arrivals) <= arrivals
    {
      hide OnFrames, InOrder, Faithful, PoolOk, Payloads, DecoderOf, Slip.Decode, Slip.Step;
      var i := 0;
      ghost var done: seq<seq<bv8>> := [];
      ghost var all := Slip.Decode(Decoder(), buffer, maxRxFrameSize);
      assert buffer[0..] == buffer;
      assert [] + all.frames == all.frames;
      NoFrames(View());
      while i < |buffer|
        invariant 0 <= i <= |buffer|
        invariant Valid()
        invariant all == Following(done, Slip.Decode(Decoder(), buffer[i..], maxRxFrameSize))
        invariant View() == OnFrames(old(View()), done)
        invariant old(arrivals) <= arrivals
        decreases |buffer| - i, Decoder().Escaped?
      {
        ghost var d := Decoder();
        ghost var was := View();
        DecodeUnfolds(d, buffer, i, maxRxFrameSize);
        DecodeUnfolds(Slip.New, buffer, i, maxRxFrameSize);
        var again := ReceiveByte(buffer[i]);
        if !again {
          ghost var first := Slip.Step(d, buffer[i], maxRxFrameSize);
          OnFramesAppend(old(View()), done, first.frames);
          FollowingAppend(done, first.frames, Slip.Decode(first.decoder, buffer[i + 1..], maxRxFrameSize));
          done := done + first.frames;
          i := i + 1;
        }
      }
      assert buffer[i..] == [];
      DecodesNothing(Decoder(), done, maxRxFrameSize);
    }

    /** AJ_ProcessRxBufferList: chunks are decoded while there is a packet to spare. */
    method ProcessRxBufferList()
      requires Valid()
      modifies `packets, `rxPacket, `rxRecv, `rxFreeList, `pendingRecv, `expectedSeq, `link, `sent, `arrivals, `slipped
      ensures Valid()
      ensures (View(), Decoder(), slipped) == Drain(old(View()), old(Decoder()), old(slipped), maxRxFrameSize)
      ensures old(arrivals) <= arrivals
    {
      hide OnFrames, Faithful, PoolOk, Payloads, DecoderOf, Slip.Decode;
      while slipped != [] && rxFreeList != []
        invariant Valid()
        invariant Drain(old(View()), old(Decoder()), old(slipped), maxRxFrameSize) == Drain(View(), Decoder(), slipped, maxRxFrameSize)
        invariant old(arrivals) <= arrivals
        decreases |slipped|
      {
        var chunk := slipped[0];
        slipped := slipped[1..];
        RxComplete(chunk);
      }
    }

    /** A packet that has been read to the end goes back to the free list. */
    method ReleaseHead()
      requires Pool() && rxRecv != []
      modifies `packets, `rxRecv, `rxFreeList, `pendingRecv
      ensures Pool() && Decoder() == old(Decoder())
      ensures View() == old(View()).(queue := old(View()).queue[1..], free := old(View()).free + 1)
      ensures |rxRecv| == old(|rxRecv|) - 1
    {
      hide PoolOk, Payloads;
      Releases(packets, rxPacket, rxRecv, rxFreeList);
      var id := rxRecv[0];
      rxRecv := rxRecv[1..];
      packets := packets[id := packets[id].(state := PacketNew)];
      rxFreeList := [id] + rxFreeList;
      pendingRecv := pendingRecv - 1;
    }

    /** A packet read in part has the rest of its payload moved to the front. */
    method TrimHead(num: nat)
      requires Pool() && rxRecv != [] && num <= |View().queue[0]|
      modifies `packets
      ensures Pool() && Decoder() == old(Decoder())
      ensures View() == old(View()).(queue := [old(View()).queue[0][num..]] + old(View()).queue[1..])
    {
      hide PoolOk, Payloads, Payload;
      HeadPayload(packets, rxPacket, rxRecv, rxFreeList);
      Trims(packets, rxPacket, rxRecv, rxFreeList, num);
      var id := rxRecv[0];
      var f := packets[id].buffer;
      packets := packets[id := packets[id].(buffer := f[..4] + f[4 + num..])];
    }

    /** The inner loop of AJ_SerialRecv: fill the caller's buffer from the queued packets. */
    method TakeQueued(n: nat) returns (got: seq<bv8>)
      requires Valid()
      modifies `packets, `rxRecv, `rxFreeList, `pendingRecv, `returned
      ensures Valid() && Decoder() == old(Decoder())
      ensures (got, View()) == Take(old(View()), n)
      ensures returned == old(returned) + got
    {
      hide Faithful, PoolOk, Payloads, Payload, Take, DecoderOf;
      got := [];
      var len: nat := n;
      ReadIsFaithful(arrivals, returned, View(), n);
      TakeStarts(View(), n);
      while rxRecv != [] && len > 0
        invariant Pool() && Decoder() == old(Decoder()) && returned == old(returned)
        invariant Take(old(View()), n) == Preceded(got, Take(View(), len))
        decreases |rxRecv|, len
      {
        HeadPayload(packets, rxPacket, rxRecv, rxFreeList);
        var f := packets[rxRecv[0]].buffer;
        var room := |f| - 6;
        var num := if room < len then room else len;
        ghost var r := View();
        assert f[4..4 + num] == r.queue[0][..num];
        if num == room {
          assert r.queue[0][..num] == r.queue[0];
          TakePops(got, r, len);
          ReleaseHead();
        } else {
          TakeCuts(got, r, len);
          TrimHead(num);
        }
        got := got + f[4..4 + num];
        len := len - num;
      }
      TakeEnds(got, View(), len);
      returned := returned + got;
    }

    /** One turn of the loop of AJ_SerialRecv. */
    method Turn(len: nat, round: Round) returns (part: seq<bv8>)
      requires Valid()
      modifies this
      ensures Valid() && maxRxFrameSize == old(maxRxFrameSize)
      ensures part == Take(old(View()), len).0 && |part| <= len && returned == old(returned) + part
      ensures Line() == Turned(old(Line()), len, round, maxRxFrameSize)
      ensures old(arrivals) <= arrivals
    {
      hide Faithful, PoolOk, Payloads, DecoderOf, Drain, Take;
      TakeConserves(View(), len);
      part := TakeQueued(len);
      slipped := slipped + round.arrived;
      ProcessRxBufferList();
    }

    /**
     * AJ_SerialRecv. A round is one turn of its loop: what the line delivers in it, and
     * whether the deadline has passed at its end.
     */
    method Recv(req: nat, expiredAtStart: bool, rounds: seq<Round>) returns (status: Status, got: seq<bv8>)
      requires Valid() && rounds != [] && rounds[|rounds| - 1].expired
      modifies this
      ensures Valid() && maxRxFrameSize == old(maxRxFrameSize)
      ensures returned == old(returned) + got && |got| <= req
      ensures old(arrivals) <= arrivals
      ensures var s := Serve(old(Line()), req, expiredAtStart, rounds, maxRxFrameSize);
              && got == s.got && Line() == s.line
              && (status == Timeout <==> s.expired && got == [])
              && (status == LinkDead <==> s.dead && !(s.expired && got == []))
    {
      hide Faithful, PoolOk, Payloads, DecoderOf, Take, Turned, Serve;
      status, got := Ok, [];
      var len: nat := req;
      var expired := expiredAtStart;
      var k := 0;
      ghost var all := Serve(Line(), req, expired, rounds, maxRxFrameSize);
      ServeStarts(Line(), req, expired, rounds, maxRxFrameSize);
      assert rounds[0..] == rounds;
      while true
        invariant Valid() && maxRxFrameSize == old(maxRxFrameSize)
        invariant 0 <= k < |rounds| && len + |got| == req
        invariant returned == old(returned) + got
        invariant old(arrivals) <= arrivals
        invariant status == Ok
        invariant all == GotFirst(got, Serve(Line(), len, expired, rounds[k..], maxRxFrameSize))
        decreases |rounds| - k
      {
        if link.state == Dead {
          ServeDies(got, Line(), len, expired, rounds[k..], maxRxFrameSize);
          status := LinkDead;
          break;
        }
        ServeTurns(got, Line(), len, expired, rounds, k, maxRxFrameSize);
        var part := Turn(len, rounds[k]);
        assert old(returned) + got + part == old(returned) + (got + part);
        got := got + part;
        len := len - |part|;
        expired := rounds[k].expired;
        k := k + 1;
        if len == 0 || expired {
          break;
        }
      }
      if expired && len == req {
        status := Timeout;
      }
    }

    ghost function Line(): LineState
      requires Pool()
      reads this
    {
      LineState(View(), Decoder(), slipped)
    }

    /** AJ_SerialRX_Reset */
    method Reset()
      requires Valid()
      modifies this
      ensures Valid() && Decoder() == Slip.New
      ensures View() == Receiver(old(link), 0, [], old(|rxFreeList| + |rxRecv|), old(sent))
      ensures arrivals == [] && returned == [] && slipped == old(slipped) && maxRxFrameSize == old(maxRxFrameSize)
    {
      hide PoolOk, Payloads;
      while rxRecv != []
        invariant Pool() && link == old(link) && sent == old(sent)
        invariant |rxFreeList| + |rxRecv| == old(|rxFreeList| + |rxRecv|)
        invariant slipped == old(slipped) && maxRxFrameSize == old(maxRxFrameSize)
        decreases |rxRecv|
      {
        ReleaseHead();
      }
      expectedSeq, pendingRecv := 0, 0;
      CurrentIsApart(packets, rxPacket, rxRecv, rxFreeList, packets[rxPacket].(state := PacketNew));
      packets := packets[rxPacket := packets[rxPacket].(state := PacketNew)];
      arrivals, returned := [], [];
      assert View().queue == [];
    }

    /** Assignment to the fields of the packet being decoded. */
    method SetPacket(p: Packet)
      requires Valid()
      modifies `packets
      ensures Valid() && View() == old(View()) && Decoder() == DecoderOf(p)
      ensures packets[rxPacket] == p && |packets| == old(|packets|)
    {
      hide Faithful;
      CurrentIsApart(packets, rxPacket, rxRecv, rxFreeList, p);
      packets := packets[rxPacket := p];
    }
  }

  /** What the decoder is doing to the current packet is not seen through the lists. */
  lemma CurrentIsApart(packets: seq<Packet>, current: nat, recv: seq<nat>, free: seq<nat>, p: Packet)
    requires PoolOk(packets, current, recv, free)
    ensures PoolOk(packets[current := p], current, recv, free)
    ensures Payloads(packets[current := p], recv) == Payloads(packets, recv)
  {
  }

  lemma DecodeUnfolds(d: Slip.Decoder, buffer: seq<bv8>, i: nat, max: nat)
    requires i < |buffer|
    ensures var first := Slip.Step(d, buffer[i], max);
            var rest := Slip.Decode(first.decoder, buffer[i + 1..], max);
            Slip.Decode(d, buffer[i..], max) == Slip.Progress(rest.decoder, first.frames + rest.frames)
  {
    hide Slip.Step;
    assert buffer[i..][1..] == buffer[i + 1..];
  }

  lemma {:induction false} OnFramesAppend(r: Receiver, a: seq<seq<bv8>>, b: seq<seq<bv8>>)
    ensures OnFrames(r, a + b) == OnFrames(OnFrames(r, a), b)
    decreases |a|
  {
    hide OnFrame;
    if a == [] {
      assert a + b == b;
    } else {
      assert (a + b)[1..] == a[1..] + b;
      OnFramesAppend(OnFrame(r, a[0]), a[1..], b);
    }
  }

  lemma OnOneFrame(r: Receiver, f: seq<bv8>)
    ensures OnFrames(r, [f]) == OnFrame(r, f)
  {
    hide OnFrame;
    assert OnFrames(r, [f]) == OnFrames(OnFrame(r, f), []);
  }

  lemma NoFrames(r: Receiver)
    ensures OnFrames(r, []) == r
  {
  }

  /** Progress counted from before the frames already handled. */
  ghost function Following(done: seq<seq<bv8>>, p: Slip.Progress): Slip.Progress {
    Slip.Progress(p.decoder, done + p.frames)
  }

  lemma FollowingAppend(done: seq<seq<bv8>>, more: seq<seq<bv8>>, p: Slip.Progress)
    ensures Following(done, Slip.Progress(p.decoder, more + p.frames)) == Following(done + more, p)
  {
    assert done + (more + p.frames) == done + more + p.frames;
  }

  lemma DecodesNothing(d: Slip.Decoder, done: seq<seq<bv8>>, max: nat)
    ensures Following(done, Slip.Decode(d, [], max)) == Slip.Progress(d, done)
  {
    assert done + [] == done;
  }

  lemma HeadPayload(packets: seq<Packet>, current: nat, recv: seq<nat>, free: seq<nat>)
    requires PoolOk(packets, current, recv, free) && recv != []
    ensures recv[0] < |packets| && |packets[recv[0]].buffer| >= 6
    ensures var f := packets[recv[0]].buffer;
            |Payload(f)| == |f| - 6 && Payloads(packets, recv)[0] == Payload(f) &&
            forall k :: 0 <= k <= |f| - 6 ==> f[4..4 + k] == Payload(f)[..k]
  {
    var f := packets[recv[0]].buffer;
    assert Payload(f) == f[4..|f| - 2];
    forall k | 0 <= k <= |f| - 6
      ensures f[4..4 + k] == Payload(f)[..k]
    {
    }
  }

  lemma Releases(packets: seq<Packet>, current: nat, recv: seq<nat>, free: seq<nat>)
    requires PoolOk(packets, current, recv, free) && recv != []
    ensures recv[0] < |packets| && recv[0] != current
    ensures var next := packets[recv[0] := packets[recv[0]].(state := PacketNew)];
            PoolOk(next, current, recv[1..], [recv[0]] + free) && Payloads(next, recv[1..]) == Payloads(packets, recv)[1..]
  {
    var id := recv[0];
    var next := packets[id := packets[id].(state := PacketNew)];
    var more := [id] + free;
    forall i, j | 0 <= i < j < |more|
      ensures more[i] != more[j]
    {
      assert more[j] == free[j - 1];
    }
    forall i | 0 <= i < |more|
      ensures more[i] < |packets| && more[i] != current && next[more[i]].state == PacketNew
    {
      if i > 0 {
        assert more[i] == free[i - 1];
      }
    }
    forall i, j | 0 <= i < |recv[1..]| && 0 <= j < |more|
      ensures recv[1..][i] != more[j]
    {
      if j > 0 {
        assert more[j] == free[j - 1];
      }
    }
  }

  lemma Trims(packets: seq<Packet>, current: nat, recv: seq<nat>, free: seq<nat>, num: nat)
    requires PoolOk(packets, current, recv, free) && recv != [] && recv[0] < |packets|
    requires 6 + num <= |packets[recv[0]].buffer|
    ensures recv[0] != current
    ensures var f := packets[recv[0]].buffer;
            var next := packets[recv[0] := packets[recv[0]].(buffer := f[..4] + f[4 + num..])];
            PoolOk(next, current, recv, free) &&
            Payloads(next, recv) == [Payloads(packets, recv)[0][num..]] + Payloads(packets, recv)[1..]
  {
    var f := packets[recv[0]].buffer;
    var g := f[..4] + f[4 + num..];
    assert Payload(g) == Payload(f)[num..];
  }

  ghost function Preceded(got: seq<bv8>, t: (seq<bv8>, Receiver)): (seq<bv8>, Receiver) {
    (got + t.0, t.1)
  }

  lemma TakeStarts(r: Receiver, n: nat)
    ensures Take(r, n) == Preceded([], Take(r, n))
  {
    hide Take;
    assert [] + Take(r, n).0 == Take(r, n).0;
  }

  lemma TakePops(got: seq<bv8>, r: Receiver, n: nat)
    requires n > 0 && r.queue != [] && |r.queue[0]| <= n
    ensures Preceded(got, Take(r, n)) ==
            Preceded(got + r.queue[0], Take(r.(queue := r.queue[1..], free := r.free + 1), n - |r.queue[0]|))
  {
    var head := r.queue[0];
    var (more, rest) := Take(r.(queue := r.queue[1..], free := r.free + 1), n - |head|);
    assert got + (head + more) == got + head + more;
  }

  lemma TakeCuts(got: seq<bv8>, r: Receiver, n: nat)
    requires n > 0 && r.queue != [] && |r.queue[0]| > n
    ensures Preceded(got, Take(r, n)) ==
            Preceded(got + r.queue[0][..n], Take(r.(queue := [r.queue[0][n..]] + r.queue[1..]), 0))
  {
    assert got + r.queue[0][..n] + [] == got + r.queue[0][..n];
  }

  lemma TakeEnds(got: seq<bv8>, r: Receiver, n: nat)
    requires n == 0 || r.queue == []
    ensures Preceded(got, Take(r, n)) == (got, r)
  {
    assert got + [] == got;
  }

  /** AJ_ProcessRxBufferList on values. */
  function Drain(r: Receiver, d: Slip.Decoder, chunks: seq<seq<bv8>>, max: nat): (Receiver, Slip.Decoder, seq<seq<bv8>>)
    decreases |chunks|
  {
    if chunks == [] || r.free == 0 then (r, d, chunks)
    else
      var p := Slip.Decode(d, chunks[0], max);
      Drain(OnFrames(r, p.frames), p.decoder, chunks[1..], max)
  }

  /** The receiver with what it knows of the line. */
  datatype LineState = LineState(r: Receiver, d: Slip.Decoder, slipped: seq<seq<bv8>>)

  /** What a read gives, what it leaves, and whether the deadline had passed or the link was dead when it ended. */
  datatype Served = Served(got: seq<bv8>, line: LineState, expired: bool, dead: bool)

  /** What a read sees after one turn of its loop. */
  function Turned(line: LineState, n: nat, round: Round, max: nat): LineState {
    var (r, d, slipped) := Drain(Take(line.r, n).1, line.d, line.slipped + round.arrived, max);
    LineState(r, d, slipped)
  }

  /**
   * AJ_SerialRecv on values: in every round first the queued bytes are taken, then what has
   * arrived is decoded, until the request is filled, the deadline has passed or the link is dead.
   */
  function Serve(line: LineState, n: nat, expired: bool, rounds: seq<Round>, max: nat): Served
    decreases |rounds|
  {
    if line.r.link.state == Dead || rounds == [] then Served([], line, expired, line.r.link.state == Dead)
    else
      var part, next := Take(line.r, n).0, Turned(line, n, rounds[0], max);
      if |part| >= n || rounds[0].expired then Served(part, next, rounds[0].expired, false)
      else GotFirst(part, Serve(next, n - |part|, false, rounds[1..], max))
  }

  function GotFirst(got: seq<bv8>, s: Served): Served {
    s.(got := got + s.got)
  }

  lemma ServeStarts(line: LineState, n: nat, expired: bool, rounds: seq<Round>, max: nat)
    ensures GotFirst([], Serve(line, n, expired, rounds, max)) == Serve(line, n, expired, rounds, max)
  {
    hide Serve;
    assert [] + Serve(line, n, expired, rounds, max).got == Serve(line, n, expired, rounds, max).got;
  }

  lemma ServeDies(got: seq<bv8>, line: LineState, n: nat, expired: bool, rounds: seq<Round>, max: nat)
    requires line.r.link.state == Dead
    ensures GotFirst(got, Serve(line, n, expired, rounds, max)) == Served(got, line, expired, true)
  {
    assert got + [] == got;
  }

  lemma ServeTurns(got: seq<bv8>, line: LineState, n: nat, expired: bool, rounds: seq<Round>, k: nat, max: nat)
    requires line.r.link.state != Dead && k < |rounds|
    ensures var part, next := Take(line.r, n).0, Turned(line, n, rounds[k], max);
            GotFirst(got, Serve(line, n, expired, rounds[k..], max)) ==
              if |part| >= n || rounds[k].expired then Served(got + part, next, rounds[k].expired, false)
              else GotFirst(got + part, Serve(next, n - |part|, false, rounds[k + 1..], max))
  {
    hide Take, Turned;
    var part, next := Take(line.r, n).0, Turned(line, n, rounds[k], max);
    assert rounds[k..][1..] == rounds[k + 1..];
    if !(|part| >= n || rounds[k].expired) {
      var rest := Serve(next, n - |part|, false, rounds[k + 1..], max);
      assert got + (part + rest.got) == got + part + rest.got;
    }
  }

  /**
   * Of the chunks on the line some first ones are decoded, as if they were one, and the rest waits;
   * it waits only if no packet is free.
   */
  lemma {:induction false} DrainExact(r: Receiver, d: Slip.Decoder, chunks: seq<seq<bv8>>, max: nat) returns (done: nat)
    ensures done <= |chunks|
    ensures var p := Slip.Decode(d, Concat(chunks[..done]), max);
            && Drain(r, d, chunks, max) == (OnFrames(r, p.frames), p.decoder, chunks[done..])
            && (done < |chunks| ==> OnFrames(r, p.frames).free == 0)
    decreases |chunks|
  {
    hide Slip.Step, OnFrame, Slip.Decode, OnFrames;
    if chunks == [] || r.free == 0 {
      done := 0;
      Slip.DecodeNothing(d, max);
      NoFrames(r);
      assert chunks[..0] == [];
    } else {
      var p := Slip.Decode(d, chunks[0], max);
      var more := DrainExact(OnFrames(r, p.frames), p.decoder, chunks[1..], max);
      done := more + 1;
      assert chunks[..done] == [chunks[0]] + chunks[1..][..more] && chunks[done..] == chunks[1..][more..];
      ConcatHead(chunks[0], chunks[1..][..more]);
      Slip.DecodeAppend(d, chunks[0], Concat(chunks[1..][..more]), max);
      OnFramesAppend(r, p.frames, Slip.Decode(p.decoder, Concat(chunks[1..][..more]), max).frames);
    }
  }

  /** One turn of a read: n bytes are taken, and what has arrived joins what waited on the line. */
  lemma TurnExact(line: LineState, n: nat, round: Round, max: nat) returns (done: nat)
    ensures done <= |line.slipped + round.arrived|
    ensures var chunks, next := line.slipped + round.arrived, Turned(line, n, round, max);
            var p := Slip.Decode(line.d, Concat(chunks[..done]), max);
            && next == LineState(OnFrames(Take(line.r, n).1, p.frames), p.decoder, chunks[done..])
            && (done < |chunks| ==> next.r.free == 0)
  {
    hide Drain, Take, OnFrames, Slip.Decode;
    done := DrainExact(Take(line.r, n).1, line.d, line.slipped + round.arrived, max);
  }

  /** A read ends with its request filled, its deadline passed or its link dead. */
  lemma {:induction false} ServeEnds(line: LineState, n: nat, expired: bool, rounds: seq<Round>, max: nat)
    requires rounds != [] && rounds[|rounds| - 1].expired
    ensures var s := Serve(line, n, expired, rounds, max);
            && |s.got| <= n && (|s.got| == n || s.expired || s.dead)
            && (s.dead ==> s.line.r.link.state == Dead)
    decreases |rounds|
  {
    hide Take, Turned;
    if line.r.link.state != Dead {
      ServeTurns([], line, n, expired, rounds, 0, max);
      TakeConserves(line.r, n);
      if !rounds[0].expired {
        ServeEnds(Turned(line, n, rounds[0], max), n - |Take(line.r, n).0|, false, rounds[1..], max);
      }
    }
  }

  /** The current packet joins the queue and the first free one takes its place. */
  lemma Enqueues(packets: seq<Packet>, current: nat, recv: seq<nat>, free: seq<nat>)
    requires PoolOk(packets, current, recv, free) && free != []
    requires |packets[current].buffer| >= HDR_LEN + 2
    ensures free[0] < |packets| && PoolOk(packets, free[0], recv + [current], free[1..])
    ensures Payloads(packets, recv + [current]) == Payloads(packets, recv) + [Payload(packets[current].buffer)]
    ensures packets[free[0]].state == PacketNew
  {
  }

  // ---------------------------------------------------------------- from the sender's frame to the queue

  /** ConvertPacketToBytes before stuffing; the length is given as its two octets. */
  function FrameOf(kind: bv8, seqNum: bv8, ack: bv8, high: bv8, low: bv8, payload: seq<bv8>): seq<bv8> {
    var body := [(seqNum << 4) | (ack & 0x0F), kind, high, low] + payload;
    body + Crc16.Trailer(Crc16.Crc(CRC_INIT, body))
  }

  lemma HeaderNibbles(s: bv8, a: bv8)
    requires s < 16 && a < 16
    ensures ((s << 4) | (a & 0x0F)) >> 4 == s && ((s << 4) | (a & 0x0F)) & 0x0F == a
  {
  }

  /** What the sender builds passes every check and is read back field by field. */
  lemma FrameReadsBack(kind: bv8, seqNum: bv8, ack: bv8, high: bv8, low: bv8, payload: seq<bv8>)
    requires kind < 16 && seqNum < 16 && ack < 16 && |payload| == high as nat * 256 + low as nat
    ensures var f := FrameOf(kind, seqNum, ack, high, low, payload);
            && Acceptable(f) && |f| == |payload| + 6
            && SeqIn(f) == seqNum as nat && AckIn(f) == ack as nat && TypeIn(f) == kind && Payload(f) == payload
  {
    hide Crc16.Crc, Crc16.Trailer;
    var body := [(seqNum << 4) | (ack & 0x0F), kind, high, low] + payload;
    var f := FrameOf(kind, seqNum, ack, high, low, payload);
    assert f[..|f| - 2] == body;
    HeaderNibbles(seqNum, ack);
    LowNibble(kind);
    assert f[0] == body[0] && f[1] == kind && f[2] == high && f[3] == low;
  }

  lemma LowNibble(k: bv8)
    requires k < 16
    ensures k & 0x0F == k
  {
  }

  // ---------------------------------------------------------------- control frames

  /** The payload is the link packet, octet for octet. */
  predicate Spells(payload: seq<bv8>, packet: seq<uint8>) {
    |payload| == |packet| && forall i :: 0 <= i < |payload| ==> payload[i] as int == packet[i] as int
  }

  lemma OctetsOf(payload: seq<bv8>, packet: seq<uint8>)
    requires Spells(payload, packet)
    ensures Octets(payload) == packet
  {
  }

  /** A frame that carries a link packet. */
  predicate ControlFrame(f: seq<bv8>, packet: seq<uint8>) {
    Acceptable(f) && TypeIn(f) == SERIAL_CTRL && Spells(Payload(f), packet)
  }

  /**
   * Whatever its numbers say and whatever state the link is in, a control frame is handed to the
   * link: it gets the new parameters, its answers are queued in order behind what was queued, and
   * the data side does not notice.
   */
  lemma ControlAnswered(r: Receiver, f: seq<bv8>, packet: seq<uint8>)
    requires ControlFrame(f, packet)
    ensures var next, (link, replies) := OnFrame(r, f), OnPacket(r.link, packet);
            && next.link == link
            && |next.sent| == |r.sent| + |replies| && r.sent <= next.sent
            && (forall i :: 0 <= i < |replies| ==> next.sent[|r.sent| + i] == EnqueueCtrl(replies[i]))
            && next.queue == r.queue && next.expected == r.expected && next.free == r.free
  {
    hide Crc16.Crc, Crc16.Trailer, LengthIn, SeqIn, AckIn, TypeIn, Payload, OnPacket, OnData;
    OctetsOf(Payload(f), packet);
  }

  /** What the sender builds of a link packet carries it. */
  lemma ControlReadsBack(seqNum: bv8, ack: bv8, high: bv8, low: bv8, payload: seq<bv8>, packet: seq<uint8>)
    requires seqNum < 16 && ack < 16 && |payload| == high as nat * 256 + low as nat && Spells(payload, packet)
    ensures ControlFrame(FrameOf(14, seqNum, ack, high, low, payload), packet)
  {
    hide FrameOf, Acceptable, SeqIn, AckIn, TypeIn, Payload;
    FrameReadsBack(14, seqNum, ack, high, low, payload);
  }

  /** Every link packet that a length can be given of has a frame. */
  lemma ControlFrameExists(packet: seq<uint8>) returns (f: seq<bv8>)
    requires |packet| < 0x1_0000
    ensures ControlFrame(f, packet)
  {
    hide ControlFrame, FrameOf, AsBits;
    var payload := seq(|packet|, i requires 0 <= i < |packet| => AsBits(packet[i] as nat));
    forall i | 0 <= i < |packet| ensures payload[i] as int == packet[i] as int {
      AsBitsIs(packet[i] as nat);
    }
    var high, low := AsBits(|packet| / 256), AsBits(|packet| % 256);
    AsBitsIs(|packet| / 256);
    AsBitsIs(|packet| % 256);
    ControlReadsBack(0, 0, high, low, payload, packet);
    f := FrameOf(14, 0, 0, high, low, payload);
  }

  predicate DataFrame(f: seq<bv8>, n: nat) {
    Acceptable(f) && TypeIn(f) == SERIAL_DATA && SeqIn(f) == n
  }

  /** Data frames numbered on from the expected number. */
  predicate Numbered(frames: seq<seq<bv8>>, from: nat) {
    forall i :: 0 <= i < |frames| ==> DataFrame(frames[i], (from + i) % 8)
  }

  function PayloadsIn(frames: seq<seq<bv8>>): seq<seq<bv8>> {
    seq(|frames|, i requires 0 <= i < |frames| => Payload(frames[i]))
  }

  lemma QueuesOne(r: Receiver, f: seq<bv8>)
    requires r.link.state == Active && r.free > 0 && DataFrame(f, r.expected)
    ensures var next := OnFrame(r, f);
            && next.queue == r.queue + [Payload(f)] && next.expected == (r.expected + 1) % 8
            && next.free == r.free - 1 && next.link == r.link
  {
    hide Crc16.Crc, Crc16.Trailer, LengthIn, SeqIn, AckIn, TypeIn, Payload, OnPacket, SlapWindow.SeqGt;
  }

  /** Frames in sequence, with room for them, queue their payloads in order. */
  lemma {:induction false} FramesQueue(r: Receiver, frames: seq<seq<bv8>>)
    requires r.link.state == Active && |frames| <= r.free && r.expected < 8 && Numbered(frames, r.expected)
    ensures OnFrames(r, frames).queue == r.queue + PayloadsIn(frames)
    ensures OnFrames(r, frames).expected == (r.expected + |frames|) % 8
    decreases |frames|
  {
    hide DataFrame, Payload, OnFrame;
    if frames == [] {
      assert r.queue + PayloadsIn(frames) == r.queue;
    } else {
      var next := OnFrame(r, frames[0]);
      NumberedTail(frames, r.expected);
      QueuesOne(r, frames[0]);
      FramesQueue(next, frames[1..]);
      assert PayloadsIn(frames) == [Payload(frames[0])] + PayloadsIn(frames[1..]);
      assert r.queue + [Payload(frames[0])] + PayloadsIn(frames[1..]) == r.queue + PayloadsIn(frames);
      NextModulo(r.expected, |frames| - 1);
    }
  }

  lemma NextModulo(from: nat, i: nat)
    ensures ((from + 1) % 8 + i) % 8 == (from + (i + 1)) % 8
  {
  }

  lemma NumberedTail(frames: seq<seq<bv8>>, from: nat)
    requires frames != [] && from < 8 && Numbered(frames, from)
    ensures Numbered(frames[1..], (from + 1) % 8)
    ensures DataFrame(frames[0], from)
  {
    hide DataFrame;
    assert DataFrame(frames[0], (from + 0) % 8);
    forall i | 0 <= i < |frames| - 1
      ensures DataFrame(frames[1..][i], ((from + 1) % 8 + i) % 8)
    {
      NextModulo(from, i);
      assert frames[1..][i] == frames[i + 1];
    }
  }

  /** Framed data in sequence reaches the queue from any decoder state that is not inside a frame. */
  lemma LineDelivers(r: Receiver, d: Slip.Decoder, frames: seq<seq<bv8>>, max: nat)
    requires frames != [] && Slip.WellFormed(frames, max) && !Slip.Lost(d)
    requires r.link.state == Active && |frames| <= r.free && r.expected < 8 && Numbered(frames, r.expected)
    ensures var p := Slip.Decode(d, Slip.Stream(frames), max);
            p.decoder == Slip.New && OnFrames(r, p.frames).queue == r.queue + PayloadsIn(frames)
  {
    hide Slip.Decode, Slip.Stream, Slip.WellFormed, Numbered, OnFrames;
    Slip.SelfSynchronises(d, frames, max);
    assert Slip.Spurious(d) + frames == frames;
    FramesQueue(r, frames);
  }

  /**
   * The n-th packet of a sender whose window the receiver shares arrives when e have been
   * taken: it is taken exactly if it is the next and there is room, and acknowledged exactly
   * if it is taken or repeats one less than eight minus the window old.
   */
  lemma AnswersExact(r: Receiver, f: seq<bv8>, n: nat, e: nat)
    requires r.link.state == Active && DataFrame(f, n % 8) && r.expected == e % 8
    requires var w := r.link.window as nat; w <= 7 && e <= n + w && n < e + w
    ensures var next, taken := OnFrame(r, f), n == e && r.free > 0;
            && next.queue == (if taken then r.queue + [Payload(f)] else r.queue)
            && next.expected == (if taken then e + 1 else e) % 8
            && next.sent == r.sent + [ReceivedAck(AckIn(f))] +
                 if taken || (n < e && e - n + r.link.window as nat < 8) then [ReceivedSeq(n % 8)] else []
  {
    hide OnData;
    DataIsAnswered(r, f, n % 8);
    DataExact(r.(sent := r.sent + [ReceivedAck(AckIn(f))]), Payload(f), n, e);
  }

  lemma DataIsAnswered(r: Receiver, f: seq<bv8>, seqNum: nat)
    requires r.link.state == Active && DataFrame(f, seqNum)
    ensures OnFrame(r, f) == OnData(r.(sent := r.sent + [ReceivedAck(AckIn(f))]), seqNum, Payload(f))
  {
    hide Crc16.Crc, Crc16.Trailer, LengthIn, SeqIn, AckIn, TypeIn, Payload, OnPacket, OnData;
  }

  lemma DataExact(r: Receiver, payload: seq<bv8>, n: nat, e: nat)
    requires r.expected == e % 8
    requires var w := r.link.window as nat; w <= 7 && e <= n + w && n < e + w
    ensures var next, taken := OnData(r, n % 8, payload), n == e && r.free > 0;
            && next.queue == (if taken then r.queue + [payload] else r.queue)
            && next.expected == (if taken then e + 1 else e) % 8
            && next.sent == r.sent + if taken || (n < e && e - n + r.link.window as nat < 8) then [ReceivedSeq(n % 8)] else []
  {
    hide SlapWindow.SeqGt;
    var w := r.link.window as nat;
    SlapWindow.WindowDecides(n, e, w);
    if n < e {
      SlapWindow.RepeatAnsweredExact(n, e, w);
    } else if n > e {
      SlapWindow.Ahead(n, e, w);
    }
  }
}
