/**
 * The ARDP connection record with its rings, updated in place. Every method is proved
 * against the operation of `Ardp` that it implements.
 */
module ArdpEndpoint {
  import opened Bytes
  import opened Ardp

  /** A buffer of the send ring: marshalled header fields, packed bytes, retransmit timer. */
  datatype SendBuffer = SendBuffer(
    num: nat, ack: nat, lcs: nat, ackNxt: nat, som: nat, fcnt: nat,
    data: seq<uint8>, dataLen: nat, retry: nat, retransmits: nat, inFlight: bool)

  /** A buffer of the receive ring; fcnt doubles as its in-use mark. */
  datatype ReceiveBuffer = ReceiveBuffer(num: nat, som: nat, fcnt: nat, data: seq<uint8>, dataLen: nat)

  const UDP_MIN_DATA_RETRIES: nat := 5

  function Slot(s: nat): (i: nat)
    ensures i < UDP_SEGMAX
  {
    s % UDP_SEGMAX
  }

  /** The buffer of segment `first + i`. */
  function At<B>(ring: seq<B>, first: nat, i: nat): B
    requires |ring| == UDP_SEGMAX
  {
    ring[Slot(first + i)]
  }

  function OnWire(b: SendBuffer): Segment
    requires b.dataLen <= |b.data|
  {
    Segment(false, b.num, b.ack, b.lcs, b.ackNxt, Fragment(b.som, b.fcnt, b.data[..b.dataLen]))
  }

  // ---------------------------------------------------------------- the send ring

  predicate Roomy(b: SendBuffer) {
    b.dataLen <= |b.data| == MAX_DLEN
  }

  predicate Carrying(b: SendBuffer, s: nat, f: Fragment) {
    b.inFlight && b.retry != 0 && b.num == s && b.dataLen <= |b.data| && OnWire(b).frag == f
  }

  predicate Idle(b: SendBuffer, packed: seq<uint8>) {
    !b.inFlight && b.retry == 0 && b.retransmits == 0 && b.dataLen <= |b.data| && b.data[..b.dataLen] == packed
  }

  /** Slot s % SEGMAX is in flight carrying s exactly for una <= s < una + |unacked|; only the next slot packs bytes. */
  ghost predicate SendRing(ring: seq<SendBuffer>, una: nat, unacked: seq<Fragment>, queued: seq<uint8>) {
    && |ring| == UDP_SEGMAX && |unacked| <= UDP_SEGMAX
    && (forall j :: 0 <= j < |ring| ==> Roomy(ring[j]))
    && (forall i: nat :: i < |unacked| ==> Carrying(At(ring, una, i), una + i, unacked[i]))
    && (forall i: nat :: |unacked| <= i < UDP_SEGMAX ==>
          Idle(At(ring, una, i), if i == |unacked| then queued else []))
  }

  function InFlightCount(ring: seq<SendBuffer>): nat {
    if ring == [] then 0 else (if ring[0].inFlight then 1 else 0) + InFlightCount(ring[1..])
  }

  lemma {:induction false} CountUpdate(ring: seq<SendBuffer>, j: nat, b: SendBuffer)
    requires j < |ring| && ring[j].inFlight && !b.inFlight
    ensures InFlightCount(ring[j := b]) == InFlightCount(ring) - 1
  {
    if j == 0 {
      assert ring[0 := b][1..] == ring[1..];
    } else {
      assert ring[j := b][1..] == ring[1..][j - 1 := b];
      CountUpdate(ring[1..], j - 1, b);
    }
  }

  lemma {:induction false} CountZero(ring: seq<SendBuffer>, j: nat)
    requires InFlightCount(ring) == 0 && j < |ring|
    ensures !ring[j].inFlight
  {
    if j > 0 {
      CountZero(ring[1..], j - 1);
    }
  }

  lemma CountFive(ring: seq<SendBuffer>)
    requires |ring| == UDP_SEGMAX
    ensures InFlightCount(ring)
         == (if ring[0].inFlight then 1 else 0) + (if ring[1].inFlight then 1 else 0) + (if ring[2].inFlight then 1 else 0)
            + (if ring[3].inFlight then 1 else 0) + (if ring[4].inFlight then 1 else 0)
  {
    assert ring[1..][1..] == ring[2..] && ring[2..][1..] == ring[3..] && ring[3..][1..] == ring[4..] && ring[4..][1..] == [];
    assert InFlightCount(ring[4..]) == (if ring[4].inFlight then 1 else 0);
    assert InFlightCount(ring[3..]) == (if ring[3].inFlight then 1 else 0) + InFlightCount(ring[4..]);
    assert InFlightCount(ring[2..]) == (if ring[2].inFlight then 1 else 0) + InFlightCount(ring[3..]);
    assert InFlightCount(ring[1..]) == (if ring[1].inFlight then 1 else 0) + InFlightCount(ring[2..]);
  }

  /** How far slot j lies after the slot of una. */
  function Offset(una: nat, j: nat): (i: nat)
    requires j < UDP_SEGMAX
    ensures i < UDP_SEGMAX && Slot(una + i) == j
  {
    if j >= Slot(una) then j - Slot(una) else j + UDP_SEGMAX - Slot(una)
  }

  lemma InFlightAt(ring: seq<SendBuffer>, una: nat, unacked: seq<Fragment>, queued: seq<uint8>, j: nat)
    requires SendRing(ring, una, unacked, queued) && j < UDP_SEGMAX
    ensures ring[j].inFlight <==> Offset(una, j) < |unacked|
  {
    assert At(ring, una, Offset(una, j)) == ring[j];
    if Offset(una, j) < |unacked| {
      assert Carrying(At(ring, una, Offset(una, j)), una + Offset(una, j), unacked[Offset(una, j)]);
    }
  }

  /** The number of buffers in flight is NXT - UNA. */
  lemma RingCount(ring: seq<SendBuffer>, una: nat, unacked: seq<Fragment>, queued: seq<uint8>)
    requires SendRing(ring, una, unacked, queued)
    ensures InFlightCount(ring) == |unacked|
  {
    hide InFlightCount, SendRing;
    InFlightAt(ring, una, unacked, queued, 0);
    InFlightAt(ring, una, unacked, queued, 1);
    InFlightAt(ring, una, unacked, queued, 2);
    InFlightAt(ring, una, unacked, queued, 3);
    InFlightAt(ring, una, unacked, queued, 4);
    assert |ring| == UDP_SEGMAX && |unacked| <= UDP_SEGMAX by {
      RingSize(ring, una, unacked, queued);
    }
    CountFive(ring);
  }

  lemma RingSize(ring: seq<SendBuffer>, una: nat, unacked: seq<Fragment>, queued: seq<uint8>)
    requires SendRing(ring, una, unacked, queued)
    ensures |ring| == UDP_SEGMAX && |unacked| <= UDP_SEGMAX
  {
  }

  function Cleared(b: SendBuffer): SendBuffer {
    b.(retry := 0, dataLen := 0, inFlight := false, retransmits := 0)
  }

  /** Releasing everything up to ack leaves the ring of the segments after ack. */
  lemma SweepRing(ring: seq<SendBuffer>, ring': seq<SendBuffer>, una: nat, unacked: seq<Fragment>, queued: seq<uint8>, ack: nat)
    requires SendRing(ring, una, unacked, queued) && una <= ack < una + |unacked|
    requires |unacked| == UDP_SEGMAX ==> queued == []
    requires |ring'| == |ring|
    requires forall j :: 0 <= j < |ring| ==> ring'[j] == if ring[j].num <= ack && ring[j].inFlight then Cleared(ring[j]) else ring[j]
    ensures SendRing(ring', ack + 1, unacked[ack + 1 - una..], queued)
  {
    var k, first := ack + 1 - una, ack + 1;
    forall i: nat | i < |unacked| - k ensures Carrying(At(ring', first, i), first + i, unacked[k..][i]) {
      assert At(ring, una, k + i) == At(ring, first, i);
      assert Carrying(At(ring, una, k + i), una + (k + i), unacked[k + i]);
    }
    forall i: nat | |unacked| - k <= i < UDP_SEGMAX
      ensures Idle(At(ring', first, i), if i == |unacked| - k then queued else [])
    {
      if k + i < UDP_SEGMAX {
        assert At(ring, una, k + i) == At(ring, first, i);
      } else {
        assert Slot(ack + 1 + i) == Slot(una + (k + i - UDP_SEGMAX));
        assert At(ring, una, k + i - UDP_SEGMAX) == At(ring, first, i);
        assert Carrying(At(ring, una, k + i - UDP_SEGMAX), una + (k + i - UDP_SEGMAX), unacked[k + i - UDP_SEGMAX]);
      }
    }
  }

  // ---------------------------------------------------------------- the receive ring

  predicate Stored(b: ReceiveBuffer, s: nat, f: Fragment) {
    && b.num == s && b.som == f.som && b.fcnt == f.fcnt != 0
    && 0 < b.dataLen == |f.payload| && f.payload <= b.data
  }

  predicate Empty(b: ReceiveBuffer) {
    b.fcnt == 0 && b.dataLen == 0
  }

  /** Slot s % SEGMAX holds segment s exactly for LCS < s <= CUR. */
  ghost predicate ReceiveRing(ring: seq<ReceiveBuffer>, first: nat, ready: seq<Fragment>) {
    && |ring| == UDP_SEGMAX && |ready| <= UDP_SEGMAX
    && (forall i: nat :: i < |ready| ==> Stored(At(ring, first, i), first + i, ready[i]))
    && (forall i: nat :: |ready| <= i < UDP_SEGMAX ==> Empty(At(ring, first, i)))
  }

  lemma StoreRing(ring: seq<ReceiveBuffer>, first: nat, ready: seq<Fragment>, b: ReceiveBuffer, f: Fragment)
    requires ReceiveRing(ring, first, ready) && |ready| < UDP_SEGMAX
    requires Stored(b, first + |ready|, f)
    ensures Empty(ring[Slot(first + |ready|)])
    ensures ReceiveRing(ring[Slot(first + |ready|) := b], first, ready + [f])
  {
    var ring' := ring[Slot(first + |ready|) := b];
    assert At(ring, first, |ready|) == ring[Slot(first + |ready|)];
    forall i: nat | i < UDP_SEGMAX && i != |ready| ensures At(ring', first, i) == At(ring, first, i) {
    }
    assert At(ring', first, |ready|) == b;
  }

  lemma ReceiveRingSize(ring: seq<ReceiveBuffer>, first: nat, ready: seq<Fragment>)
    requires ReceiveRing(ring, first, ready)
    ensures |ring| == UDP_SEGMAX
  {
  }

  /** The slot of the next segment is free, as AddRcvBuffer asserts, exactly while fewer than SEGMAX segments wait. */
  lemma SlotFreeExact(ring: seq<ReceiveBuffer>, first: nat, ready: seq<Fragment>)
    requires ReceiveRing(ring, first, ready)
    ensures ring[Slot(first + |ready|)].fcnt == 0 <==> |ready| < UDP_SEGMAX
  {
    if |ready| < UDP_SEGMAX {
      assert Empty(At(ring, first, |ready|));
    } else {
      assert Slot(first + |ready|) == Slot(first + 0);
      assert Stored(At(ring, first, 0), first + 0, ready[0]);
    }
  }

  lemma ReleaseRing(ring: seq<ReceiveBuffer>, first: nat, ready: seq<Fragment>)
    requires ReceiveRing(ring, first, ready) && ready != []
    ensures Stored(ring[Slot(first)], first, ready[0])
    ensures var b := ring[Slot(first)];
            ReceiveRing(ring[Slot(first) := b.(fcnt := 0, dataLen := 0)], first + 1, ready[1..])
  {
    var next := first + 1;
    var ring' := ring[Slot(first) := ring[Slot(first)].(fcnt := 0, dataLen := 0)];
    assert At(ring, first, 0) == ring[Slot(first)];
    forall i: nat | i < UDP_SEGMAX - 1 ensures At(ring', next, i) == At(ring, first, i + 1) {
      assert Slot(next + i) == Slot(first + (i + 1));
      assert Slot(first + (i + 1)) != Slot(first);
    }
    assert Slot(next + 4) == Slot(first);
    assert At(ring', next, 4) == ring'[Slot(first)];
    forall i: nat | i < |ready[1..]| ensures Stored(At(ring', next, i), next + i, ready[1..][i]) {
      assert Stored(At(ring, first, i + 1), first + (i + 1), ready[i + 1]);
    }
    forall i: nat | |ready[1..]| <= i < UDP_SEGMAX ensures Empty(At(ring', next, i)) {
      if i < UDP_SEGMAX - 1 {
        assert Empty(At(ring, first, i + 1));
      }
    }
  }

  /** The slot after LCS is empty exactly when nothing is ready. */
  lemma FrontRing(ring: seq<ReceiveBuffer>, first: nat, ready: seq<Fragment>)
    requires ReceiveRing(ring, first, ready)
    ensures if ready == [] then Empty(ring[Slot(first)]) else Stored(ring[Slot(first)], first, ready[0])
  {
    assert At(ring, first, 0) == ring[Slot(first)];
  }

  lemma NextRing(ring: seq<SendBuffer>, una: nat, unacked: seq<Fragment>, queued: seq<uint8>)
    requires SendRing(ring, una, unacked, queued) && |unacked| < UDP_SEGMAX
    ensures Idle(ring[Slot(una + |unacked|)], queued)
  {
    assert At(ring, una, |unacked|) == ring[Slot(una + |unacked|)];
  }

  lemma OtherSlots(ring: seq<SendBuffer>, una: nat, n: nat, b: SendBuffer)
    requires |ring| == UDP_SEGMAX && n < UDP_SEGMAX
    ensures At(ring[Slot(una + n) := b], una, n) == b
    ensures forall i: nat :: i < UDP_SEGMAX && i != n ==> At(ring[Slot(una + n) := b], una, i) == At(ring, una, i)
  {
  }

  /** Filling the buffer of segment NXT without sending it. */
  lemma PackRing(ring: seq<SendBuffer>, una: nat, unacked: seq<Fragment>, queued: seq<uint8>, b: SendBuffer, queued': seq<uint8>)
    requires SendRing(ring, una, unacked, queued) && |unacked| < UDP_SEGMAX
    requires Roomy(b) && Idle(b, queued')
    ensures SendRing(ring[Slot(una + |unacked|) := b], una, unacked, queued')
  {
    hide Idle, Carrying, Roomy;
    OtherSlots(ring, una, |unacked|, b);
    var ring' := ring[Slot(una + |unacked|) := b];
    forall i: nat | i < |unacked| ensures Carrying(At(ring', una, i), una + i, unacked[i]) {
    }
    forall i: nat | |unacked| <= i < UDP_SEGMAX
      ensures Idle(At(ring', una, i), if i == |unacked| then queued' else [])
    {
      assert Idle(At(ring, una, i), if i == |unacked| then queued else []);
    }
  }

  /** Putting segment NXT in flight. */
  lemma LaunchRing(ring: seq<SendBuffer>, una: nat, unacked: seq<Fragment>, queued: seq<uint8>, b: SendBuffer, f: Fragment)
    requires SendRing(ring, una, unacked, queued) && |unacked| < UDP_SEGMAX
    requires Roomy(b) && Carrying(b, una + |unacked|, f)
    ensures SendRing(ring[Slot(una + |unacked|) := b], una, unacked + [f], [])
  {
    hide Idle, Carrying, Roomy;
    OtherSlots(ring, una, |unacked|, b);
    var ring' := ring[Slot(una + |unacked|) := b];
    forall i: nat | i < |unacked| + 1 ensures Carrying(At(ring', una, i), una + i, (unacked + [f])[i]) {
      if i < |unacked| {
        assert Carrying(At(ring, una, i), una + i, unacked[i]);
      }
    }
    forall i: nat | |unacked| < i < UDP_SEGMAX ensures Idle(At(ring', una, i), []) {
      assert Idle(At(ring, una, i), []);
    }
  }

  lemma AcknowledgeKeeps(e: Endpoint, seg: Segment)
    requires e.Valid() && Conforms(e, seg)
    ensures Acknowledge(e, seg).Valid()
    ensures if e.una <= seg.ack
            then Acknowledge(e, seg) == e.(una := seg.ack + 1, unacked := e.unacked[seg.ack + 1 - e.una..], sndLcs := seg.lcs)
            else Acknowledge(e, seg) == e.(sndLcs := seg.lcs)
    ensures Conforms(Acknowledge(e, seg), seg)
    ensures e.una <= seg.ack ==> seg.ack < e.una + |e.unacked|
    ensures |e.unacked| == UDP_SEGMAX ==> e.queued == []
    ensures e.una + |e.unacked| == e.nxt
  {
  }

  /** The send side does not depend on what was received or read. */
  lemma SendSideStands(e: Endpoint, cur: nat, lcs: nat, ready: seq<Fragment>, off: nat)
    requires e.ValidSend() && e.ValidMessage()
    ensures e.(cur := cur, rcvLcs := lcs, ready := ready, readOff := off).ValidSend()
    ensures e.(cur := cur, rcvLcs := lcs, ready := ready, readOff := off).ValidMessage()
  {
  }

  lemma RoomyRing(ring: seq<SendBuffer>, una: nat, unacked: seq<Fragment>, queued: seq<uint8>)
    requires SendRing(ring, una, unacked, queued)
    ensures |ring| == UDP_SEGMAX && forall j :: 0 <= j < |ring| ==> Roomy(ring[j])
  {
  }

  lemma CarryingAt(ring: seq<SendBuffer>, una: nat, unacked: seq<Fragment>, queued: seq<uint8>, i: nat)
    requires SendRing(ring, una, unacked, queued) && i < |unacked|
    ensures |ring| == UDP_SEGMAX && Roomy(ring[Slot(una + i)])
    ensures Carrying(ring[Slot(una + i)], una + i, unacked[i])
  {
    assert At(ring, una, i) == ring[Slot(una + i)];
  }

  /** Rewriting a buffer in flight without touching what it carries. */
  lemma RefreshRing(ring: seq<SendBuffer>, una: nat, unacked: seq<Fragment>, queued: seq<uint8>, i: nat, b: SendBuffer)
    requires SendRing(ring, una, unacked, queued) && i < |unacked|
    requires Roomy(b) && Carrying(b, una + i, unacked[i])
    ensures SendRing(ring[Slot(una + i) := b], una, unacked, queued)
  {
    hide Idle, Carrying, Roomy;
    OtherSlots(ring, una, i, b);
    var ring' := ring[Slot(una + i) := b];
    forall j: nat | j < |unacked| ensures Carrying(At(ring', una, j), una + j, unacked[j]) {
      assert Carrying(At(ring, una, j), una + j, unacked[j]);
    }
    forall j: nat | |unacked| <= j < UDP_SEGMAX
      ensures Idle(At(ring', una, j), if j == |unacked| then queued else [])
    {
      assert Idle(At(ring, una, j), if j == |unacked| then queued else []);
    }
  }

  /** The slot k places after UNA has a running timer and is not the first again exactly for k < NXT - UNA. */
  lemma RunningAt(ring: seq<SendBuffer>, una: nat, unacked: seq<Fragment>, queued: seq<uint8>, k: nat)
    requires SendRing(ring, una, unacked, queued) && 0 < k <= |unacked|
    ensures |ring| == UDP_SEGMAX
    ensures ring[Slot(una + k)].retry != 0 && Slot(una + k) != Slot(una) <==> k < |unacked|
    ensures (Slot(una + (k - 1)) + 1) % UDP_SEGMAX == Slot(una + k)
  {
    if k < UDP_SEGMAX {
      assert At(ring, una, k) == ring[Slot(una + k)];
    }
  }

  lemma TimerOfUna(ring: seq<SendBuffer>, una: nat, unacked: seq<Fragment>, queued: seq<uint8>)
    requires SendRing(ring, una, unacked, queued)
    ensures |ring| == UDP_SEGMAX
    ensures ring[Slot(una)].retry != 0 <==> unacked != []
  {
    assert At(ring, una, 0) == ring[Slot(una)];
    if unacked != [] {
      assert Carrying(At(ring, una, 0), una + 0, unacked[0]);
    }
  }

  lemma NextSlot(s: nat)
    ensures (Slot(s) + 1) % UDP_SEGMAX == Slot(s + 1)
  {
  }

  // ---------------------------------------------------------------- the connection record

  /** struct ArdpSnd without its ring. */
  datatype SendState = SendState(NXT: nat, UNA: nat, LCS: nat, msgLenTotal: nat, msgLenSent: nat, msgSOM: nat, pending: nat, newMsg: bool)

  /** struct ArdpRcv without its ring. */
  datatype ReceiveState = ReceiveState(CUR: nat, LCS: nat)

  /** UDP_Recv_State: the slot being read, the position in it and the bytes left; NULL when nothing is ready. */
  datatype ReadState = NULL | Reading(rxContext: nat, readBuf: nat, dataLen: nat)

  /** n segments are in flight and the first has been tried `retry` times: a pass gives up before its end. */
  predicate GivesUp(pastTimeout: bool, retry: nat, n: nat) {
    pastTimeout && UDP_MIN_DATA_RETRIES + 1 < retry + n
  }

  /** How many of them it resends. */
  function Resends(pastTimeout: bool, retry: nat, n: nat): (k: nat)
    ensures k <= n
  {
    if !GivesUp(pastTimeout, retry, n) then n
    else if retry > UDP_MIN_DATA_RETRIES then 0
    else UDP_MIN_DATA_RETRIES + 1 - retry
  }

  function SendStateOf(e: Endpoint): SendState {
    SendState(e.nxt, e.una, e.sndLcs, e.msgLenTotal, e.msgLenSent, e.msgSOM, |e.unacked|, e.newMsg)
  }

  /** rxContext is the slot after LCS, or NULL exactly when the ring is empty. */
  function ReadStateOf(e: Endpoint): ReadState
    requires e.ValidReceive()
  {
    if e.ready == [] then NULL else Reading(Slot(e.rcvLcs + 1), e.readOff, |e.ready[0].payload| - e.readOff)
  }

  class Connection {
    var snd: SendState
    var sndBuf: array<SendBuffer>
    var rcv: ReceiveState
    var rcvBuf: array<ReceiveBuffer>
    var reader: ReadState
    var wire: seq<Segment>    // what the send function was given
    ghost var view: Endpoint  // the endpoint this record represents

    /** The record and its rings stand for `view`. */
    ghost predicate Represents()
      reads this, sndBuf, rcvBuf
    {
      && sndBuf.Length == UDP_SEGMAX && rcvBuf.Length == UDP_SEGMAX
      && view.una + |view.unacked| == view.nxt
      && view.ValidReceive()
      && snd == SendStateOf(view)
      && SendRing(sndBuf[..], view.una, view.unacked, view.queued)
      && rcv == ReceiveState(view.cur, view.rcvLcs)
      && ReceiveRing(rcvBuf[..], view.rcvLcs + 1, view.ready)
      && reader == ReadStateOf(view)
    }

    ghost predicate Valid()
      reads this, sndBuf, rcvBuf
    {
      view.Valid() && Represents()
    }

    /** Opens in state OPEN with the SYN exchange done. */
    constructor (iss: nat, peerIss: nat)
      ensures Valid() && fresh(sndBuf) && fresh(rcvBuf)
      ensures view == Endpoint(iss + 1, iss + 1, iss, [], [], true, 0, 0, 0, peerIss, peerIss, [], 0)
      ensures wire == []
    {
      snd := SendState(iss + 1, iss + 1, iss, 0, 0, 0, 0, true);
      sndBuf := new SendBuffer[UDP_SEGMAX](_ => SendBuffer(0, 0, 0, 0, 0, 0, seq(MAX_DLEN, _ => 0), 0, 0, 0, false));
      rcv := ReceiveState(peerIss, peerIss);
      rcvBuf := new ReceiveBuffer[UDP_SEGMAX](_ => ReceiveBuffer(0, 0, 0, [], 0));
      reader := NULL;
      wire := [];
      view := Endpoint(iss + 1, iss + 1, iss, [], [], true, 0, 0, 0, peerIss, peerIss, [], 0);
    }

    /** SendHeader. */
    method SendHeader(nul: bool)
      requires Valid()
      modifies this`wire
      ensures Valid() && wire == old(wire) + [Header(view, nul)]
    {
      hide SendRing, ReceiveRing, Endpoint.Valid;
      wire := wire + [Segment(nul, snd.NXT, rcv.CUR, rcv.LCS, snd.UNA, NO_DATA)];
    }

    /** AJ_ARDP_StartMsgSend. */
    method StartMsgSend()
      requires Valid() && view.MessageComplete()
      modifies this`snd, this`view
      ensures Valid() && view == StartMessage(old(view))
    {
      hide SendRing, ReceiveRing;
      snd := snd.(newMsg := true, msgLenSent := 0);
      view := StartMessage(view);
    }

    // ------------------------------------------------------------ sending

    /** Fill the buffer of segment NXT; send it unless it is short of full and not the end of the message. */
    method FillBuffer(chunk: seq<uint8>, fcnt: nat, dataLen: nat) returns (sent: bool)
      requires Represents() && |view.unacked| < UDP_SEGMAX
      requires chunk != [] && dataLen == |view.queued| + |chunk| <= MAX_DLEN
      requires fcnt == FragmentCount(MessageLength()) && snd.msgLenSent + dataLen <= MessageLength()
      modifies this`snd, this`view, this`wire, sndBuf
      ensures Represents()
      ensures sent <==> dataLen == MAX_DLEN || dataLen == old(MessageLength() - snd.msgLenSent)
      ensures var f := Fragment(old(view).msgSOM, fcnt, old(view).queued + chunk);
              if sent then view == Launched(old(view), f) && wire == old(wire) + [DataSegment(old(view), old(view).nxt, f)]
              else view == old(view).(queued := old(view).queued + chunk) && wire == old(wire)
    {
      hide SendRing, ReceiveRing, Slot;
      ghost var ring, una, unacked, queued := sndBuf[..], view.una, view.unacked, view.queued;
      NextRing(ring, una, unacked, queued);
      RoomyRing(ring, una, unacked, queued);
      var idx := Slot(snd.NXT);
      var b := sndBuf[idx];
      var offset := b.dataLen;
      b := b.(data := b.data[..offset] + chunk + b.data[dataLen..], dataLen := dataLen);
      assert b.data[..dataLen] == queued + chunk;
      if dataLen < MAX_DLEN && dataLen != snd.msgLenTotal - snd.msgLenSent {
        PackRing(ring, una, unacked, queued, b, queued + chunk);
        sndBuf[idx] := b;
        assert sndBuf[..] == ring[idx := b];
        view := view.(queued := view.queued + chunk);
        return false;
      }
      b := b.(inFlight := true, retry := 1,
              num := snd.NXT, ack := rcv.CUR, lcs := rcv.LCS, ackNxt := snd.UNA, som := snd.msgSOM, fcnt := fcnt);
      ghost var f := Fragment(view.msgSOM, fcnt, queued + chunk);
      LaunchRing(ring, una, unacked, queued, b, f);
      sndBuf[idx] := b;
      assert sndBuf[..] == ring[idx := b];
      wire := wire + [OnWire(b)];
      snd := snd.(NXT := snd.NXT + 1, pending := snd.pending + 1, msgLenSent := snd.msgLenSent + dataLen);
      view := Launched(view, f);
      return true;
    }

    function MessageLength(): nat
      reads this`snd
    {
      snd.msgLenTotal
    }

    /** The first call for a message takes over its length. */
    method OpenMsg(msgLen: nat)
      requires Represents()
      modifies this`snd, this`view
      ensures Represents() && view == OpenMessage(old(view), msgLen)
    {
      hide SendRing, ReceiveRing;
      if snd.newMsg {
        snd := snd.(msgLenTotal := msgLen, newMsg := false, msgSOM := snd.NXT);
        view := OpenMessage(view, msgLen);
      }
    }

    /** ARDP_Send after its timer check. */
    method Send(txBuf: seq<uint8>, msgLen: nat) returns (status: Status)
      requires Valid() && FitsMessage(view, |txBuf|, msgLen)
      modifies this`snd, this`view, this`wire, sndBuf
      ensures Valid()
      ensures var r := Ardp.Send(old(view), txBuf, msgLen);
              status == r.status && view == r.e && wire == old(wire) + r.out
    {
      hide SendRing, ReceiveRing, Slot, Cut, Leftover, Emit, FragmentCount;
      SendKeepsWindow(view, txBuf, msgLen);
      SendKeepsMessage(view, txBuf, msgLen);
      if snd.pending == UDP_SEGMAX {
        return Backpressure;
      }
      var pending := (snd.NXT - snd.LCS - 1) % 0x1_0000;
      NextRing(sndBuf[..], view.una, view.unacked, view.queued);
      var offset := sndBuf[Slot(snd.NXT)].dataLen;
      OpenMsg(msgLen);
      if |txBuf| + offset > MAX_DLEN * (UDP_SEGMAX - snd.pending)
         || |txBuf| + offset > (MAX_DLEN * ((UDP_SEGMAX - pending) % 0x1_0000_0000)) % 0x1_0000_0000 {
        return Backpressure;
      }
      Assemble(txBuf, offset);
      return Ok;
    }

    /** The loop of ARDP_Send. */
    method Assemble(txBuf: seq<uint8>, offset0: nat)
      requires Represents() && offset0 == |view.queued| < MAX_DLEN
      requires view.msgLenSent + |view.queued| + |txBuf| <= view.msgLenTotal
      requires |view.queued| + |txBuf| <= MAX_DLEN * (UDP_SEGMAX - |view.unacked|)
      requires view.queued == [] || txBuf != []
      modifies this`snd, this`view, this`wire, sndBuf
      ensures Represents()
      ensures view == Emit(old(view), txBuf).e && wire == old(wire) + Emit(old(view), txBuf).out
    {
      hide SendRing, ReceiveRing, Emit, Endpoint.ValidReceive, ReadStateOf, DataSegment;
      var fcnt := (snd.msgLenTotal + MAX_DLEN - 1) / MAX_DLEN;
      var len: nat, pos: nat, offset: nat := |txBuf|, 0, offset0;
      assert txBuf[0..] == txBuf;
      while len != 0
        invariant pos <= |txBuf| && len == |txBuf| - pos && Represents() && offset == |view.queued| < MAX_DLEN
        invariant view.msgLenTotal == old(view.msgLenTotal)
        invariant view.msgLenSent + offset + len <= view.msgLenTotal
        invariant offset + len <= MAX_DLEN * (UDP_SEGMAX - |view.unacked|)
        invariant len == 0 ==> view.queued == []
        invariant Emit(old(view), txBuf).e == Emit(view, txBuf[pos..]).e
        invariant old(wire) + Emit(old(view), txBuf).out == wire + Emit(view, txBuf[pos..]).out
      {
        var dataLen := if len <= MAX_DLEN - offset then offset + len else MAX_DLEN;
        var chunk := txBuf[pos..][..dataLen - offset];
        ghost var e, w := view, wire;
        var sent := FillBuffer(chunk, fcnt, dataLen);
        if !sent {
          assert chunk == txBuf[pos..];
          EmitPacks(e, chunk);
          return;
        }
        EmitStep(e, txBuf[pos..], dataLen);
        assert txBuf[pos..][dataLen - offset..] == txBuf[pos + (dataLen - offset)..];
        pos := pos + (dataLen - offset);
        len := len - (dataLen - offset);
        offset := 0;
      }
      assert txBuf[pos..] == [];
      EmitNothing(view);
    }

    /** CheckDataTimers: the buffer of UNA has a running timer exactly when something is in flight. */
    method CheckDataTimers(due: bool, pastTimeout: bool) returns (ok: bool)
      requires Valid()
      modifies this`wire, sndBuf
      ensures Valid()
      ensures !due ==> ok && wire == old(wire)
      ensures !ok <==> due && view.unacked != [] && pastTimeout && old(sndBuf[Slot(view.una)].retry) + |view.unacked| > 6
      ensures due && view.unacked != [] ==>
                wire == old(wire) + Retransmission(view)[..Resends(pastTimeout, old(sndBuf[Slot(view.una)].retry), |view.unacked|)]
      ensures due && ok ==> wire == old(wire) + Retransmission(view)
    {
      ghost var out := Retransmission(view);
      assert out[..|out|] == out;
      TimerOfUna(sndBuf[..], view.una, view.unacked, view.queued);
      var idx := snd.UNA % UDP_SEGMAX;
      ok := true;
      if sndBuf[idx].retry != 0 && due {
        ok := DataTimerHandler(pastTimeout);
      }
    }

    /** One round of DataTimerHandler: resend segment UNA + k and count the retry on the first buffer. */
    method ResendBuffer(start: nat, idx: nat, ghost k: nat)
      requires Valid() && k < |view.unacked|
      requires start == Slot(view.una) && idx == Slot(view.una + k)
      modifies this`wire, sndBuf
      ensures Valid() && wire == old(wire) + [Retransmission(view)[k]]
      ensures sndBuf[start].retry == old(sndBuf[start].retry) + 1
    {
      hide ReceiveRing, SendRing, Endpoint.Valid;
      ghost var ring := sndBuf[..];
      CarryingAt(ring, view.una, view.unacked, view.queued, k);
      var b := sndBuf[idx].(ack := rcv.CUR, lcs := rcv.LCS, ackNxt := snd.UNA);
      RefreshRing(ring, view.una, view.unacked, view.queued, k, b);
      sndBuf[idx] := b;
      assert sndBuf[..] == ring[idx := b];
      wire := wire + [OnWire(b)];
      ring := sndBuf[..];
      CarryingAt(ring, view.una, view.unacked, view.queued, 0);
      var first := sndBuf[start].(retry := sndBuf[start].retry + 1);
      RefreshRing(ring, view.una, view.unacked, view.queued, 0, first);
      sndBuf[start] := first;
      assert sndBuf[..] == ring[start := first];
    }

    /** The test at the end of a round: the next buffer is in flight and not the first again. */
    method MoreInFlight(start: nat, idx: nat, ghost k: nat) returns (more: bool)
      requires Valid() && k < |view.unacked|
      requires start == Slot(view.una) && idx == Slot(view.una + k)
      ensures more <==> k + 1 < |view.unacked|
      ensures (idx + 1) % UDP_SEGMAX == Slot(view.una + k + 1)
    {
      hide ReceiveRing, SendRing, Endpoint.Valid;
      RunningAt(sndBuf[..], view.una, view.unacked, view.queued, k + 1);
      var next := (idx + 1) % UDP_SEGMAX;
      return sndBuf[next].retry != 0 && next != start;
    }

    method CountRetransmit(start: nat)
      requires Valid() && view.unacked != [] && start == Slot(view.una)
      modifies sndBuf
      ensures Valid() && sndBuf[start].retry == old(sndBuf[start].retry)
    {
      hide ReceiveRing, SendRing, Endpoint.Valid;
      ghost var ring := sndBuf[..];
      CarryingAt(ring, view.una, view.unacked, view.queued, 0);
      var first := sndBuf[start].(retransmits := sndBuf[start].retransmits + 1);
      RefreshRing(ring, view.una, view.unacked, view.queued, 0, first);
      sndBuf[start] := first;
      assert sndBuf[..] == ring[start := first];
    }

    /**
     * DataTimerHandler: a pass resends UNA .. NXT - 1 once each, in order, payloads unchanged. Past
     * the timeout it gives up at the first round that finds the buffer of UNA tried too often.
     */
    method DataTimerHandler(pastTimeout: bool) returns (ok: bool)
      requires Valid() && view.unacked != []
      modifies this`wire, sndBuf
      ensures Valid()
      ensures !ok <==> pastTimeout && old(sndBuf[Slot(view.una)].retry) + |view.unacked| > 6
      ensures wire == old(wire) + Retransmission(view)[..Resends(pastTimeout, old(sndBuf[Slot(view.una)].retry), |view.unacked|)]
    {
      hide ReceiveRing, SendRing, Endpoint.Valid;
      var start := snd.UNA % UDP_SEGMAX;
      var idx := start;
      ok := true;
      ghost var retry := sndBuf[start].retry;
      CountRetransmit(start);
      ghost var k, out := 0, Retransmission(view);
      var more := true;
      while more
        invariant Valid() && 0 <= k <= |view.unacked| && idx == Slot(view.una + k)
        invariant wire == old(wire) + out[..k]
        invariant more ==> k < |view.unacked|
        invariant !more ==> k == |view.unacked|
        invariant sndBuf[start].retry == retry + k
        invariant pastTimeout ==> k == 0 || retry + k <= UDP_MIN_DATA_RETRIES + 1
        decreases |view.unacked| - k, more
      {
        if pastTimeout && sndBuf[start].retry > UDP_MIN_DATA_RETRIES {
          ok := false;
          return;
        }
        ResendBuffer(start, idx, k);
        assert out[..k + 1] == out[..k] + [out[k]];
        more := MoreInFlight(start, idx, k);
        k := k + 1;
        idx := (idx + 1) % UDP_SEGMAX;
      }
      assert out[..k] == out;
    }

    // ------------------------------------------------------------ receiving

    ghost predicate Acknowledging(ack: nat)
      reads this, sndBuf
    {
      && sndBuf.Length == UDP_SEGMAX
      && view.una <= ack < view.una + |view.unacked|
      && (|view.unacked| == UDP_SEGMAX ==> view.queued == [])
      && snd.pending == |view.unacked|
      && SendRing(sndBuf[..], view.una, view.unacked, view.queued)
    }

    /** UpdateSndSegments, called with UNA already at ack + 1. */
    method UpdateSndSegments(ack: nat)
      requires Acknowledging(ack)
      modifies this`snd, sndBuf
      ensures snd == old(snd).(pending := |view.unacked| - (ack + 1 - view.una))
      ensures SendRing(sndBuf[..], ack + 1, view.unacked[ack + 1 - view.una..], view.queued)
    {
      hide At, Slot, Idle, Carrying, InFlightCount;
      ghost var ring := sndBuf[..];
      RingCount(ring, view.una, view.unacked, view.queued);
      if snd.pending == 0 {
        return;
      }
      for i := 0 to UDP_SEGMAX
        invariant snd == old(snd).(pending := InFlightCount(sndBuf[..]))
        invariant forall j :: 0 <= j < i ==> sndBuf[j] == Swept(ring[j], ack)
        invariant forall j :: i <= j < UDP_SEGMAX ==> sndBuf[j] == ring[j]
      {
        var b := sndBuf[i];
        if b.num <= ack && b.inFlight {
          CountUpdate(sndBuf[..], i, Cleared(b));
          ghost var before := sndBuf[..];
          sndBuf[i] := Cleared(b);
          assert sndBuf[..] == before[i := Cleared(b)];
          snd := snd.(pending := snd.pending - 1);
        }
        if snd.pending == 0 {
          forall j | i < j < UDP_SEGMAX ensures sndBuf[j] == Swept(ring[j], ack) {
            CountZero(sndBuf[..], j);
          }
          break;
        }
      }
      SweepRing(ring, sndBuf[..], view.una, view.unacked, view.queued, ack);
      RingCount(sndBuf[..], ack + 1, view.unacked[ack + 1 - view.una..], view.queued);
    }

    /** The acknowledgement part of ArdpMachine. */
    method ProcessAck(seg: Segment)
      requires Valid() && Conforms(view, seg)
      modifies this`snd, this`view, sndBuf
      ensures Valid() && view == Acknowledge(old(view), seg)
    {
      hide SendRing, ReceiveRing, Endpoint.ValidSend, Endpoint.ValidMessage;
      AcknowledgeKeeps(view, seg);
      if snd.UNA <= seg.ack <= snd.NXT {
        snd := snd.(UNA := seg.ack + 1);
        UpdateSndSegments(seg.ack);
      }
      snd := snd.(LCS := seg.lcs);
      view := Acknowledge(view, seg);
    }

    /** AddRcvBuffer; its assertion that the slot is free always holds. */
    method AddRcvBuffer(seg: Segment)
      requires Valid() && Conforms(view, seg) && CarriesData(seg) && seg.num == rcv.CUR + 1
      modifies this`reader, this`rcv, this`view, rcvBuf
      ensures Valid() && view == Accept(old(view), seg)
    {
      hide SendRing, ReceiveRing, Endpoint.ValidSend, Endpoint.ValidMessage;
      var idx := seg.num % UDP_SEGMAX;
      ghost var ring := rcvBuf[..];
      var b := ReceiveBuffer(seg.num, seg.frag.som, seg.frag.fcnt, seg.frag.payload, |seg.frag.payload|);
      assert Slot(view.rcvLcs + 1 + |view.ready|) == idx;
      StoreRing(ring, view.rcvLcs + 1, view.ready, b, seg.frag);
      assert rcvBuf[idx].fcnt == 0;
      rcvBuf[idx] := b;
      assert rcvBuf[..] == ring[idx := b];
      if reader == NULL {
        reader := Reading(idx, 0, |seg.frag.payload|);
      }
      rcv := rcv.(CUR := seg.num);
      SendSideStands(view, seg.num, view.rcvLcs, view.ready + [seg.frag], view.readOff);
      view := Accept(view, seg);
    }

    /** ArdpMachine in state OPEN. */
    method OnSegment(seg: Segment)
      requires Valid() && Conforms(view, seg)
      modifies this, sndBuf, rcvBuf
      ensures Valid() && sndBuf == old(sndBuf) && rcvBuf == old(rcvBuf)
      ensures view == Receive(old(view), seg)
      ensures wire == old(wire) + Reply(view, seg)
    {
      hide SendRing, ReceiveRing;
      ProcessAck(seg);
      if seg.nul {
        SendHeader(false);
      } else if |seg.frag.payload| != 0 {
        if rcv.CUR + 1 <= seg.num {
          AddRcvBuffer(seg);
        }
      }
    }

    // ------------------------------------------------------------ reading

    /** RecvReady, then the reader moves to the next slot if it holds data. */
    method RecvReady()
      requires Valid() && view.ready != []
      modifies this`rcv, this`reader, this`view, rcvBuf
      ensures Valid()
      ensures view == old(view).(ready := old(view).ready[1..], rcvLcs := old(view).rcvLcs + 1, readOff := 0)
    {
      hide SendRing, ReceiveRing, Endpoint.ValidSend, Endpoint.ValidMessage, Slot;
      ghost var ring := rcvBuf[..];
      ReleaseRing(ring, view.rcvLcs + 1, view.ready);
      var at := reader.rxContext;
      var b := rcvBuf[at];
      rcvBuf[at] := b.(fcnt := 0, dataLen := 0);
      assert rcvBuf[..] == ring[Slot(view.rcvLcs + 1) := b.(fcnt := 0, dataLen := 0)];
      rcv := rcv.(LCS := b.num);
      SendSideStands(view, view.cur, view.rcvLcs + 1, view.ready[1..], 0);
      view := view.(ready := view.ready[1..], rcvLcs := view.rcvLcs + 1, readOff := 0);
      FrontRing(rcvBuf[..], view.rcvLcs + 1, view.ready);
      NextSlot(view.rcvLcs);
      var next := (at + 1) % UDP_SEGMAX;
      if rcvBuf[next].dataLen != 0 {
        reader := Reading(next, 0, rcvBuf[next].dataLen);
      } else {
        reader := NULL;
      }
    }

    /** One round of UpdateReadBuffer: copy at most rx bytes of the slot being read. */
    method CopyFront(rx: nat) returns (copied: seq<uint8>, finished: bool)
      requires Valid() && view.ready != []
      modifies this`rcv, this`reader, this`view, rcvBuf
      ensures Valid()
      ensures var e, p := old(view), old(view).ready[0].payload;
              && (finished <==> |p| - e.readOff <= rx)
              && copied == (if finished then p[e.readOff..] else p[e.readOff..e.readOff + rx])
              && view == (if finished then e.(ready := e.ready[1..], rcvLcs := e.rcvLcs + 1, readOff := 0)
                          else e.(readOff := e.readOff + rx))
    {
      hide SendRing, ReceiveRing, Endpoint.ValidSend, Endpoint.ValidMessage, Slot;
      FrontRing(rcvBuf[..], view.rcvLcs + 1, view.ready);
      var consumed := if rx < reader.dataLen then rx else reader.dataLen;
      copied := rcvBuf[reader.rxContext].data[reader.readBuf..reader.readBuf + consumed];
      finished := consumed == reader.dataLen;
      if finished {
        RecvReady();
      } else {
        SendSideStands(view, view.cur, view.rcvLcs, view.ready, view.readOff + rx);
        reader := reader.(readBuf := reader.readBuf + rx, dataLen := reader.dataLen - rx);
        view := view.(readOff := view.readOff + rx);
      }
    }

    lemma NullMeansEmpty()
      requires Valid()
      ensures reader == NULL <==> view.ready == []
    {
    }

    /** UpdateReadBuffer: copy to a buffer with `space` bytes free, at most len of them. */
    method UpdateReadBuffer(space: nat, len: nat) returns (bytes: seq<uint8>)
      requires Valid()
      modifies this`rcv, this`reader, this`view, rcvBuf
      ensures Valid()
      ensures view == Read(old(view), if space < len then space else len).e
      ensures bytes == Read(old(view), if space < len then space else len).bytes
    {
      hide Represents, Endpoint.ValidSend, Endpoint.ValidMessage, Read;
      NullMeansEmpty();
      bytes := [];
      ghost var n := if space < len then space else len;
      while reader != NULL && |bytes| < len
        invariant Valid() && |bytes| <= n
        invariant reader == NULL <==> view.ready == []
        invariant Read(old(view), n).e == Read(view, n - |bytes|).e
        invariant Read(old(view), n).bytes == bytes + Read(view, n - |bytes|).bytes
        decreases |view.ready|
      {
        var rx := if space - |bytes| < len - |bytes| then space - |bytes| else len - |bytes|;
        ghost var e := view;
        var copied, finished := CopyFront(rx);
        if finished {
          ReadBeyond(e, rx);
          Associative(bytes, copied, Read(view, rx - |copied|).bytes);
          bytes := bytes + copied;
          NullMeansEmpty();
        } else {
          ReadWithin(e, rx);
          bytes := bytes + copied;
          return;
        }
      }
      ReadNothing(view, n - |bytes|);
    }
  }

  function Swept(b: SendBuffer, ack: nat): SendBuffer {
    if b.num <= ack && b.inFlight then Cleared(b) else b
  }
}
