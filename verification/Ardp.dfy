/**
 * One ARDP endpoint in state OPEN, as a value: the connection record without its
 * two rings. `ArdpEndpoint` holds the rings and proves that they implement this view.
 */
module Ardp {
  import opened Bytes

  const UDP_SEGMAX: nat := 5    // (AJ_TX_DATA_SIZE + UDP_SEGBMAX - 1) / UDP_SEGBMAX + 1
  const MAX_DLEN: nat := 1428   // UDP_SEGBMAX - (UDP_HEADER_SIZE + ARDP_HEADER_SIZE)

  /** One piece of a message: the SOM and FCNT of its message, and its bytes. */
  datatype Fragment = Fragment(som: nat, fcnt: nat, payload: seq<uint8>)

  /** A segment on the wire; a data segment has a non-empty payload. */
  datatype Segment = Segment(nul: bool, num: nat, ack: nat, lcs: nat, ackNxt: nat, frag: Fragment)

  const NO_DATA := Fragment(0, 0, [])

  datatype Endpoint = Endpoint(
    // send side
    nxt: nat, una: nat, sndLcs: nat,
    unacked: seq<Fragment>,   // segments una .. nxt - 1
    queued: seq<uint8>,       // bytes packed in the buffer of segment nxt
    newMsg: bool, msgLenTotal: nat, msgLenSent: nat, msgSOM: nat,
    // receive side
    cur: nat, rcvLcs: nat,
    ready: seq<Fragment>,     // segments rcvLcs + 1 .. cur
    readOff: nat)             // bytes already read from segment rcvLcs + 1
  {
    ghost predicate Valid() {
      && ValidSend()
      && ValidMessage()
      && ValidReceive()
    }

    ghost predicate ValidSend() {
      && una + |unacked| == nxt
      && |unacked| <= UDP_SEGMAX
      && sndLcs < una
      && nxt <= sndLcs + UDP_SEGMAX + 1
      && (forall f <- unacked :: 0 < |f.payload| <= MAX_DLEN)
    }

    ghost predicate ValidMessage() {
      && |queued| < MAX_DLEN
      && (|unacked| == UDP_SEGMAX ==> queued == [])
      && (newMsg ==> queued == [] && msgLenSent == 0)
      && (!newMsg ==>
            && msgLenSent + |queued| <= msgLenTotal
            && (queued != [] ==> msgLenSent + |queued| < msgLenTotal)
            && 0 < msgLenTotal && FragmentCount(msgLenTotal) < 0x1_0000
            && msgSOM <= nxt)
    }

    ghost predicate ValidReceive() {
      && rcvLcs + |ready| == cur
      && |ready| <= UDP_SEGMAX
      && (forall f <- ready :: f.payload != [])
      && (if ready == [] then readOff == 0 else readOff < |ready[0].payload|)
    }

    /** The current message, if any, has been handed over in full. */
    ghost predicate MessageComplete() {
      newMsg || msgLenSent == msgLenTotal
    }

    /** Bytes received and not yet copied out. */
    function Unread(): seq<uint8>
      requires ValidReceive()
    {
      Payload(ready)[readOff..]
    }
  }

  function Payload(fs: seq<Fragment>): (r: seq<uint8>)
    ensures fs != [] ==> |fs[0].payload| <= |r|
  {
    if fs == [] then [] else fs[0].payload + Payload(fs[1..])
  }

  lemma {:induction false} PayloadAppend(a: seq<Fragment>, b: seq<Fragment>)
    ensures Payload(a + b) == Payload(a) + Payload(b)
  {
    if a == [] {
      assert a + b == b;
    } else {
      assert (a + b)[1..] == a[1..] + b;
      PayloadAppend(a[1..], b);
    }
  }

  /** Number of segments a message of n bytes is split into. */
  function FragmentCount(n: nat): nat {
    (n + MAX_DLEN - 1) / MAX_DLEN
  }

  // ---------------------------------------------------------------- fragmentation

  /**
   * The segments that leave when `bytes` are pending and `left` bytes of the message,
   * these included, have not left: full segments, and a short one only at the end.
   */
  function Cut(bytes: seq<uint8>, left: nat, som: nat, fcnt: nat): (r: seq<Fragment>)
    requires |bytes| <= left
  {
    if bytes == [] then []
    else if |bytes| >= MAX_DLEN then
      [Fragment(som, fcnt, bytes[..MAX_DLEN])] + Cut(bytes[MAX_DLEN..], left - MAX_DLEN, som, fcnt)
    else if |bytes| == left then [Fragment(som, fcnt, bytes)]
    else []
  }

  /** The bytes that stay packed, waiting for the rest of their segment. */
  function Leftover(bytes: seq<uint8>, left: nat): (r: seq<uint8>)
    requires |bytes| <= left
  {
    if bytes == [] then []
    else if |bytes| >= MAX_DLEN then Leftover(bytes[MAX_DLEN..], left - MAX_DLEN)
    else if |bytes| == left then []
    else bytes
  }

  // ---------------------------------------------------------------- operations

  datatype Status = Ok | Backpressure

  /**
   * MAX_DLEN * (SEGMAX - pending) as the C code computes it: pending is 16 bits wide
   * and the product is taken modulo 2^32.
   */
  function WindowBytes(nxt: nat, sndLcs: nat): nat {
    var pending := (nxt - sndLcs - 1) % 0x1_0000;
    (MAX_DLEN * ((UDP_SEGMAX - pending) % 0x1_0000_0000)) % 0x1_0000_0000
  }

  function DataSegment(e: Endpoint, s: nat, f: Fragment): Segment {
    Segment(false, s, e.cur, e.rcvLcs, e.una, f)
  }

  /** SendHeader: a segment without data. */
  function Header(e: Endpoint, nul: bool): Segment {
    Segment(nul, e.nxt, e.cur, e.rcvLcs, e.una, NO_DATA)
  }

  /** What a full pass of the data timer puts on the wire. */
  function Retransmission(e: Endpoint): seq<Segment> {
    seq(|e.unacked|, i requires 0 <= i < |e.unacked| => DataSegment(e, e.una + i, e.unacked[i]))
  }

  /** AJ_ARDP_StartMsgSend. */
  function StartMessage(e: Endpoint): Endpoint {
    e.(newMsg := true, msgLenSent := 0)
  }

  /** The first call for a message reads its length from the header in the buffer. */
  function OpenMessage(e: Endpoint, msgLen: nat): Endpoint {
    if e.newMsg then e.(newMsg := false, msgLenTotal := msgLen, msgSOM := e.nxt) else e
  }

  predicate HasRoom(e: Endpoint, len: nat) {
    && len + |e.queued| <= MAX_DLEN * (UDP_SEGMAX - |e.unacked|)
    && len + |e.queued| <= WindowBytes(e.nxt, e.sndLcs)
  }

  datatype SendResult = SendResult(status: Status, e: Endpoint, out: seq<Segment>)

  /** Callers give each message exactly as many bytes as its header announces. */
  predicate FitsMessage(e: Endpoint, len: nat, msgLen: nat) {
    var o := OpenMessage(e, msgLen);
    && 0 < len < 0x1_0000
    && o.msgLenSent + |e.queued| + len <= o.msgLenTotal
    && FragmentCount(o.msgLenTotal) < 0x1_0000
  }

  /** ARDP_Send after its timer check. */
  function Send(e: Endpoint, data: seq<uint8>, msgLen: nat): SendResult
    requires FitsMessage(e, |data|, msgLen)
  {
    if |e.unacked| == UDP_SEGMAX then SendResult(Backpressure, e, [])
    else SendOpened(OpenMessage(e, msgLen), data)
  }

  function SendOpened(o: Endpoint, data: seq<uint8>): SendResult
    requires o.msgLenSent + |o.queued| + |data| <= o.msgLenTotal
  {
    if HasRoom(o, |data|) then Emit(o, data) else SendResult(Backpressure, o, [])
  }

  /** Packing and sending once there is room. */
  function Emit(o: Endpoint, data: seq<uint8>): (r: SendResult)
    requires o.msgLenSent + |o.queued| + |data| <= o.msgLenTotal
    ensures r.status == Ok
  {
    var bytes, left := o.queued + data, o.msgLenTotal - o.msgLenSent;
    var fs := Cut(bytes, left, o.msgSOM, FragmentCount(o.msgLenTotal));
    SendResult(Ok,
               o.(nxt := o.nxt + |fs|, unacked := o.unacked + fs, queued := Leftover(bytes, left),
                  msgLenSent := o.msgLenSent + |Payload(fs)|),
               seq(|fs|, i requires 0 <= i < |fs| => DataSegment(o, o.nxt + i, fs[i])))
  }

  /** The acknowledgement part of ArdpMachine; its range test admits ACK == NXT. */
  function Acknowledge(e: Endpoint, seg: Segment): Endpoint
    requires e.una + |e.unacked| == e.nxt
  {
    if e.una <= seg.ack <= e.nxt then
      var gone := if seg.ack < e.nxt then seg.ack + 1 - e.una else |e.unacked|;
      e.(una := seg.ack + 1, unacked := e.unacked[gone..], sndLcs := seg.lcs)
    else
      e.(sndLcs := seg.lcs)
  }

  /** The data part of ArdpMachine: a segment beyond CUR is stored. */
  function Accept(e: Endpoint, seg: Segment): Endpoint {
    if !seg.nul && seg.frag.payload != [] && e.cur + 1 <= seg.num
    then e.(ready := e.ready + [seg.frag], cur := seg.num)
    else e
  }

  /** ArdpMachine in state OPEN on a segment that passed validation. */
  function Receive(e: Endpoint, seg: Segment): Endpoint
    requires e.una + |e.unacked| == e.nxt
  {
    Accept(Acknowledge(e, seg), seg)
  }

  /** A NUL probe is answered at once. */
  function Reply(e: Endpoint, seg: Segment): seq<Segment> {
    if seg.nul then [Header(e, false)] else []
  }

  datatype ReadResult = ReadResult(e: Endpoint, bytes: seq<uint8>)

  /** UpdateReadBuffer with room for n bytes. */
  function Read(e: Endpoint, n: nat): (r: ReadResult)
    requires e.ValidReceive()
    decreases |e.ready|
  {
    if n == 0 || e.ready == [] then ReadResult(e, [])
    else
      var p := e.ready[0].payload;
      if n < |p| - e.readOff then ReadResult(e.(readOff := e.readOff + n), p[e.readOff..e.readOff + n])
      else
        var rest := Read(e.(ready := e.ready[1..], rcvLcs := e.rcvLcs + 1, readOff := 0), n - (|p| - e.readOff));
        rest.(bytes := p[e.readOff..] + rest.bytes)
  }

  // ---------------------------------------------------------------- what they mean

  /** The window arithmetic is exact iff the peer's LCS is at most SEGMAX behind; otherwise it admits any send. */
  lemma WindowExact(nxt: nat, sndLcs: nat)
    requires sndLcs < nxt <= sndLcs + 0x1_0000
    ensures nxt <= sndLcs + UDP_SEGMAX + 1 <==> WindowBytes(nxt, sndLcs) <= MAX_DLEN * UDP_SEGMAX
    ensures nxt <= sndLcs + UDP_SEGMAX + 1 ==> WindowBytes(nxt, sndLcs) == MAX_DLEN * (sndLcs + UDP_SEGMAX + 1 - nxt)
  {
    var pending := nxt - sndLcs - 1;
    assert pending % 0x1_0000 == pending;
    if pending > UDP_SEGMAX {
      assert (UDP_SEGMAX - pending) % 0x1_0000_0000 == 0x1_0000_0000 + UDP_SEGMAX - pending;
      assert MAX_DLEN * (0x1_0000_0000 + UDP_SEGMAX - pending)
          == 0x1_0000_0000 * (MAX_DLEN - 1) + (0x1_0000_0000 - MAX_DLEN * (pending - UDP_SEGMAX));
    }
  }

  /** An acknowledgement in the admitted range keeps the send window sound iff it is not for NXT itself. */
  lemma AcknowledgeExact(e: Endpoint, seg: Segment)
    requires e.ValidSend() && seg.lcs <= seg.ack <= e.nxt
    requires e.nxt <= seg.lcs + UDP_SEGMAX + 1
    ensures Acknowledge(e, seg).ValidSend() <==> seg.ack != e.nxt
  {
    if e.una <= seg.ack {
      assert Acknowledge(e, seg).una == seg.ack + 1;
    }
  }

  /** Cutting loses nothing: the segments and the packed bytes concatenate to the input. */
  lemma {:induction false} CutConserves(bytes: seq<uint8>, left: nat, som: nat, fcnt: nat)
    requires |bytes| <= left
    ensures Payload(Cut(bytes, left, som, fcnt)) + Leftover(bytes, left) == bytes
    ensures |Leftover(bytes, left)| < MAX_DLEN
    ensures Leftover(bytes, left) != [] ==> |bytes| < left
    decreases |bytes|
  {
    if |bytes| >= MAX_DLEN {
      CutConserves(bytes[MAX_DLEN..], left - MAX_DLEN, som, fcnt);
      var rest := Cut(bytes[MAX_DLEN..], left - MAX_DLEN, som, fcnt);
      assert Cut(bytes, left, som, fcnt)[1..] == rest;
      assert bytes == bytes[..MAX_DLEN] + bytes[MAX_DLEN..];
    }
  }

  /** Every segment but one that ends the message holds exactly MAX_DLEN bytes. */
  lemma {:induction false} CutShape(bytes: seq<uint8>, left: nat, som: nat, fcnt: nat)
    requires |bytes| <= left
    ensures var fs := Cut(bytes, left, som, fcnt);
            && (forall i :: 0 <= i < |fs| ==> fs[i].som == som && fs[i].fcnt == fcnt)
            && (forall i :: 0 <= i < |fs| ==> 0 < |fs[i].payload| <= MAX_DLEN)
            && (forall i :: 0 <= i < |fs| && |fs[i].payload| < MAX_DLEN ==> i == |fs| - 1 && |bytes| == left)
            && |fs| == (if |bytes| == left then FragmentCount(left) else |bytes| / MAX_DLEN)
    decreases |bytes|
  {
    if |bytes| >= MAX_DLEN {
      CutShape(bytes[MAX_DLEN..], left - MAX_DLEN, som, fcnt);
    }
  }

  /** How the bytes of a message are spread over calls makes no difference. */
  lemma {:induction false} CutAppend(a: seq<uint8>, b: seq<uint8>, left: nat, som: nat, fcnt: nat)
    requires |a| + |b| <= left
    requires |a| < left
    ensures var fs := Cut(a, left, som, fcnt);
            && |Leftover(a, left) + b| <= left - |Payload(fs)|
            && Cut(a + b, left, som, fcnt) == fs + Cut(Leftover(a, left) + b, left - |Payload(fs)|, som, fcnt)
            && Leftover(a + b, left) == Leftover(Leftover(a, left) + b, left - |Payload(fs)|)
    decreases |a|
  {
    CutConserves(a, left, som, fcnt);
    if |a| >= MAX_DLEN {
      assert (a + b)[..MAX_DLEN] == a[..MAX_DLEN];
      assert (a + b)[MAX_DLEN..] == a[MAX_DLEN..] + b;
      CutAppend(a[MAX_DLEN..], b, left - MAX_DLEN, som, fcnt);
      assert Cut(a, left, som, fcnt)[1..] == Cut(a[MAX_DLEN..], left - MAX_DLEN, som, fcnt);
    } else {
      assert Cut(a, left, som, fcnt) == [];
    }
  }

  /** Cutting what fits in k buffers gives at most k segments, and packs nothing when it fills them. */
  lemma CutFits(bytes: seq<uint8>, left: nat, som: nat, fcnt: nat, k: nat)
    requires |bytes| <= left && |bytes| <= MAX_DLEN * k
    ensures |Cut(bytes, left, som, fcnt)| <= k
    ensures |Cut(bytes, left, som, fcnt)| == k ==> Leftover(bytes, left) == []
  {
    CutShape(bytes, left, som, fcnt);
    CutCount(bytes, left, som, fcnt);
  }

  /** All full segments have left before anything stays packed. */
  lemma {:induction false} CutCount(bytes: seq<uint8>, left: nat, som: nat, fcnt: nat)
    requires |bytes| <= left
    ensures Leftover(bytes, left) != [] ==> |bytes| == MAX_DLEN * |Cut(bytes, left, som, fcnt)| + |Leftover(bytes, left)|
    decreases |bytes|
  {
    if |bytes| >= MAX_DLEN {
      CutCount(bytes[MAX_DLEN..], left - MAX_DLEN, som, fcnt);
    }
  }

  /** ARDP_Send never overruns the ring or the peer's window. */
  lemma SendKeepsWindow(e: Endpoint, data: seq<uint8>, msgLen: nat)
    requires e.Valid() && FitsMessage(e, |data|, msgLen)
    ensures Send(e, data, msgLen).e.ValidSend()
  {
    var o := OpenMessage(e, msgLen);
    if |e.unacked| < UDP_SEGMAX && HasRoom(o, |data|) {
      WindowExact(e.nxt, e.sndLcs);
      var bytes, left, fcnt := o.queued + data, o.msgLenTotal - o.msgLenSent, FragmentCount(o.msgLenTotal);
      CutFits(bytes, left, o.msgSOM, fcnt, UDP_SEGMAX - |e.unacked|);
      CutFits(bytes, left, o.msgSOM, fcnt, e.sndLcs + UDP_SEGMAX + 1 - e.nxt);
      CutShape(bytes, left, o.msgSOM, fcnt);
    }
  }

  /** Nor does it pack bytes where no buffer is free, or more than the message holds. */
  lemma SendKeepsMessage(e: Endpoint, data: seq<uint8>, msgLen: nat)
    requires e.Valid() && FitsMessage(e, |data|, msgLen)
    ensures Send(e, data, msgLen).e.ValidMessage()
  {
    var o := OpenMessage(e, msgLen);
    if |e.unacked| < UDP_SEGMAX && HasRoom(o, |data|) {
      var bytes, left, fcnt := o.queued + data, o.msgLenTotal - o.msgLenSent, FragmentCount(o.msgLenTotal);
      CutFits(bytes, left, o.msgSOM, fcnt, UDP_SEGMAX - |e.unacked|);
      CutConserves(bytes, left, o.msgSOM, fcnt);
    }
  }

  /** The next piece of a message continues where its earlier pieces stopped. */
  lemma MessageContinues(before: seq<uint8>, data: seq<uint8>, total: nat, som: nat)
    requires |before| < total && |before| + |data| <= total
    ensures var fcnt := FragmentCount(total);
            var gone, packed := Cut(before, total, som, fcnt), Leftover(before, total);
            && |Payload(gone)| + |packed| == |before|
            && |packed| + |data| <= total - |Payload(gone)|
            && var fs := Cut(packed + data, total - |Payload(gone)|, som, fcnt);
            && Cut(before + data, total, som, fcnt) == gone + fs
            && Leftover(before + data, total) == Leftover(packed + data, total - |Payload(gone)|)
            && |Payload(fs)| + |Leftover(before + data, total)| == |packed| + |data|
            && |gone| + |fs| <= fcnt
  {
    hide Cut, Leftover, Payload;
    var fcnt := FragmentCount(total);
    var gone, packed := Cut(before, total, som, fcnt), Leftover(before, total);
    CutConserves(before, total, som, fcnt);
    CutAppend(before, data, total, som, fcnt);
    CutConserves(packed + data, total - |Payload(gone)|, som, fcnt);
    CutShape(before + data, total, som, fcnt);
  }

  /** The endpoint after its next buffer, holding f, has left. */
  function Launched(e: Endpoint, f: Fragment): Endpoint {
    e.(nxt := e.nxt + 1, unacked := e.unacked + [f], queued := [], msgLenSent := e.msgLenSent + |f.payload|)
  }

  lemma CutStep(bytes: seq<uint8>, left: nat, som: nat, fcnt: nat, n: nat)
    requires 0 < n <= |bytes| <= left
    requires n == MAX_DLEN || n == |bytes| == left < MAX_DLEN
    ensures Cut(bytes, left, som, fcnt) == [Fragment(som, fcnt, bytes[..n])] + Cut(bytes[n..], left - n, som, fcnt)
    ensures Leftover(bytes, left) == Leftover(bytes[n..], left - n)
    ensures Payload(Cut(bytes, left, som, fcnt)) == bytes[..n] + Payload(Cut(bytes[n..], left - n, som, fcnt))
  {
    assert n == |bytes| ==> bytes[..n] == bytes && bytes[n..] == [];
    assert Cut(bytes, left, som, fcnt)[1..] == Cut(bytes[n..], left - n, som, fcnt);
  }

  /** Sending is sending one full or final buffer and then the rest. */
  lemma EmitStep(e: Endpoint, data: seq<uint8>, n: nat)
    requires e.msgLenSent + |e.queued| + |data| <= e.msgLenTotal
    requires |e.queued| < n <= |e.queued| + |data|
    requires n == MAX_DLEN || n == |e.queued| + |data| == e.msgLenTotal - e.msgLenSent < MAX_DLEN
    ensures var f := Fragment(e.msgSOM, FragmentCount(e.msgLenTotal), e.queued + data[..n - |e.queued|]);
            var rest := Emit(Launched(e, f), data[n - |e.queued|..]);
            Emit(e, data) == rest.(out := [DataSegment(e, e.nxt, f)] + rest.out)
  {
    hide Cut, Leftover, Payload;
    var bytes, left := e.queued + data, e.msgLenTotal - e.msgLenSent;
    var f := Fragment(e.msgSOM, FragmentCount(e.msgLenTotal), e.queued + data[..n - |e.queued|]);
    CutStep(bytes, left, e.msgSOM, FragmentCount(e.msgLenTotal), n);
    assert bytes[..n] == f.payload && bytes[n..] == data[n - |e.queued|..] == [] + data[n - |e.queued|..];
    var fs' := Cut(bytes[n..], left - n, e.msgSOM, FragmentCount(e.msgLenTotal));
    assert e.unacked + ([f] + fs') == (e.unacked + [f]) + fs';
  }

  /** A buffer that is neither full nor final stays packed. */
  lemma EmitPacks(e: Endpoint, data: seq<uint8>)
    requires e.msgLenSent + |e.queued| + |data| < e.msgLenTotal && |e.queued| + |data| < MAX_DLEN
    ensures Emit(e, data) == SendResult(Ok, e.(queued := e.queued + data), [])
  {
    assert e.unacked + [] == e.unacked;
  }

  lemma EmitNothing(e: Endpoint)
    requires e.queued == [] && e.msgLenSent <= e.msgLenTotal
    ensures Emit(e, []) == SendResult(Ok, e, [])
  {
    assert e.unacked + [] == e.unacked;
  }

  /** A conforming acknowledgement drops the acknowledged segments from the front. */
  lemma ReceiveKeepsSend(e: Endpoint, seg: Segment)
    requires e.ValidSend() && seg.lcs <= seg.ack < e.nxt <= seg.lcs + UDP_SEGMAX + 1
    ensures var e' := Receive(e, seg);
            && e'.ValidSend()
            && e.una <= e'.una && e'.unacked == e.unacked[e'.una - e.una..]
            && e'.nxt == e.nxt && e'.sndLcs == seg.lcs
            && (e'.una == e.una || e'.una == seg.ack + 1)
  {
  }

  predicate CarriesData(seg: Segment) {
    !seg.nul && seg.frag.payload != []
  }

  /** What a validated segment of a conforming peer satisfies; ArdpMachine asserts or relies on it. */
  predicate Conforms(e: Endpoint, seg: Segment) {
    && seg.lcs <= seg.ack < e.nxt <= seg.lcs + UDP_SEGMAX + 1
    && seg.ackNxt <= e.cur + 1
    && (CarriesData(seg) ==>
          && seg.num <= e.cur + 1
          && seg.frag.fcnt != 0
          && (seg.num == e.cur + 1 ==> |e.ready| < UDP_SEGMAX))
  }

  /** In-order data goes to the back of the receive queue; old data changes nothing. */
  lemma ReceiveKeepsReceive(e: Endpoint, seg: Segment)
    requires e.ValidReceive() && e.una + |e.unacked| == e.nxt
    requires CarriesData(seg) ==> seg.num <= e.cur + 1
    requires CarriesData(seg) && seg.num == e.cur + 1 ==> |e.ready| < UDP_SEGMAX
    ensures var e' := Receive(e, seg);
            && e'.ValidReceive()
            && e'.rcvLcs == e.rcvLcs && e'.readOff == e.readOff
            && (if CarriesData(seg) && seg.num == e.cur + 1
                then e'.cur == e.cur + 1 && e'.ready == e.ready + [seg.frag]
                else e'.cur == e.cur && e'.ready == e.ready)
  {
  }

  /** A read touches nothing but the receive queue, from its front. */
  lemma {:induction false} ReadFrame(e: Endpoint, n: nat)
    requires e.ValidReceive()
    ensures var r := Read(e, n).e;
            && r.ValidReceive()
            && r == e.(ready := r.ready, rcvLcs := r.rcvLcs, readOff := r.readOff)
            && e.rcvLcs <= r.rcvLcs <= e.cur
            && r.ready == e.ready[r.rcvLcs - e.rcvLcs..]
    decreases |e.ready|
  {
    if n != 0 && e.ready != [] {
      var p := e.ready[0].payload;
      if n >= |p| - e.readOff {
        ReadFrame(e.(ready := e.ready[1..], rcvLcs := e.rcvLcs + 1, readOff := 0), n - (|p| - e.readOff));
      }
    }
  }

  /** Stopping inside the first segment. */
  lemma UnreadWithin(e: Endpoint, n: nat)
    requires e.ValidReceive() && e.ready != [] && e.readOff + n < |e.ready[0].payload|
    ensures e.Unread() == e.ready[0].payload[e.readOff..e.readOff + n] + e.(readOff := e.readOff + n).Unread()
  {
  }

  /** Reading to the end of the first segment leaves the unread bytes of the others. */
  lemma UnreadBeyond(e: Endpoint, got: seq<uint8>, kept: seq<uint8>)
    requires e.ValidReceive() && e.ready != []
    requires Payload(e.ready[1..])[0..] == got + kept
    ensures e.Unread() == e.ready[0].payload[e.readOff..] + got + kept
  {
  }

  /** A read that empties the first segment goes on with the others. */
  lemma ReadBeyond(e: Endpoint, n: nat)
    requires e.ValidReceive() && e.ready != [] && n != 0 && |e.ready[0].payload| - e.readOff <= n
    ensures var e' := e.(ready := e.ready[1..], rcvLcs := e.rcvLcs + 1, readOff := 0);
            var rest := Read(e', n - (|e.ready[0].payload| - e.readOff));
            && e'.ValidReceive()
            && Read(e, n) == ReadResult(rest.e, e.ready[0].payload[e.readOff..] + rest.bytes)
  {
  }

  /** A read that stops inside the first segment only moves the offset. */
  lemma ReadWithin(e: Endpoint, n: nat)
    requires e.ValidReceive() && e.ready != [] && n < |e.ready[0].payload| - e.readOff
    ensures Read(e, n) == ReadResult(e.(readOff := e.readOff + n), e.ready[0].payload[e.readOff..e.readOff + n])
  {
  }

  lemma ReadNothing(e: Endpoint, n: nat)
    requires e.ValidReceive() && (n == 0 || e.ready == [])
    ensures Read(e, n) == ReadResult(e, [])
  {
  }

  /** A read hands out the next unread bytes and keeps the rest. */
  lemma {:induction false} ReadTakesPrefix(e: Endpoint, n: nat)
    requires e.ValidReceive()
    ensures Read(e, n).e.ValidReceive()
    ensures e.Unread() == Read(e, n).bytes + Read(e, n).e.Unread()
    decreases |e.ready|
  {
    ReadFrame(e, n);
    if n != 0 && e.ready != [] {
      var left := |e.ready[0].payload| - e.readOff;
      if n < left {
        UnreadWithin(e, n);
      } else {
        hide Read, Payload;
        var e' := e.(ready := e.ready[1..], rcvLcs := e.rcvLcs + 1, readOff := 0);
        ReadBeyond(e, n);
        ReadTakesPrefix(e', n - left);
        UnreadBeyond(e, Read(e', n - left).bytes, Read(e', n - left).e.Unread());
      }
    }
  }

  /** It hands out as many bytes as there is room for. */
  lemma {:induction false} ReadFills(e: Endpoint, n: nat)
    requires e.ValidReceive()
    ensures |Read(e, n).bytes| == if n < |e.Unread()| then n else |e.Unread()|
    decreases |e.ready|
  {
    if n != 0 && e.ready != [] {
      var p := e.ready[0].payload;
      if n >= |p| - e.readOff {
        ReadFills(e.(ready := e.ready[1..], rcvLcs := e.rcvLcs + 1, readOff := 0), n - (|p| - e.readOff));
      }
    }
  }
}
