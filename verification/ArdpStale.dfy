/**
 * An old acknowledgement moves the send window back: exactly when that lets the sender overrun
 * the receiver's ring, and a run of two hosts in which it does.
 */
module ArdpStale {
  import opened Bytes
  import opened Ardp
  import opened ArdpNetwork
  import opened ArdpProgress
  import ArdpEndpoint

  // ---------------------------------------------------------------- how far a send can reach

  /** The most buffers one call can put in flight: what the ring and the window arithmetic leave. */
  function Launchable(e: Endpoint): nat
    requires |e.unacked| <= UDP_SEGMAX
  {
    var pending := (e.nxt - e.sndLcs - 1) % 0x1_0000;
    if |e.unacked| < pending <= UDP_SEGMAX then UDP_SEGMAX - pending else UDP_SEGMAX - |e.unacked|
  }

  /** A distance of more than SEGMAX is no limit at all: the product wraps to a huge number. */
  lemma RoomExact(e: Endpoint, len: nat)
    requires |e.unacked| <= UDP_SEGMAX
    ensures HasRoom(e, len) <==> len + |e.queued| <= MAX_DLEN * Launchable(e)
  {
    var pending := (e.nxt - e.sndLcs - 1) % 0x1_0000;
    if pending > UDP_SEGMAX {
      HugeWindow(pending);
    }
  }

  lemma HugeWindow(pending: nat)
    requires UDP_SEGMAX < pending < 0x1_0000
    ensures (MAX_DLEN * ((UDP_SEGMAX - pending) % 0x1_0000_0000)) % 0x1_0000_0000 > MAX_DLEN * UDP_SEGMAX
  {
    assert (UDP_SEGMAX - pending) % 0x1_0000_0000 == 0x1_0000_0000 + UDP_SEGMAX - pending;
    assert MAX_DLEN * (0x1_0000_0000 + UDP_SEGMAX - pending)
        == 0x1_0000_0000 * (MAX_DLEN - 1) + (0x1_0000_0000 - MAX_DLEN * (pending - UDP_SEGMAX));
  }

  lemma LaunchesAtMost(e: Endpoint, data: seq<uint8>, msgLen: nat)
    requires |e.unacked| <= UDP_SEGMAX && FitsMessage(e, |data|, msgLen)
    ensures Send(e, data, msgLen).e.nxt <= e.nxt + Launchable(e)
  {
    hide HasRoom, Cut, Leftover;
    var o := OpenMessage(e, msgLen);
    RoomExact(o, |data|);
    if |e.unacked| < UDP_SEGMAX && HasRoom(o, |data|) {
      CutFits(o.queued + data, o.msgLenTotal - o.msgLenSent, o.msgSOM, FragmentCount(o.msgLenTotal), Launchable(e));
    }
  }

  lemma LaunchesAll(e: Endpoint, data: seq<uint8>)
    requires |e.unacked| < UDP_SEGMAX && e.newMsg && e.queued == [] && e.msgLenSent == 0
    requires |data| == MAX_DLEN * Launchable(e) > 0
    ensures FitsMessage(e, |data|, |data|)
    ensures Send(e, data, |data|).e.nxt == e.nxt + Launchable(e)
  {
    hide HasRoom, Cut, Leftover;
    var o := OpenMessage(e, |data|);
    RoomExact(o, |data|);
    CutShape(o.queued + data, |data|, o.msgSOM, FragmentCount(|data|));
  }

  /** Some message sends a segment that the receiver's ring cannot hold until more has been read. */
  ghost predicate CanOverrun(e: Endpoint, r: Endpoint) {
    exists data, msgLen ::
      FitsMessage(e, |data|, msgLen) && r.rcvLcs + UDP_SEGMAX + 1 < Send(e, data, msgLen).e.nxt
  }

  lemma CanOverrunExact(e: Endpoint, r: Endpoint)
    requires |e.unacked| <= UDP_SEGMAX && e.newMsg && e.queued == [] && e.msgLenSent == 0
    requires e.nxt <= r.rcvLcs + UDP_SEGMAX + 1
    ensures CanOverrun(e, r) <==> r.rcvLcs + UDP_SEGMAX + 1 < e.nxt + Launchable(e)
  {
    hide Send, Launchable;
    if CanOverrun(e, r) {
      var data, msgLen :| FitsMessage(e, |data|, msgLen) && r.rcvLcs + UDP_SEGMAX + 1 < Send(e, data, msgLen).e.nxt;
      LaunchesAtMost(e, data, msgLen);
    }
    if Launchable(e) > 0 {
      assert |e.unacked| < UDP_SEGMAX by { FullRing(e); }
      var data := seq(MAX_DLEN * Launchable(e), _ => 0);
      LaunchesAll(e, data);
    }
  }

  lemma FullRing(e: Endpoint)
    requires |e.unacked| <= UDP_SEGMAX && Launchable(e) > 0
    ensures |e.unacked| < UDP_SEGMAX
  {
  }

  /** An arriving LCS keeps the send window sound iff it is at most SEGMAX behind the last segment sent. */
  lemma SoundExact(h: Host, p: Host, seg: Segment)
    requires Around(h, p) && seg in p.emitted
    ensures h.ep.una + |h.ep.unacked| == h.ep.nxt && |Receive(h.ep, seg).unacked| <= UDP_SEGMAX
    ensures h.ep.nxt <= seg.lcs + UDP_SEGMAX + 1 <==> Receive(h.ep, seg).ValidSend()
  {
    hide LogMatches, MessagesMatch, Stream;
    assert SegmentOf(seg, p);
    if h.ep.nxt <= seg.lcs + UDP_SEGMAX + 1 {
      ReceiveKeepsSend(h.ep, seg);
    }
  }

  /**
   * After any segment of the peer, however late, the send window is sound iff its LCS is at most
   * SEGMAX behind the last segment sent; and the next message can overrun the peer's ring exactly
   * if it is further behind and the peer has acknowledged segments that it has not consumed.
   */
  lemma StaleLcsExact(h: Host, p: Host, seg: Segment)
    requires Around(h, p) && seg in p.emitted
    ensures h.ep.una + |h.ep.unacked| == h.ep.nxt && |Receive(h.ep, seg).unacked| <= UDP_SEGMAX
    ensures h.ep.nxt <= seg.lcs + UDP_SEGMAX + 1 <==> Receive(h.ep, seg).ValidSend()
    ensures h.ep.newMsg ==>
              var e := Receive(h.ep, seg);
              && (CanOverrun(e, p.ep) <==> p.ep.rcvLcs + UDP_SEGMAX + 1 < e.nxt + Launchable(e))
              && (h.ep.nxt <= seg.lcs + 0x1_0000 ==>
                    (CanOverrun(e, p.ep) <==> seg.lcs + UDP_SEGMAX + 1 < h.ep.nxt && p.ep.rcvLcs + 1 < e.una))
  {
    hide CanOverrun, Around, Receive, Launchable, Endpoint.ValidSend;
    SoundExact(h, p, seg);
    AfterStale(h, p, seg);
    var e := Receive(h.ep, seg);
    if h.ep.newMsg {
      CanOverrunExact(e, p.ep);
      if h.ep.nxt <= seg.lcs + 0x1_0000 {
        BeyondExact(e, p.ep.rcvLcs);
      }
    }
  }

  /** Any segment of the peer leaves the sender with an LCS no newer than the peer's, whatever it drops. */
  lemma AfterStale(h: Host, p: Host, seg: Segment)
    requires Around(h, p) && seg in p.emitted && h.ep.una + |h.ep.unacked| == h.ep.nxt
    ensures var e := Receive(h.ep, seg);
            && e.una + |e.unacked| == e.nxt == h.ep.nxt && |e.unacked| <= UDP_SEGMAX
            && e.sndLcs == seg.lcs <= p.ep.rcvLcs && seg.lcs < h.ep.nxt <= p.ep.rcvLcs + UDP_SEGMAX + 1
            && e.newMsg == h.ep.newMsg && e.queued == h.ep.queued && e.msgLenSent == h.ep.msgLenSent
            && (h.ep.newMsg ==> h.ep.queued == [] && h.ep.msgLenSent == 0)
  {
    hide LogMatches, MessagesMatch, Stream;
    assert SegmentOf(seg, p);
  }

  lemma BeyondExact(e: Endpoint, rcvLcs: nat)
    requires e.una + |e.unacked| == e.nxt && |e.unacked| <= UDP_SEGMAX && e.sndLcs <= rcvLcs
    requires e.sndLcs < e.nxt <= e.sndLcs + 0x1_0000 && e.nxt <= rcvLcs + UDP_SEGMAX + 1
    ensures rcvLcs + UDP_SEGMAX + 1 < e.nxt + Launchable(e) <==>
              e.sndLcs + UDP_SEGMAX + 1 < e.nxt && rcvLcs + 1 < e.una
  {
  }

  // ---------------------------------------------------------------- runs that lose only that condition

  /** As in `ArdpNetwork`, but a segment may bring any LCS that its sender ever had. */
  ghost predicate LooselyEnabled(h: Host, peer: Host, act: Action) {
    match act
    case Deliver(seg) => seg in peer.emitted && (seg.frag.payload != [] ==> seg.num <= h.ep.cur + 1)
    case _ => Enabled(h, peer, act)
  }

  ghost predicate LooseNext(n: Network, n': Network) {
    exists act ::
      || (Coherent(n.a.ep) && LooselyEnabled(n.a, n.b, act) && n' == n.(a := Do(n.a, n.b, act)))
      || (Coherent(n.b.ep) && LooselyEnabled(n.b, n.a, act) && n' == n.(b := Do(n.b, n.a, act)))
  }

  ghost predicate LooseRun(states: seq<Network>) {
    && states != []
    && Init(states[0])
    && forall i :: 0 <= i < |states| - 1 ==> LooseNext(states[i], states[i + 1])
  }

  ghost predicate Reached(n: Network) {
    exists states :: Run(states) && states[|states| - 1] == n
  }

  ghost predicate LooselyReached(n: Network) {
    exists states :: LooseRun(states) && states[|states| - 1] == n
  }

  lemma ReachedKeeps(n: Network)
    requires Reached(n)
    ensures Inv(n)
  {
    hide Next, Init, Inv;
    var states :| Run(states) && states[|states| - 1] == n;
    RunKeeps(states);
  }

  lemma ReachedNext(n: Network, n': Network)
    requires Reached(n) && Next(n, n')
    ensures Reached(n')
  {
    hide Next, Init;
    var states :| Run(states) && states[|states| - 1] == n;
    assert Run(states + [n']);
  }

  lemma LooselyReachedNext(n: Network, n': Network)
    requires LooselyReached(n) && LooseNext(n, n')
    ensures LooselyReached(n')
  {
    hide LooseNext, Init;
    var states :| LooseRun(states) && states[|states| - 1] == n;
    assert LooseRun(states + [n']);
  }

  lemma NextIsLoose(n: Network, n': Network)
    requires Next(n, n')
    ensures LooseNext(n, n')
  {
    hide Do;
    var act :| StepA(n, n', act) || StepB(n, n', act);
  }

  lemma ReachedIsLoose(n: Network)
    requires Reached(n)
    ensures LooselyReached(n)
  {
    hide Next, LooseNext, Init;
    var states :| Run(states) && states[|states| - 1] == n;
    forall i | 0 <= i < |states| - 1 ensures LooseNext(states[i], states[i + 1]) {
      NextIsLoose(states[i], states[i + 1]);
    }
    assert LooseRun(states);
  }

  // ---------------------------------------------------------------- a run that overruns the ring

  /** An acknowledgement sent before anything else, and delivered last. */
  const LATE := Segment(false, 1, 0, 0, 1, NO_DATA)

  const BUFFERS: nat := 7

  /** Where the run stands: host a in the middle of a message of seven full segments, host b only acknowledging. */
  ghost predicate Stands(n: Network, nxt: nat, una: nat, sndLcs: nat, cur: nat, rcvLcs: nat) {
    && n.a.iss == 0 && n.b.iss == 0 && LATE in n.b.emitted && 0 < nxt
    && n.a.ep == Endpoint(nxt, una, sndLcs, n.a.ep.unacked, [], false, MAX_DLEN * BUFFERS, MAX_DLEN * (nxt - 1), 1, 0, 0, [], 0)
    && n.b.ep.nxt == 1 && n.b.ep.cur == cur && n.b.ep.rcvLcs == rcvLcs && n.b.ep.readOff == 0
  }

  lemma StandsFacts(n: Network, nxt: nat, una: nat, sndLcs: nat, cur: nat, rcvLcs: nat)
    requires Reached(n) && Stands(n, nxt, una, sndLcs, cur, rcvLcs)
    ensures Around(n.a, n.b) && Around(n.b, n.a)
    ensures n.a.ep.Valid() && n.b.ep.Valid() && |n.a.ep.unacked| == nxt - una && |n.b.ep.ready| == cur - rcvLcs
  {
    hide LogMatches, MessagesMatch, Emitted, Flow;
    ReachedKeeps(n);
    AroundEither(n.a, n.b);
    AroundEither(n.b, n.a);
  }

  /** Handing over k full buffers while nothing else is queued. */
  lemma FullSend(e: Endpoint, data: seq<uint8>, k: nat)
    requires !e.newMsg && e.queued == [] && |data| == MAX_DLEN * k && 0 < k <= UDP_SEGMAX
    requires |e.unacked| + k <= UDP_SEGMAX && HasRoom(e, |data|)
    requires e.msgLenSent + |data| <= e.msgLenTotal < 0x1_0000
    ensures FitsMessage(e, |data|, 0)
    ensures var r := Send(e, data, 0);
            && r.status == Ok && |r.e.unacked| == |e.unacked| + k && |r.out| == k
            && r.e == e.(nxt := e.nxt + k, unacked := r.e.unacked, msgLenSent := e.msgLenSent + |data|)
            && (forall i :: 0 <= i < |e.unacked| ==> r.e.unacked[i] == e.unacked[i])
            && (forall i :: 0 <= i < k ==>
                  && r.out[i] == DataSegment(e, e.nxt + i, r.e.unacked[|e.unacked| + i])
                  && r.out[i].frag.payload != [] && r.out[i].frag.som == e.msgSOM
                  && r.out[i].frag.fcnt == FragmentCount(e.msgLenTotal))
  {
    hide HasRoom, Cut, Leftover, Payload;
    var left := e.msgLenTotal - e.msgLenSent;
    CutShape(e.queued + data, left, e.msgSOM, FragmentCount(e.msgLenTotal));
    CutFits(e.queued + data, left, e.msgSOM, FragmentCount(e.msgLenTotal), k);
    CutConserves(e.queued + data, left, e.msgSOM, FragmentCount(e.msgLenTotal));
  }

  /** With nothing in flight a sends k full buffers, and has then emitted everything that is in flight. */
  lemma Sends(n: Network, data: seq<uint8>, k: nat, nxt: nat, sndLcs: nat, cur: nat, rcvLcs: nat) returns (n': Network)
    requires Reached(n) && Stands(n, nxt, nxt, sndLcs, cur, rcvLcs)
    requires |data| == MAX_DLEN * k && 0 < k && nxt + k <= sndLcs + UDP_SEGMAX + 1 && nxt + k <= BUFFERS + 1
    ensures Reached(n') && Stands(n', nxt + k, nxt, sndLcs, cur, rcvLcs) && Resent(n'.a)
  {
    hide Init, Inv, Send, Around, HasRoom, WindowBytes, Endpoint.Valid, Endpoint.ValidSend;
    StandsFacts(n, nxt, nxt, sndLcs, cur, rcvLcs);
    SendsRoom(n.a.ep, |data|, k);
    FullSend(n.a.ep, data, k);
    var act := Submit(data, 0);
    n' := n.(a := Do(n.a, n.b, act));
    assert StepA(n, n', act);
    ReachedNext(n, n');
    forall i | 0 <= i < |n'.a.ep.unacked| ensures Retransmission(n'.a.ep)[i] in n'.a.emitted {
      assert Send(n.a.ep, data, 0).out[i] == Retransmission(n'.a.ep)[i];
    }
  }

  lemma SendsRoom(e: Endpoint, len: nat, k: nat)
    requires e.Valid() && e.unacked == [] && e.queued == [] && len == MAX_DLEN * k && e.nxt + k <= e.sndLcs + UDP_SEGMAX + 1
    ensures HasRoom(e, len)
  {
    WindowExact(e.nxt, e.sndLcs);
  }

  lemma {:induction false} RepairsTo(n: Network, k: nat)
    requires Reached(n) && Resent(n.a) && k <= |n.a.ep.unacked|
    ensures var b' := Repaired(n.b, n.a, k);
            && Reached(n.(b := b')) && n.b.emitted <= b'.emitted && b'.iss == n.b.iss
            && b'.ep.nxt == n.b.ep.nxt && b'.ep.rcvLcs == n.b.ep.rcvLcs && b'.ep.readOff == n.b.ep.readOff
    decreases k
  {
    hide Next, Run, Inv, Around, Resent, Receive, Do, DataSegment, Reached;
    if k > 0 {
      RepairsTo(n, k - 1);
      var before, act := Repaired(n.b, n.a, k - 1), Deliver(Retransmission(n.a.ep)[k - 1]);
      ReachedKeeps(n);
      AroundEither(n.a, n.b);
      AroundEither(n.b, n.a);
      PassRepairs(n.b, n.a, k - 1);
      AroundWindow(n.b, n.a);
      AroundWindow(before, n.a);
      OneRepairs(before, n.a, k - 1);
      RepairFrame(before, n.a, act.seg);
      NextB(n.(b := before), n.(b := Do(before, n.a, act)), act);
      ReachedNext(n.(b := before), n.(b := Do(before, n.a, act)));
    }
  }

  lemma RepairFrame(h: Host, p: Host, seg: Segment)
    requires Coherent(h.ep)
    ensures var h' := Do(h, p, Deliver(seg));
            && h.emitted <= h'.emitted && h'.iss == h.iss
            && h'.ep.nxt == h.ep.nxt && h'.ep.rcvLcs == h.ep.rcvLcs && h'.ep.readOff == h.ep.readOff
  {
  }

  /** All that is in flight arrives at b. */
  lemma Arrives(n: Network, nxt: nat, una: nat, sndLcs: nat, cur: nat, rcvLcs: nat) returns (n': Network)
    requires Reached(n) && Stands(n, nxt, una, sndLcs, cur, rcvLcs) && Resent(n.a)
    ensures Reached(n') && Stands(n', nxt, una, sndLcs, nxt - 1, rcvLcs)
  {
    hide Init, Inv, Around, Resent, Repaired, Endpoint.Valid;
    StandsFacts(n, nxt, una, sndLcs, cur, rcvLcs);
    RepairsTo(n, |n.a.ep.unacked|);
    PassRepairs(n.b, n.a, |n.a.ep.unacked|);
    n' := n.(b := Repaired(n.b, n.a, |n.a.ep.unacked|));
  }

  /** b's reader takes one whole segment. */
  lemma ReadsOne(n: Network, nxt: nat, una: nat, sndLcs: nat, cur: nat, rcvLcs: nat) returns (n': Network)
    requires Reached(n) && Stands(n, nxt, una, sndLcs, cur, rcvLcs) && rcvLcs < cur
    ensures Reached(n') && Stands(n', nxt, una, sndLcs, cur, rcvLcs + 1)
  {
    hide Init, Inv, Around, Read;
    StandsFacts(n, nxt, una, sndLcs, cur, rcvLcs);
    var e := n.b.ep;
    var room := |e.ready[0].payload|;
    ReadBeyond(e, room);
    ReadNothing(e.(ready := e.ready[1..], rcvLcs := e.rcvLcs + 1, readOff := 0), 0);
    var act := Copy(room);
    n' := n.(b := Do(n.b, n.a, act));
    assert StepB(n, n', act);
    ReachedNext(n, n');
  }

  /** b sends an acknowledgement, and it arrives. */
  lemma Acknowledges(n: Network, nxt: nat, una: nat, sndLcs: nat, cur: nat, rcvLcs: nat) returns (n': Network)
    requires Reached(n) && Stands(n, nxt, una, sndLcs, cur, rcvLcs)
    ensures Reached(n') && Stands(n', nxt, cur + 1, rcvLcs, cur, rcvLcs)
  {
    hide Init, Inv, Around, Receive;
    StandsFacts(n, nxt, una, sndLcs, cur, rcvLcs);
    var n1 := n.(b := Do(n.b, n.a, Probe(false)));
    assert StepB(n, n1, Probe(false));
    ReachedNext(n, n1);
    StandsFacts(n1, nxt, una, sndLcs, cur, rcvLcs);
    AcknowledgementTells(n1.a, n1.b);
    var seg := Header(n1.b.ep, false);
    HeaderFrame(n1.a.ep, seg);
    var act := Deliver(seg);
    n' := n1.(a := Do(n1.a, n1.b, act));
    assert StepA(n1, n', act);
    ReachedNext(n1, n');
  }

  lemma HeaderFrame(e: Endpoint, seg: Segment)
    requires e.una + |e.unacked| == e.nxt && seg.frag.payload == []
    ensures var e' := Receive(e, seg);
            && e' == e.(una := e'.una, unacked := e'.unacked, sndLcs := seg.lcs)
            && (seg.ack < e.una ==> e' == e.(sndLcs := seg.lcs))
  {
  }

  const FRESH: Network := Network(FRESH_HOST, FRESH_HOST)

  const FRESH_HOST: Host :=
    Host(Endpoint(1, 1, 0, [], [], true, 0, 0, 0, 0, 0, [], 0), 0, 0, [], [], [], [], {})

  lemma FreshReached()
    ensures Reached(FRESH)
  {
    assert Init(FRESH);
    assert Run([FRESH]);
  }

  /** b sends the acknowledgement that will come late, and a fills its ring with the start of a message. */
  lemma Begins(data: seq<uint8>) returns (n: Network)
    requires |data| == MAX_DLEN * UDP_SEGMAX
    ensures Reached(n) && Stands(n, UDP_SEGMAX + 1, 1, 0, 0, 0) && Resent(n.a)
  {
    hide Next, Init, Inv, Send, Around, HasRoom, WindowBytes;
    FreshReached();
    var n1 := FRESH.(b := Do(FRESH.b, FRESH.a, Probe(false)));
    assert StepB(FRESH, n1, Probe(false));
    NextB(FRESH, n1, Probe(false));
    ReachedNext(FRESH, n1);
    var act := Submit(data, MAX_DLEN * BUFFERS);
    var o := OpenMessage(n1.a.ep, MAX_DLEN * BUFFERS);
    SendsRoom(o, |data|, UDP_SEGMAX);
    FullSend(o, data, UDP_SEGMAX);
    OpensFirst(n1.a.ep, data, MAX_DLEN * BUFFERS);
    n := n1.(a := Do(n1.a, n1.b, act));
    NextA(n1, n, act);
    ReachedNext(n1, n);
    forall i | 0 <= i < |n.a.ep.unacked| ensures Retransmission(n.a.ep)[i] in n.a.emitted {
      assert Send(o, data, 0).out[i] == Retransmission(n.a.ep)[i];
    }
  }

  lemma NextA(n: Network, n': Network, act: Action)
    requires StepA(n, n', act)
    ensures Next(n, n')
  {
  }

  lemma NextB(n: Network, n': Network, act: Action)
    requires StepB(n, n', act)
    ensures Next(n, n')
  {
  }

  lemma OpensFirst(e: Endpoint, data: seq<uint8>, msgLen: nat)
    requires e.newMsg && |e.unacked| < UDP_SEGMAX && FitsMessage(e, |data|, msgLen)
    requires FitsMessage(OpenMessage(e, msgLen), |data|, 0)
    ensures Send(e, data, msgLen) == Send(OpenMessage(e, msgLen), data, 0)
  {
  }

  /**
   * Two hosts on a network that respects all but the condition on LCS: the late acknowledgement
   * opens a's window beyond b's ring, and b is handed its next segment, which passes all checks,
   * while every slot is taken, so that the assertion of AddRcvBuffer fails.
   */
  lemma StaleLcsOverruns(message: seq<uint8>)
    requires |message| == MAX_DLEN * BUFFERS
    ensures exists n, seg ::
              && LooselyReached(n) && seg in n.a.emitted && Validates(n.b.ep, seg) && CarriesData(seg)
              && seg.num == n.b.ep.cur + 1 && |n.b.ep.ready| == UDP_SEGMAX
              && SlotTaken(n.b.ep, seg.num)
  {
    hide Stands, Reached, LooselyReached, Resent, Validates;
    var n := Begins(message[..MAX_DLEN * 5]);
    n := Arrives(n, 6, 1, 0, 0, 0);
    n := ReadsOne(n, 6, 1, 0, 5, 0);
    n := Acknowledges(n, 6, 1, 0, 5, 1);
    n := Sends(n, message[MAX_DLEN * 5..MAX_DLEN * 6], 1, 6, 1, 5, 1);
    n := Arrives(n, 7, 6, 1, 5, 1);
    var n', seg := Overruns(n, message[MAX_DLEN * 6..]);
    AllSlotsTaken(n'.b.ep);
    assert LooselyReached(n') && seg in n'.a.emitted;
  }

  /** In the ring that holds what is ready, the slot of segment s is in use. */
  ghost predicate SlotTaken(r: Endpoint, s: nat) {
    forall ring: seq<ArdpEndpoint.ReceiveBuffer> ::
      ArdpEndpoint.ReceiveRing(ring, r.rcvLcs + 1, r.ready) ==>
        |ring| == UDP_SEGMAX && ring[ArdpEndpoint.Slot(s)].fcnt != 0
  }

  lemma AllSlotsTaken(r: Endpoint)
    requires r.ValidReceive() && |r.ready| == UDP_SEGMAX
    ensures SlotTaken(r, r.cur + 1)
  {
    hide ArdpEndpoint.ReceiveRing, ArdpEndpoint.Slot;
    forall ring: seq<ArdpEndpoint.ReceiveBuffer> | ArdpEndpoint.ReceiveRing(ring, r.rcvLcs + 1, r.ready)
      ensures |ring| == UDP_SEGMAX && ring[ArdpEndpoint.Slot(r.cur + 1)].fcnt != 0
    {
      ArdpEndpoint.ReceiveRingSize(ring, r.rcvLcs + 1, r.ready);
      ArdpEndpoint.SlotFreeExact(ring, r.rcvLcs + 1, r.ready);
    }
  }

  lemma Overruns(n: Network, data: seq<uint8>) returns (n': Network, seg: Segment)
    requires Reached(n) && Stands(n, 7, 6, 1, 6, 1) && |data| == MAX_DLEN
    ensures LooselyReached(n') && seg in n'.a.emitted && Validates(n'.b.ep, seg) && CarriesData(seg)
    ensures seg.num == n'.b.ep.cur + 1 && |n'.b.ep.ready| == UDP_SEGMAX && Coherent(n'.b.ep)
  {
    hide Run, LooseRun, Reached, LooselyReached, Inv, Around, Send, HasRoom, WindowBytes, Receive;
    StandsFacts(n, 7, 6, 1, 6, 1);
    ReachedIsLoose(n);
    HeaderFrame(n.a.ep, LATE);
    var n1 := n.(a := Do(n.a, n.b, Deliver(LATE)));
    assert LooselyEnabled(n.a, n.b, Deliver(LATE));
    LooseNextA(n, n1, Deliver(LATE));
    LooselyReachedNext(n, n1);
    RoomExact(n1.a.ep, |data|);
    FullSend(n1.a.ep, data, 1);
    seg := Send(n1.a.ep, data, 0).out[0];
    n' := n1.(a := Do(n1.a, n1.b, Submit(data, 0)));
    LooseNextA(n1, n', Submit(data, 0));
    LooselyReachedNext(n1, n');
  }

  lemma LooseNextA(n: Network, n': Network, act: Action)
    requires Coherent(n.a.ep) && LooselyEnabled(n.a, n.b, act) && n' == n.(a := Do(n.a, n.b, act))
    ensures LooseNext(n, n')
  {
  }

  // ---------------------------------------------------------------- an acknowledgement of NXT itself

  /**
   * The range test admits it, and the next segment is then out of reach: no acknowledgement of
   * it or of an earlier one passes the test any more, and the data timer watches another slot.
   */
  lemma AcknowledgingNxtStrands(e: Endpoint, seg: Segment, f: Fragment, ack: nat)
    requires e.ValidSend() && seg.ack == e.nxt
    ensures var next := Launched(Acknowledge(e, seg), f);
            && next.nxt == e.nxt + 1 && next.unacked == [f]
            && (ack <= e.nxt ==> !(next.una <= ack <= next.nxt))
            && ArdpEndpoint.Slot(next.una) != ArdpEndpoint.Slot(e.nxt)
  {
    var e' := Acknowledge(e, seg);
    assert e'.unacked == [] && e'.una == e.nxt + 1;
  }
}
