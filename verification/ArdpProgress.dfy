/**
 * What brings two ARDP endpoints back in step, whatever the network did before: one
 * delivered pass of the data timer and one delivered acknowledgement.
 */
module ArdpProgress {
  import opened Bytes
  import opened Ardp
  import opened ArdpNetwork
  import ArdpFifo

  /** h after the first k segments of a pass of p's data timer have arrived, in order. */
  ghost function Repaired(h: Host, p: Host, k: nat): Host
    requires k <= |p.ep.unacked|
  {
    if k == 0 then h
    else
      var before := Repaired(h, p, k - 1);
      if before.ep.Valid() then Do(before, p, Deliver(Retransmission(p.ep)[k - 1])) else before
  }

  ghost predicate Resent(p: Host) {
    forall i :: 0 <= i < |p.ep.unacked| ==> Retransmission(p.ep)[i] in p.emitted
  }

  function Later(a: nat, b: nat): nat {
    if a < b then b else a
  }

  /** Segment k of the pass is timely, and leaves the receiver at it or beyond. */
  lemma OneRepairs(h: Host, p: Host, k: nat)
    requires Around(h, p) && Resent(p) && k < |p.ep.unacked| && p.ep.una + k <= h.ep.cur + 1
    ensures var seg := Retransmission(p.ep)[k];
            Enabled(h, p, Deliver(seg)) && Do(h, p, Deliver(seg)).ep.cur == Later(h.ep.cur, p.ep.una + k)
  {
    hide LogMatches, MessagesMatch, Emitted, Stream, Receive;
    var seg := Retransmission(p.ep)[k];
    assert Timely(h, seg);
    DeliverFacts(h, p, seg);
    ReceiveKeepsReceive(h.ep, seg);
    assert CarriesData(seg);
  }

  /** However much was lost before, a full pass of the data timer brings the receiver up to the last segment sent. */
  lemma {:induction false} PassRepairs(h: Host, p: Host, k: nat)
    requires Around(h, p) && Resent(p) && k <= |p.ep.unacked|
    ensures Around(Repaired(h, p, k), p)
    ensures Repaired(h, p, k).ep.cur == if k == 0 then h.ep.cur else Later(h.ep.cur, p.ep.una + k - 1)
    ensures k == |p.ep.unacked| ==> Repaired(h, p, k).ep.cur + 1 == p.ep.nxt
    decreases k
  {
    hide HostInv, Emitted, Flow, Do, Resent;
    AroundWindow(h, p);
    if k > 0 {
      PassRepairs(h, p, k - 1);
      var before := Repaired(h, p, k - 1);
      OneRepairs(before, p, k - 1);
      AroundWindow(before, p);
      ActionKeeps(before, p, Deliver(Retransmission(p.ep)[k - 1]));
    }
  }

  lemma AroundWindow(h: Host, p: Host)
    requires Around(h, p)
    ensures h.ep.Valid() && Window(p.ep, h.ep) && p.ep.una + |p.ep.unacked| == p.ep.nxt
  {
    hide LogMatches, MessagesMatch, Emitted, Stream;
  }

  /** After such a pass everything that was sent has been read or can be. */
  lemma PassDelivers(h: Host, p: Host)
    requires Around(h, p) && Resent(p)
    ensures var r := Repaired(h, p, |p.ep.unacked|);
            r.ep.ValidReceive() && r.taken + r.ep.Unread() + p.ep.queued == p.Given()
  {
    hide Repaired, LogMatches, MessagesMatch, Emitted, Resent;
    PassRepairs(h, p, |p.ep.unacked|);
    var r := Repaired(h, p, |p.ep.unacked|);
    LogHoldsGiven(p);
    AllReceived(r, p);
  }

  lemma AllReceived(r: Host, p: Host)
    requires Around(r, p) && r.ep.cur + 1 == p.ep.nxt
    ensures r.ep.ValidReceive() && r.taken + r.ep.Unread() == Payload(p.log)
  {
    hide MessagesMatch, Emitted, AllSound, Payload;
    assert p.log[..r.ep.cur - p.iss] == p.log;
  }

  lemma DropDrops(log: seq<Fragment>, i: nat, j: nat)
    requires i <= j <= |log|
    ensures log[i..][j - i..] == log[j..]
  {
  }

  /** A segment that acknowledges all that `peer` has received and consumed. */
  predicate Tells(seg: Segment, peer: Endpoint) {
    seg.ack == peer.cur && seg.lcs == peer.rcvLcs
  }

  lemma AcknowledgedTo(e: Endpoint, peer: Endpoint, seg: Segment, log: seq<Fragment>, iss: nat)
    requires e.ValidSend() && Window(e, peer) && iss <= peer.cur < iss + 1 + |log| == e.nxt
    requires iss < e.una && e.unacked == log[e.una - iss - 1..] && Tells(seg, peer)
    ensures var r := Receive(e, seg);
            r.una == peer.cur + 1 && r.sndLcs == peer.rcvLcs && r.nxt == e.nxt && r.unacked == log[peer.cur - iss..]
  {
    hide Endpoint.ValidSend;
    var r := Receive(e, seg);
    assert e.una + |e.unacked| == e.nxt;
    if e.una <= peer.cur {
      DropDrops(log, e.una - iss - 1, peer.cur - iss);
      assert r.unacked == e.unacked[peer.cur + 1 - e.una..];
    } else {
      assert r.unacked == e.unacked;
    }
  }

  lemma AroundLog(h: Host, p: Host)
    requires Around(h, p)
    ensures h.ep.ValidSend() && Window(h.ep, p.ep) && h.iss <= p.ep.rcvLcs <= p.ep.cur < h.iss + 1 + |h.log| == h.ep.nxt
    ensures h.iss < h.ep.una <= h.ep.nxt && h.ep.unacked == h.log[h.ep.una - h.iss - 1..]
    ensures h.ep.nxt <= p.ep.rcvLcs + UDP_SEGMAX + 1
  {
    hide MessagesMatch, Emitted, AllSound, Payload;
  }

  /** An acknowledgement sent now tells the other side exactly what has been received and what has been consumed. */
  lemma AcknowledgementTells(h: Host, p: Host)
    requires Around(h, p)
    ensures Timely(h, Header(p.ep, false))
    ensures h.ep.una + |h.ep.unacked| == h.ep.nxt && h.iss <= p.ep.rcvLcs <= p.ep.cur <= h.iss + |h.log|
    ensures var e := Receive(h.ep, Header(p.ep, false));
            && e.una == p.ep.cur + 1 && e.sndLcs == p.ep.rcvLcs && e.nxt == h.ep.nxt
            && e.unacked == h.log[p.ep.cur - h.iss..]
  {
    hide Around, Receive, Endpoint.ValidSend;
    AroundLog(h, p);
    AcknowledgedTo(h.ep, p.ep, Header(p.ep, false), h.log, h.iss);
  }

  /** And it opens the send window to all but the segments that have not been consumed. */
  lemma AcknowledgementOpensWindow(h: Host, p: Host)
    requires Around(h, p)
    ensures h.ep.una + |h.ep.unacked| == h.ep.nxt && h.iss <= p.ep.rcvLcs <= h.iss + |h.log|
    ensures var e := Receive(h.ep, Header(p.ep, false));
            e.sndLcs < e.nxt && WindowBytes(e.nxt, e.sndLcs) == MAX_DLEN * (UDP_SEGMAX - |h.log[p.ep.rcvLcs - h.iss..]|)
  {
    hide Around, Receive, WindowBytes, Endpoint.ValidSend;
    AroundLog(h, p);
    AcknowledgementTells(h, p);
    WindowExact(h.ep.nxt, p.ep.rcvLcs);
  }

  // ---------------------------------------------------------------- whatever is sent tells it

  /** What a side puts on the wire now carries its own numbers as they are now. */
  predicate Current(seg: Segment, e: Endpoint) {
    && Tells(seg, e) && seg.ackNxt == e.una
    && (seg.frag.payload == [] ==> seg.num == e.nxt)
  }

  lemma EmitsCurrent(h: Host, p: Host, act: Action, seg: Segment)
    requires HostInv(h) && Enabled(h, p, act) && seg in ArdpFifo.Out(h, act)
    ensures Current(seg, Do(h, p, act).ep)
  {
    hide LogMatches, MessagesMatch, Send, Receive;
    match act
    case Submit(data, msgLen) => SubmitsCurrent(h.ep, data, msgLen, seg);
    case Resend =>
      ResendsData(h.ep);
    case _ =>
  }

  lemma ResendsData(e: Endpoint)
    requires e.ValidSend()
    ensures forall i :: 0 <= i < |Retransmission(e)| ==> Retransmission(e)[i].frag.payload != []
  {
  }

  lemma SubmitsCurrent(e: Endpoint, data: seq<uint8>, msgLen: nat, seg: Segment)
    requires FitsMessage(e, |data|, msgLen) && seg in Send(e, data, msgLen).out
    ensures Current(seg, Send(e, data, msgLen).e)
  {
    hide Cut, Leftover, Payload, HasRoom;
    var o := OpenMessage(e, msgLen);
    CutShape(o.queued + data, o.msgLenTotal - o.msgLenSent, o.msgSOM, FragmentCount(o.msgLenTotal));
  }

  /**
   * Every segment that h puts on the wire, first sent, sent again, probe or answer, leaves its peer
   * with exactly what h has not received in flight, and with h's LCS.
   */
  lemma EmissionTells(h: Host, p: Host, act: Action, seg: Segment)
    requires Around(h, p) && Enabled(h, p, act) && seg in ArdpFifo.Out(h, act)
    ensures p.ep.una + |p.ep.unacked| == p.ep.nxt
    ensures var h' := Do(h, p, act).ep;
            && p.iss <= h'.cur <= p.iss + |p.log|
            && seg.ackNxt == h'.una && (seg.frag.payload == [] ==> seg.num == h'.nxt)
            && var e := Receive(p.ep, seg);
               && e.una == h'.cur + 1 && e.sndLcs == h'.rcvLcs && e.nxt == p.ep.nxt
               && e.unacked == p.log[h'.cur - p.iss..]
  {
    hide Around, HostInv, Do, ArdpFifo.Out, Receive, Endpoint.ValidSend;
    AroundHost(h, p);
    var h' := Do(h, p, act);
    ActionKeeps(h, p, act);
    EmitsCurrent(h, p, act, seg);
    AroundMirrors(h', p);
    AroundLog(p, h');
    AcknowledgedTo(p.ep, h'.ep, seg, p.log, p.iss);
  }

  lemma AroundHost(h: Host, p: Host)
    requires Around(h, p)
    ensures HostInv(h) && h.ep.Valid() && Coherent(h.ep)
  {
  }

  lemma AroundMirrors(h: Host, p: Host)
    requires Around(h, p)
    ensures Around(p, h)
  {
    hide HostInv, Emitted, Flow;
  }

  /** So it is in every state of every run, for both sides. */
  lemma RunTells(states: seq<Network>, act: Action, seg: Segment)
    requires Run(states)
    requires var n := states[|states| - 1]; n.a.ep.Valid() && Enabled(n.a, n.b, act) && seg in ArdpFifo.Out(n.a, act)
    ensures var n := states[|states| - 1];
            && n.b.ep.una + |n.b.ep.unacked| == n.b.ep.nxt
            && var a', e := Do(n.a, n.b, act).ep, Receive(n.b.ep, seg);
               && n.b.iss <= a'.cur <= n.b.iss + |n.b.log|
               && e.una == a'.cur + 1 && e.sndLcs == a'.rcvLcs && e.unacked == n.b.log[a'.cur - n.b.iss..]
  {
    hide HostInv, Do, Enabled, ArdpFifo.Out, Receive, Flow, Emitted, Next, Init;
    var n := states[|states| - 1];
    RunKeeps(states);
    AroundEither(n.a, n.b);
    EmissionTells(n.a, n.b, act, seg);
  }

  /** A probe that arrives is answered at once, and nothing else is; the answer tells the prober what there is to tell. */
  lemma ProbeAnswered(h: Host, p: Host, seg: Segment)
    requires Around(h, p) && Enabled(h, p, Deliver(seg))
    ensures p.ep.una + |p.ep.unacked| == p.ep.nxt
    ensures ArdpFifo.Out(p, Probe(true)) == [Header(p.ep, true)]
    ensures var h', out := Do(h, p, Deliver(seg)), ArdpFifo.Out(h, Deliver(seg));
            && (forall s <- out :: s in h'.emitted)
            && (if seg.nul || seg == Header(p.ep, true) then
                  && |out| == 1 && out[0].frag.payload == [] && !out[0].nul
                  && Receive(p.ep, out[0]).una == h'.ep.cur + 1 && Receive(p.ep, out[0]).sndLcs == h'.ep.rcvLcs
                else out == [])
  {
    hide Around, HostInv, Receive, Endpoint.ValidSend;
    AroundHost(h, p);
    AroundMirrors(h, p);
    AroundLog(p, h);
    if seg.nul {
      assert h.ep.una + |h.ep.unacked| == h.ep.nxt by { AroundLog(h, p); }
      EmissionTells(h, p, Deliver(seg), Reply(Receive(h.ep, seg), seg)[0]);
    }
  }
}
