/**
 * Two ARDP endpoints joined by two first-in first-out channels that delay at will and may
 * lose segments without data. Such channels meet what `ArdpNetwork` asks of a network.
 */
module ArdpFifo {
  import opened Bytes
  import opened Ardp
  import opened ArdpNetwork

  datatype Link = Link(net: Network, ab: seq<Segment>, ba: seq<Segment>)

  datatype Event =
    | ActA(act: Action)
    | ActB(act: Action)
    | ArriveA            // the oldest segment from b reaches a
    | ArriveB
    | LoseAB(i: nat)     // a segment without data vanishes
    | LoseBA(i: nat)

  /** What an action puts on the wire, in order. */
  function Out(h: Host, act: Action): seq<Segment>
    requires h.ep.una + |h.ep.unacked| == h.ep.nxt && (act.Submit? ==> FitsMessage(h.ep, |act.data|, act.msgLen))
  {
    match act
    case Start => []
    case Submit(data, msgLen) => Send(h.ep, data, msgLen).out
    case Resend => Retransmission(h.ep)
    case Probe(nul) => [Header(h.ep, nul)]
    case Deliver(seg) => Reply(Receive(h.ep, seg), seg)
    case Copy(_) => []
  }

  ghost predicate Possible(l: Link, ev: Event) {
    && l.net.a.ep.Valid() && l.net.b.ep.Valid()
    && match ev
       case ActA(act) => !act.Deliver? && Enabled(l.net.a, l.net.b, act)
       case ActB(act) => !act.Deliver? && Enabled(l.net.b, l.net.a, act)
       case ArriveA => l.ba != []
       case ArriveB => l.ab != []
       case LoseAB(i) => i < |l.ab| && l.ab[i].frag.payload == []
       case LoseBA(i) => i < |l.ba| && l.ba[i].frag.payload == []
  }

  /** One event; nothing here asks whether an arriving segment is timely. */
  ghost function Apply(l: Link, ev: Event): Link
    requires Possible(l, ev)
  {
    var a, b := l.net.a, l.net.b;
    match ev
    case ActA(act) => Link(Network(Do(a, b, act), b), l.ab + Out(a, act), l.ba)
    case ActB(act) => Link(Network(a, Do(b, a, act)), l.ab, l.ba + Out(b, act))
    case ArriveA => Link(Network(Do(a, b, Deliver(l.ba[0])), b), l.ab + Out(a, Deliver(l.ba[0])), l.ba[1..])
    case ArriveB => Link(Network(a, Do(b, a, Deliver(l.ab[0]))), l.ab[1..], l.ba + Out(b, Deliver(l.ab[0])))
    case LoseAB(i) => l.(ab := l.ab[..i] + l.ab[i + 1..])
    case LoseBA(i) => l.(ba := l.ba[..i] + l.ba[i + 1..])
  }

  // ---------------------------------------------------------------- channel invariant

  /** Read in order by a receiver at `cur`, the channel skips no data and brings it to `top`. */
  predicate Gapless(q: seq<Segment>, cur: nat, top: nat) {
    if q == [] then cur == top
    else if q[0].frag.payload == [] then Gapless(q[1..], cur, top)
    else q[0].num <= cur + 1 && Gapless(q[1..], if q[0].num == cur + 1 then cur + 1 else cur, top)
  }

  /** LCS values in a channel never decrease and lie between lo and hi. */
  predicate Rising(q: seq<Segment>, lo: nat, hi: nat) {
    && lo <= hi
    && (forall i :: 0 <= i < |q| ==> lo <= q[i].lcs <= hi)
    && (forall i, j :: 0 <= i < j < |q| ==> q[i].lcs <= q[j].lcs)
  }

  ghost predicate ChannelOk(q: seq<Segment>, s: Host, r: Host) {
    && (forall seg <- q :: seg in s.emitted)
    && Rising(q, r.ep.sndLcs, s.ep.rcvLcs)
    && Gapless(q, r.ep.cur, s.iss + |s.log|)
  }

  ghost predicate LinkInv(l: Link) {
    && Inv(l.net)
    && ChannelOk(l.ab, l.net.a, l.net.b)
    && ChannelOk(l.ba, l.net.b, l.net.a)
  }

  lemma {:induction false} GaplessAppend(q: seq<Segment>, out: seq<Segment>, cur: nat, mid: nat, top: nat)
    requires Gapless(q, cur, mid) && Gapless(out, mid, top)
    ensures Gapless(q + out, cur, top)
  {
    if q == [] {
      assert q + out == out;
    } else {
      assert (q + out)[1..] == q[1..] + out;
      GaplessAppend(q[1..], out, if q[0].frag.payload != [] && q[0].num == cur + 1 then cur + 1 else cur, mid, top);
    }
  }

  lemma {:induction false} GaplessOld(out: seq<Segment>, top: nat)
    requires forall i :: 0 <= i < |out| ==> out[i].frag.payload == [] || out[i].num <= top
    ensures Gapless(out, top, top)
  {
    if out != [] {
      GaplessOld(out[1..], top);
    }
  }

  lemma {:induction false} GaplessNew(out: seq<Segment>, top: nat)
    requires forall i :: 0 <= i < |out| ==> out[i].frag.payload != [] && out[i].num == top + 1 + i
    ensures Gapless(out, top, top + |out|)
  {
    if out != [] {
      GaplessNew(out[1..], top + 1);
    }
  }

  lemma {:induction false} GaplessLose(q: seq<Segment>, i: nat, cur: nat, top: nat)
    requires Gapless(q, cur, top) && i < |q| && q[i].frag.payload == []
    ensures Gapless(q[..i] + q[i + 1..], cur, top)
  {
    if i == 0 {
      assert q[..0] + q[1..] == q[1..];
    } else {
      assert (q[..i] + q[i + 1..])[1..] == q[1..][..i - 1] + q[1..][i..];
      GaplessLose(q[1..], i - 1, if q[0].frag.payload != [] && q[0].num == cur + 1 then cur + 1 else cur, top);
    }
  }

  /** The head of a sound channel is always timely: this is where the network's two conditions come from. */
  lemma HeadIsTimely(q: seq<Segment>, s: Host, r: Host)
    requires Around(r, s) && ChannelOk(q, s, r) && q != []
    ensures q[0] in s.emitted && Timely(r, q[0])
  {
    hide HostInv, Emitted, Stream;
  }

  // ---------------------------------------------------------------- every event keeps it

  predicate Appends(out: seq<Segment>, h: Host, h': Host) {
    && (forall seg <- out :: seg in h'.emitted && seg.lcs == h'.ep.rcvLcs)
    && h.emitted <= h'.emitted
    && Gapless(out, h.iss + |h.log|, h'.iss + |h'.log|)
    && Grows(h, h')
  }

  lemma SubmitOut(e: Endpoint, data: seq<uint8>, msgLen: nat)
    requires FitsMessage(e, |data|, msgLen) && Send(e, data, msgLen).status == Ok
    ensures var out := Send(e, data, msgLen).out;
            && |out| == |Added(e, data, msgLen)|
            && (forall i :: 0 <= i < |out| ==>
                  out[i].num == e.nxt + i && out[i].lcs == e.rcvLcs && out[i].frag.payload != [])
  {
    hide Leftover, Payload, HasRoom;
    var o := OpenMessage(e, msgLen);
    CutShape(o.queued + data, o.msgLenTotal - o.msgLenSent, o.msgSOM, FragmentCount(o.msgLenTotal));
  }

  /** Data numbered on from the end of the log, which grows by as much. */
  lemma NewDataAppends(out: seq<Segment>, h: Host, h': Host)
    requires Grows(h, h') && |h'.log| == |h.log| + |out| && h'.ep.rcvLcs == h.ep.rcvLcs
    requires h'.emitted == h.emitted + (set seg <- out)
    requires forall i :: 0 <= i < |out| ==>
               out[i].num == h.iss + |h.log| + 1 + i && out[i].lcs == h.ep.rcvLcs && out[i].frag.payload != []
    ensures Appends(out, h, h')
  {
    GaplessNew(out, h.iss + |h.log|);
  }

  lemma SubmitAppends(h: Host, p: Host, data: seq<uint8>, msgLen: nat)
    requires HostInv(h) && FitsMessage(h.ep, |data|, msgLen)
    ensures Appends(Out(h, Submit(data, msgLen)), h, Do(h, p, Submit(data, msgLen)))
  {
    hide Added, Appends, Leftover, Payload, AllSound, MessagesMatch, HasRoom;
    var h' := Do(h, p, Submit(data, msgLen));
    SubmitLog(h, p, data, msgLen);
    if Send(h.ep, data, msgLen).status == Ok {
      SubmitOut(h.ep, data, msgLen);
    }
    NewDataAppends(Out(h, Submit(data, msgLen)), h, h');
  }

  lemma ResendAppends(h: Host, p: Host)
    requires HostInv(h)
    ensures Appends(Out(h, Resend), h, Do(h, p, Resend))
  {
    hide Payload, AllSound, MessagesMatch;
    GaplessOld(Retransmission(h.ep), h.iss + |h.log|);
  }

  lemma ReceiveGrows(h: Host, p: Host, seg: Segment)
    requires Around(h, p) && Enabled(h, p, Deliver(seg))
    ensures h.ep.Valid()
    ensures var e := Receive(h.ep, seg);
            h.ep.una <= e.una && h.ep.cur <= e.cur && e.rcvLcs == h.ep.rcvLcs
  {
    hide MessagesMatch, Stream, SegmentOf, Emitted, Receive;
    DeliverFacts(h, p, seg);
    ReceiveKeepsSend(h.ep, seg);
    ReceiveKeepsReceive(h.ep, seg);
  }

  lemma DeliverAppends(h: Host, p: Host, seg: Segment)
    requires Around(h, p) && Enabled(h, p, Deliver(seg))
    ensures Appends(Out(h, Deliver(seg)), h, Do(h, p, Deliver(seg)))
  {
    hide Around, Receive;
    ReceiveGrows(h, p, seg);
    GaplessOld(Reply(Receive(h.ep, seg), seg), h.iss + |h.log|);
  }

  lemma ActionAppends(h: Host, p: Host, act: Action)
    requires Around(h, p) && Enabled(h, p, act)
    ensures Appends(Out(h, act), h, Do(h, p, act))
  {
    hide LogMatches, MessagesMatch, Send, Flow, Emitted;
    match act
    case Start =>
    case Submit(data, msgLen) => SubmitAppends(h, p, data, msgLen);
    case Resend => ResendAppends(h, p);
    case Probe(nul) => GaplessOld([Header(h.ep, nul)], h.iss + |h.log|);
    case Deliver(seg) => DeliverAppends(h, p, seg);
    case Copy(n) => ReadFrame(h.ep, n);
  }

  lemma ChannelGrows(q: seq<Segment>, s: Host, s': Host, r: Host, out: seq<Segment>)
    requires ChannelOk(q, s, r) && Appends(out, s, s')
    ensures ChannelOk(q + out, s', r)
  {
    GaplessAppend(q, out, r.ep.cur, s.iss + |s.log|, s'.iss + |s'.log|);
  }

  /** Only an arrival moves what a channel's receiver knows of it. */
  lemma ReceiverUnmoved(q: seq<Segment>, s: Host, r: Host, act: Action)
    requires ChannelOk(q, s, r) && Around(r, s) && Enabled(r, s, act) && !act.Deliver?
    ensures ChannelOk(q, s, Do(r, s, act))
  {
    hide Cut, Leftover, LogOf, Payload, AllSound, Carries, MessagesMatch, HasRoom, Stream, SegmentOf, Emitted, Gapless;
    if act.Copy? {
      ReadFrame(r.ep, act.n);
    }
  }

  lemma RisingTail(q: seq<Segment>, lo: nat, hi: nat)
    requires Rising(q, lo, hi) && q != []
    ensures Rising(q[1..], q[0].lcs, hi)
  {
  }

  lemma HeadArrives(q: seq<Segment>, s: Host, r: Host)
    requires ChannelOk(q, s, r) && Around(r, s) && q != []
    ensures ChannelOk(q[1..], s, Do(r, s, Deliver(q[0])))
  {
    hide LogMatches, MessagesMatch, Flow, Emitted, Receive, Rising;
    HeadIsTimely(q, s, r);
    DeliverFacts(r, s, q[0]);
    ReceiveKeepsSend(r.ep, q[0]);
    ReceiveKeepsReceive(r.ep, q[0]);
    RisingTail(q, r.ep.sndLcs, s.ep.rcvLcs);
  }

  lemma LoseKeeps(q: seq<Segment>, s: Host, r: Host, i: nat)
    requires ChannelOk(q, s, r) && i < |q| && q[i].frag.payload == []
    ensures ChannelOk(q[..i] + q[i + 1..], s, r)
  {
    GaplessLose(q, i, r.ep.cur, s.iss + |s.log|);
  }

  /** One side acts, or takes the head of the channel towards it. */
  lemma SideKeeps(h: Host, p: Host, out: seq<Segment>, into: seq<Segment>, act: Action)
    requires Around(h, p) && ChannelOk(out, h, p) && ChannelOk(into, p, h)
    requires if act.Deliver? then into != [] && act.seg == into[0] else Enabled(h, p, act)
    ensures Enabled(h, p, act)
    ensures var h' := Do(h, p, act);
            && Around(h', p)
            && ChannelOk(out + Out(h, act), h', p)
            && ChannelOk(if act.Deliver? then into[1..] else into, p, h')
  {
    hide HostInv, Flow, Emitted, Do, Out, ChannelOk;
    AroundValid(h, p);
    if act.Deliver? {
      HeadEnabled(into, p, h);
      HeadArrives(into, p, h);
    } else {
      ReceiverUnmoved(into, p, h, act);
    }
    ActionKeeps(h, p, act);
    ActionAppends(h, p, act);
    ChannelGrows(out, h, Do(h, p, act), p, Out(h, act));
  }

  lemma AroundValid(h: Host, p: Host)
    requires Around(h, p)
    ensures h.ep.Valid() && p.ep.Valid()
  {
    hide LogMatches, MessagesMatch, Flow, Emitted;
  }

  lemma HeadEnabled(q: seq<Segment>, s: Host, r: Host)
    requires Around(r, s) && ChannelOk(q, s, r) && q != []
    ensures Enabled(r, s, Deliver(q[0]))
  {
    hide Around, ChannelOk;
    HeadIsTimely(q, s, r);
  }

  // ---------------------------------------------------------------- runs

  ghost predicate FifoRun(links: seq<Link>) {
    && links != []
    && Init(links[0].net) && links[0].ab == [] && links[0].ba == []
    && forall i :: 0 <= i < |links| - 1 ==> FifoNext(links[i], links[i + 1])
  }

  ghost predicate FifoNext(l: Link, l': Link) {
    exists ev :: Possible(l, ev) && l' == Apply(l, ev)
  }

  /** Every event is a step of the network, or loses a segment and is none; a step never waits for timeliness. */
  lemma EventRefines(l: Link, ev: Event)
    requires LinkInv(l) && Possible(l, ev)
    ensures LinkInv(Apply(l, ev))
    ensures Apply(l, ev).net == l.net || Next(l.net, Apply(l, ev).net)
  {
    hide HostInv, Flow, Emitted, Do, Out, ChannelOk, Enabled;
    var a, b, l' := l.net.a, l.net.b, Apply(l, ev);
    AroundEither(a, b);
    AroundEither(b, a);
    match ev {
      case ActA(act) => SideKeeps(a, b, l.ab, l.ba, act); AroundEither(l'.net.a, b); assert StepA(l.net, l'.net, act);
      case ActB(act) => SideKeeps(b, a, l.ba, l.ab, act); AroundEither(l'.net.b, a); assert StepB(l.net, l'.net, act);
      case ArriveA => SideKeeps(a, b, l.ab, l.ba, Deliver(l.ba[0])); AroundEither(l'.net.a, b);
                      assert StepA(l.net, l'.net, Deliver(l.ba[0]));
      case ArriveB => SideKeeps(b, a, l.ba, l.ab, Deliver(l.ab[0])); AroundEither(l'.net.b, a);
                      assert StepB(l.net, l'.net, Deliver(l.ab[0]));
      case LoseAB(i) => LoseKeeps(l.ab, a, b, i);
      case LoseBA(i) => LoseKeeps(l.ba, b, a, i);
    }
  }

  lemma FreshLink(net: Network)
    requires Init(net)
    ensures LinkInv(Link(net, [], []))
  {
    hide HostInv, Flow;
    RunKeeps([net]);
  }

  lemma {:induction false} FifoRunKeeps(links: seq<Link>)
    requires FifoRun(links)
    ensures LinkInv(links[|links| - 1])
    decreases |links|
  {
    hide Apply, Possible, LinkInv, Init;
    var last := |links| - 1;
    if last == 0 {
      FreshLink(links[0].net);
    } else {
      FifoRunKeeps(links[..last]);
      assert FifoNext(links[last - 1], links[last]);
      var ev :| Possible(links[last - 1], ev) && links[last] == Apply(links[last - 1], ev);
      EventRefines(links[last - 1], ev);
    }
  }

  /** Nothing but acknowledgements may be lost, so an empty channel has delivered everything that was sent. */
  lemma DrainedMeansDelivered(links: seq<Link>)
    requires FifoRun(links) && links[|links| - 1].ab == []
    ensures var n := links[|links| - 1].net;
            && n.b.ep.ValidReceive()
            && n.b.ep.cur + 1 == n.a.ep.nxt
            && n.b.taken + n.b.ep.Unread() + n.a.ep.queued == n.a.Given()
  {
    hide LinkInv, FifoNext, Init;
    FifoRunKeeps(links);
    DrainedIsDelivered(links[|links| - 1]);
  }

  lemma DrainedIsDelivered(l: Link)
    requires LinkInv(l) && l.ab == []
    ensures var n := l.net;
            && n.b.ep.ValidReceive()
            && n.b.ep.cur + 1 == n.a.ep.nxt
            && n.b.taken + n.b.ep.Unread() + n.a.ep.queued == n.a.Given()
  {
    hide MessagesMatch, Emitted, AllSound, Payload, Rising;
    LogHoldsGiven(l.net.a);
    assert l.net.a.log[..l.net.b.ep.cur - l.net.a.iss] == l.net.a.log;
  }

  // ---------------------------------------------------------------- such runs are runs of the network

  function Nets(links: seq<Link>): seq<Network> {
    seq(|links|, i requires 0 <= i < |links| => links[i].net)
  }

  /** Copying nothing is a step that changes nothing. */
  lemma Stutters(n: Network)
    requires Inv(n)
    ensures Next(n, n)
  {
    hide LogMatches, MessagesMatch, Emitted, Flow;
    ReadNothing(n.a.ep, 0);
    assert Do(n.a, n.b, Copy(0)) == n.a;
    assert StepA(n, n, Copy(0));
  }

  lemma PrefixIsRun(links: seq<Link>, i: nat)
    requires FifoRun(links) && i < |links|
    ensures FifoRun(links[..i + 1])
  {
    hide FifoNext;
  }

  lemma StepRefines(l: Link, l': Link)
    requires LinkInv(l) && FifoNext(l, l')
    ensures Next(l.net, l'.net)
  {
    hide Inv, ChannelOk, Apply, Possible, Next;
    var ev :| Possible(l, ev) && l' == Apply(l, ev);
    EventRefines(l, ev);
    Stutters(l.net);
  }

  /** Every run on such channels is a run of the network, so all that holds of those holds of it. */
  lemma FifoRefines(links: seq<Link>)
    requires FifoRun(links)
    ensures Run(Nets(links))
  {
    hide Next, Init, FifoNext, LinkInv;
    forall i | 0 <= i < |links| - 1 ensures Next(Nets(links)[i], Nets(links)[i + 1]) {
      PrefixIsRun(links, i);
      FifoRunKeeps(links[..i + 1]);
      StepRefines(links[i], links[i + 1]);
    }
  }

  /** Whatever arrives, in either direction, passes the checks and meets what ArdpMachine asserts. */
  lemma ArrivalsConform(links: seq<Link>)
    requires FifoRun(links)
    ensures var l := links[|links| - 1];
            && (l.ab != [] ==> Validates(l.net.b.ep, l.ab[0]) && Conforms(l.net.b.ep, l.ab[0]))
            && (l.ba != [] ==> Validates(l.net.a.ep, l.ba[0]) && Conforms(l.net.a.ep, l.ba[0]))
  {
    hide Validates, Conforms, HostInv, Emitted, Flow, FifoNext, Init, Run;
    var l := links[|links| - 1];
    FifoRefines(links);
    RunMirrors(Nets(links));
    HeadsAreTimely(links);
    if l.ab != [] {
      NothingRejected(Nets(links), l.ab[0]);
      DeliveryConforms(Nets(links), l.ab[0]);
    }
    if l.ba != [] {
      NothingRejected(Mirrored(Nets(links)), l.ba[0]);
      DeliveryConforms(Mirrored(Nets(links)), l.ba[0]);
    }
  }

  lemma HeadsAreTimely(links: seq<Link>)
    requires FifoRun(links)
    ensures var l := links[|links| - 1];
            && (l.ab != [] ==> l.ab[0] in l.net.a.emitted && Timely(l.net.b, l.ab[0]))
            && (l.ba != [] ==> l.ba[0] in l.net.b.emitted && Timely(l.net.a, l.ba[0]))
  {
    hide HostInv, Emitted, Flow, FifoNext, Init, ChannelOk;
    var l := links[|links| - 1];
    FifoRunKeeps(links);
    AroundEither(l.net.a, l.net.b);
    AroundEither(l.net.b, l.net.a);
    if l.ab != [] {
      HeadIsTimely(l.ab, l.net.a, l.net.b);
    }
    if l.ba != [] {
      HeadIsTimely(l.ba, l.net.b, l.net.a);
    }
  }

  /** In both directions: consumed, received, sent, in this order and never more than SEGMAX apart. */
  lemma FifoWindowsHold(links: seq<Link>)
    requires FifoRun(links)
    ensures var n := links[|links| - 1].net;
            Window(n.a.ep, n.b.ep) && Window(n.b.ep, n.a.ep)
  {
    hide Next, Init, FifoNext, Window;
    FifoRefines(links);
    RunKeeps(Nets(links));
  }

  /** Both readers have a prefix of what the other side's writer gave. */
  lemma FifoReadersGetPrefix(links: seq<Link>)
    requires FifoRun(links)
    ensures links[|links| - 1].net.b.taken <= links[|links| - 1].net.a.Given()
    ensures links[|links| - 1].net.a.taken <= links[|links| - 1].net.b.Given()
  {
    hide FifoNext, Run, Init;
    FifoRefines(links);
    BothReadersGetPrefix(Nets(links));
  }
}
