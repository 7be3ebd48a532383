/**
 * Two ARDP endpoints and a network that may delay, reorder, repeat and lose segments
 * in any way, subject to the two conditions in `Network.Timely`.
 */
module ArdpNetwork {
  import opened Bytes
  import opened Ardp

  /** An endpoint with the history of its run. */
  datatype Host = Host(
    ep: Endpoint,
    iss: nat,                     // number of its SYN segment
    irs: nat,                     // number of the peer's SYN segment
    log: seq<Fragment>,           // segments iss + 1, iss + 2, .. as first sent
    finished: seq<seq<uint8>>,    // messages handed over in full
    partial: seq<uint8>,          // bytes accepted of the current message
    taken: seq<uint8>,            // bytes copied out to its reader
    emitted: set<Segment>)        // everything it ever put on the wire
  {
    /** All bytes its sender has had accepted. */
    function Given(): seq<uint8> {
      Concat(finished) + partial
    }
  }

  datatype Network = Network(a: Host, b: Host)

  datatype Action =
    | Start
    | Submit(data: seq<uint8>, msgLen: nat)
    | Resend
    | Probe(nul: bool)
    | Deliver(seg: Segment)
    | Copy(n: nat)

  /** What the network must respect: no data overtakes data still missing, and no stale LCS moves the window back. */
  predicate Timely(h: Host, seg: Segment) {
    && (seg.frag.payload != [] ==> seg.num <= h.ep.cur + 1)
    && h.ep.nxt <= seg.lcs + UDP_SEGMAX + 1
  }

  /** The sequence checks of RecvValidateSegment. */
  predicate Validates(e: Endpoint, seg: Segment) {
    && seg.ack <= e.nxt
    && seg.lcs <= seg.ack
    && seg.ackNxt <= seg.num
    && (seg.frag.payload != [] ==>
          && seg.num - seg.ackNxt < UDP_SEGMAX
          && seg.frag.fcnt != 0
          && seg.frag.som <= seg.num < seg.frag.som + seg.frag.fcnt)
  }

  ghost predicate Enabled(h: Host, peer: Host, act: Action) {
    match act
    case Start => h.ep.MessageComplete()
    case Submit(data, msgLen) => FitsMessage(h.ep, |data|, msgLen)
    case Resend => true
    case Probe(_) => true
    case Deliver(seg) => seg in peer.emitted && Timely(h, seg)
    case Copy(_) => true
  }

  /** All that the operations themselves rely on. */
  ghost predicate Coherent(e: Endpoint) {
    e.una + |e.unacked| == e.nxt && e.ValidReceive()
  }

  ghost function Do(h: Host, peer: Host, act: Action): Host
    requires Coherent(h.ep) && (act.Submit? ==> FitsMessage(h.ep, |act.data|, act.msgLen))
  {
    match act
    case Start =>
      h.(ep := StartMessage(h.ep), finished := if h.ep.newMsg then h.finished else h.finished + [h.partial], partial := [])
    case Submit(data, msgLen) =>
      var r := Send(h.ep, data, msgLen);
      h.(ep := r.e, log := h.log + r.e.unacked[|h.ep.unacked|..], emitted := h.emitted + (set s <- r.out),
         partial := if r.status == Ok then h.partial + data else h.partial)
    case Resend => h.(emitted := h.emitted + (set s <- Retransmission(h.ep)))
    case Probe(nul) => h.(emitted := h.emitted + {Header(h.ep, nul)})
    case Deliver(seg) =>
      var e := Receive(h.ep, seg);
      h.(ep := e, emitted := h.emitted + (set s <- Reply(e, seg)))
    case Copy(n) =>
      var r := Read(h.ep, n);
      h.(ep := r.e, taken := h.taken + r.bytes)
  }

  // ---------------------------------------------------------------- runs

  /** Both sides OPEN, the SYN payloads consumed. */
  ghost predicate Fresh(h: Host, peer: Host) {
    && h.irs == peer.iss
    && h.ep == Endpoint(h.iss + 1, h.iss + 1, h.iss, [], [], true, 0, 0, 0, h.irs, h.irs, [], 0)
    && h.log == [] && h.finished == [] && h.partial == [] && h.taken == [] && h.emitted == {}
  }

  ghost predicate Init(n: Network) {
    Fresh(n.a, n.b) && Fresh(n.b, n.a)
  }

  ghost predicate StepA(n: Network, n': Network, act: Action) {
    n.a.ep.Valid() && Enabled(n.a, n.b, act) && n' == n.(a := Do(n.a, n.b, act))
  }

  ghost predicate StepB(n: Network, n': Network, act: Action) {
    n.b.ep.Valid() && Enabled(n.b, n.a, act) && n' == n.(b := Do(n.b, n.a, act))
  }

  ghost predicate Next(n: Network, n': Network) {
    exists act :: StepA(n, n', act) || StepB(n, n', act)
  }

  ghost predicate Run(states: seq<Network>) {
    && states != []
    && Init(states[0])
    && forall i :: 0 <= i < |states| - 1 ==> Next(states[i], states[i + 1])
  }

  // ---------------------------------------------------------------- invariant

  /** The segments that carry a list of messages when the first one starts at `first`. */
  function LogOf(messages: seq<seq<uint8>>, first: nat): seq<Fragment> {
    if messages == [] then []
    else
      var m := messages[|messages| - 1];
      var before := LogOf(messages[..|messages| - 1], first);
      before + Cut(m, |m|, first + |before|, FragmentCount(|m|))
  }

  predicate Sound(f: Fragment, s: nat) {
    0 < |f.payload| <= MAX_DLEN && f.som <= s < f.som + f.fcnt && f.fcnt < 0x1_0000
  }

  ghost predicate AllSound(log: seq<Fragment>, first: nat) {
    forall k :: 0 <= k < |log| ==> Sound(log[k], first + k)
  }

  ghost predicate LogMatches(h: Host) {
    && h.ep.nxt == h.iss + 1 + |h.log|
    && h.iss < h.ep.una <= h.ep.nxt
    && h.ep.unacked == h.log[h.ep.una - h.iss - 1..]
    && AllSound(h.log, h.iss + 1)
  }

  /** A log carries complete messages and then the segments cut so far from a message of `total` bytes. */
  ghost predicate Carries(log: seq<Fragment>, first: nat, finished: seq<seq<uint8>>, partial: seq<uint8>, total: nat, som: nat) {
    var before := LogOf(finished, first);
    && |partial| <= total
    && som == first + |before|
    && log == before + Cut(partial, total, som, FragmentCount(total))
  }

  ghost predicate MessagesMatch(h: Host) {
    var e := h.ep;
    if e.newMsg then h.partial == [] && h.log == LogOf(h.finished, h.iss + 1)
    else
      && Carries(h.log, h.iss + 1, h.finished, h.partial, e.msgLenTotal, e.msgSOM)
      && e.queued == Leftover(h.partial, e.msgLenTotal)
      && e.msgLenSent + |e.queued| == |h.partial|
  }

  ghost predicate HostInv(h: Host) {
    h.ep.Valid() && h.irs <= h.ep.rcvLcs && LogMatches(h) && MessagesMatch(h)
  }

  /** What holds of anything s ever emitted. */
  predicate SegmentOf(seg: Segment, s: Host) {
    && s.irs <= seg.lcs <= seg.ack <= s.ep.cur
    && seg.lcs <= s.ep.rcvLcs && seg.ack <= seg.lcs + UDP_SEGMAX
    && seg.ackNxt <= s.ep.una
    && seg.ackNxt <= seg.num <= s.iss + |s.log| + 1 && seg.num <= seg.ackNxt + UDP_SEGMAX
    && (seg.frag.payload != [] ==>
          && !seg.nul
          && s.iss < seg.num <= s.iss + |s.log|
          && seg.frag == s.log[seg.num - s.iss - 1]
          && seg.num - seg.ackNxt < UDP_SEGMAX)
    && (seg.frag.payload == [] ==> seg.frag == NO_DATA)
  }

  ghost predicate Emitted(s: Host) {
    forall seg <- s.emitted :: SegmentOf(seg, s)
  }

  /** Sender s and receiver r agree on the window. */
  predicate Window(s: Endpoint, r: Endpoint) {
    && s.sndLcs <= r.rcvLcs <= r.cur < s.nxt <= s.sndLcs + UDP_SEGMAX + 1
    && s.una <= r.cur + 1
  }

  /** The first n segments of a log hold what was taken and what is still unread. */
  ghost predicate Stream(log: seq<Fragment>, iss: nat, r: Endpoint, taken: seq<uint8>)
    requires r.ValidReceive()
  {
    && iss <= r.rcvLcs <= r.cur <= iss + |log|
    && r.ready == log[r.rcvLcs - iss..r.cur - iss]
    && taken + r.Unread() == Payload(log[..r.cur - iss])
  }

  ghost predicate Flow(s: Host, r: Host)
    requires r.ep.Valid()
  {
    s.iss == r.irs && Window(s.ep, r.ep) && Stream(s.log, s.iss, r.ep, r.taken)
  }

  ghost predicate Inv(n: Network) {
    && HostInv(n.a) && HostInv(n.b)
    && Emitted(n.a) && Emitted(n.b)
    && Flow(n.a, n.b) && Flow(n.b, n.a)
  }

  // ---------------------------------------------------------------- every action keeps it

  predicate Grows(s: Host, s': Host) {
    && s.iss == s'.iss && s.irs == s'.irs && s.log <= s'.log
    && s.ep.una <= s'.ep.una && s.ep.cur <= s'.ep.cur && s.ep.rcvLcs <= s'.ep.rcvLcs
  }

  lemma EmittedGrows(s: Host, s': Host, out: seq<Segment>)
    requires Emitted(s) && Grows(s, s')
    requires s'.emitted == s.emitted + (set seg <- out)
    requires forall i :: 0 <= i < |out| ==> SegmentOf(out[i], s')
    ensures Emitted(s')
  {
    forall seg <- s'.emitted ensures SegmentOf(seg, s') {
      if seg in s.emitted {
        assert SegmentOf(seg, s);
      }
    }
  }

  lemma StreamGrows(log: seq<Fragment>, log': seq<Fragment>, iss: nat, r: Endpoint, taken: seq<uint8>)
    requires r.ValidReceive() && Stream(log, iss, r, taken) && log <= log'
    ensures Stream(log', iss, r, taken)
  {
    assert log'[..r.cur - iss] == log[..r.cur - iss];
  }

  predicate SameReceiveSide(e: Endpoint, e': Endpoint) {
    e'.cur == e.cur && e'.rcvLcs == e.rcvLcs && e'.ready == e.ready && e'.readOff == e.readOff
  }

  lemma ReceiverStands(s: Host, r: Host, r': Host)
    requires r.ep.Valid() && r'.ep.Valid() && Flow(s, r)
    requires SameReceiveSide(r.ep, r'.ep) && r'.taken == r.taken && r'.irs == r.irs
    ensures Flow(s, r')
  {
  }

  lemma SenderGrows(s: Host, s': Host, r: Host)
    requires r.ep.Valid() && Flow(s, r) && Grows(s, s')
    requires Window(s'.ep, r.ep)
    ensures Flow(s', r)
  {
    StreamGrows(s.log, s'.log, s.iss, r.ep, r.taken);
  }

  /** h acts while its peer p stands still. */
  ghost predicate Around(h: Host, p: Host) {
    && HostInv(h) && HostInv(p)
    && Emitted(h) && Emitted(p)
    && Flow(h, p) && Flow(p, h)
  }

  lemma StartKeepsHost(h: Host, p: Host)
    requires HostInv(h) && Enabled(h, p, Start)
    ensures HostInv(Do(h, p, Start))
  {
    hide Cut, Payload, Sound;
    var h' := Do(h, p, Start);
    if !h.ep.newMsg {
      assert h'.finished[..|h.finished|] == h.finished;
      assert h.ep.queued == [];
    }
  }

  lemma StartKeeps(h: Host, p: Host)
    requires Around(h, p) && Enabled(h, p, Start)
    ensures Around(Do(h, p, Start), p)
  {
    hide Cut, Leftover, LogOf, Payload, SegmentOf, Sound, MessagesMatch;
    StartKeepsHost(h, p);
    ReceiverStands(p, h, Do(h, p, Start));
    EmittedGrows(h, Do(h, p, Start), []);
  }

  lemma ResentIsSound(h: Host)
    requires HostInv(h) && h.ep.rcvLcs <= h.ep.cur
    ensures forall i :: 0 <= i < |Retransmission(h.ep)| ==> SegmentOf(Retransmission(h.ep)[i], h)
  {
    hide Cut, Leftover, LogOf, Payload, Sound;
    forall i | 0 <= i < |h.ep.unacked| ensures h.ep.unacked[i] == h.log[h.ep.una + i - h.iss - 1] {
    }
  }

  lemma ResendKeeps(h: Host, p: Host)
    requires Around(h, p)
    ensures Around(Do(h, p, Resend), p)
  {
    hide Cut, Leftover, LogOf, Sound, Retransmission, Stream, Carries, AllSound;
    ResentIsSound(h);
    EmittedGrows(h, Do(h, p, Resend), Retransmission(h.ep));
  }

  lemma ProbeKeeps(h: Host, p: Host, nul: bool)
    requires Around(h, p)
    ensures Around(Do(h, p, Probe(nul)), p)
  {
    hide Cut, Leftover, LogOf, Payload;
    EmittedGrows(h, Do(h, p, Probe(nul)), [Header(h.ep, nul)]);
  }

  lemma CopyKeepsStream(p: Host, h: Host, n: nat)
    requires h.ep.ValidReceive() && Stream(p.log, p.iss, h.ep, h.taken)
    ensures Read(h.ep, n).e.ValidReceive()
    ensures Stream(p.log, p.iss, Read(h.ep, n).e, h.taken + Read(h.ep, n).bytes)
  {
    hide Payload, Read;
    ReadFrame(h.ep, n);
    ReadTakesPrefix(h.ep, n);
    Associative(h.taken, Read(h.ep, n).bytes, Read(h.ep, n).e.Unread());
  }

  lemma CopyKeeps(h: Host, p: Host, n: nat)
    requires Around(h, p)
    ensures Around(Do(h, p, Copy(n)), p)
  {
    hide Cut, Leftover, LogOf, Payload, Sound, SegmentOf, Read, Stream, Carries, AllSound;
    ReadFrame(h.ep, n);
    CopyKeepsStream(p, h, n);
    EmittedGrows(h, Do(h, p, Copy(n)), []);
  }

  lemma SoundAppend(log: seq<Fragment>, first: nat, fs: seq<Fragment>, som: nat, fcnt: nat)
    requires AllSound(log, first) && fcnt < 0x1_0000
    requires forall i :: 0 <= i < |fs| ==> fs[i].som == som && fs[i].fcnt == fcnt && 0 < |fs[i].payload| <= MAX_DLEN
    requires som <= first + |log| && |log| + |fs| + first <= som + fcnt
    ensures AllSound(log + fs, first)
  {
    forall k | 0 <= k < |log + fs| ensures Sound((log + fs)[k], first + k) {
      if k >= |log| {
        assert (log + fs)[k] == fs[k - |log|];
      }
    }
  }

  lemma CarriesMore(log: seq<Fragment>, first: nat, finished: seq<seq<uint8>>, partial: seq<uint8>, data: seq<uint8>,
                    total: nat, som: nat, fs: seq<Fragment>)
    requires Carries(log, first, finished, partial, total, som)
    requires |partial| + |data| <= total
    requires Cut(partial + data, total, som, FragmentCount(total)) == Cut(partial, total, som, FragmentCount(total)) + fs
    ensures Carries(log + fs, first, finished, partial + data, total, som)
  {
    hide Cut;
    var gone := Cut(partial, total, som, FragmentCount(total));
    assert LogOf(finished, first) + gone + fs == LogOf(finished, first) + (gone + fs);
  }

  /** What an accepted call puts in the log. */
  ghost function Added(e: Endpoint, data: seq<uint8>, msgLen: nat): seq<Fragment>
    requires FitsMessage(e, |data|, msgLen)
  {
    var o := OpenMessage(e, msgLen);
    Cut(o.queued + data, o.msgLenTotal - o.msgLenSent, o.msgSOM, FragmentCount(o.msgLenTotal))
  }

  /** Opening a message changes nothing that was promised about the log. */
  lemma OpenKeeps(h: Host, msgLen: nat)
    requires HostInv(h) && FragmentCount(msgLen) < 0x1_0000 && 0 < msgLen
    ensures HostInv(h.(ep := OpenMessage(h.ep, msgLen)))
  {
    assert h.ep.newMsg ==> h.log == LogOf(h.finished, h.iss + 1) + [];
  }

  /** The new segments continue the log of the message, however it was spread over calls. */
  lemma SubmitExtendsLog(h: Host, h': Host, data: seq<uint8>)
    requires HostInv(h) && FitsMessage(h.ep, |data|, 0) && !h.ep.newMsg
    requires Send(h.ep, data, 0).status == Ok
    requires h'.ep == Send(h.ep, data, 0).e && h'.iss == h.iss && h'.finished == h.finished
    requires h'.log == h.log + Added(h.ep, data, 0) && h'.partial == h.partial + data
    ensures MessagesMatch(h')
    ensures AllSound(h'.log, h'.iss + 1)
  {
    hide Cut, Leftover, LogOf, Payload;
    var total, som, fcnt := h.ep.msgLenTotal, h.ep.msgSOM, FragmentCount(h.ep.msgLenTotal);
    var fs := Added(h.ep, data, 0);
    MessageContinues(h.partial, data, total, som);
    CarriesMore(h.log, h.iss + 1, h.finished, h.partial, data, total, som, fs);
    CutShape(h.ep.queued + data, total - h.ep.msgLenSent, som, fcnt);
    SoundAppend(h.log, h.iss + 1, fs, som, fcnt);
  }

  lemma SubmitEmits(h: Host, h': Host, data: seq<uint8>, msgLen: nat)
    requires h.ep.Valid() && FitsMessage(h.ep, |data|, msgLen)
    requires Send(h.ep, data, msgLen).status == Ok
    requires Send(h.ep, data, msgLen).e.ValidSend()
    requires h'.ep == Send(h.ep, data, msgLen).e && h'.iss == h.iss && h'.irs == h.irs <= h.ep.rcvLcs
    requires h.iss + 1 + |h.log| == h.ep.nxt && h'.log == h.log + Added(h.ep, data, msgLen)
    ensures forall i :: 0 <= i < |Send(h.ep, data, msgLen).out| ==> SegmentOf(Send(h.ep, data, msgLen).out[i], h')
  {
    hide Cut, Leftover, HasRoom;
  }

  lemma UnackedFollowsLog(log: seq<Fragment>, k: nat, unacked: seq<Fragment>, fs: seq<Fragment>)
    requires k <= |log| && unacked == log[k..]
    ensures unacked + fs == (log + fs)[k..]
  {
  }

  lemma SubmitLog(h: Host, p: Host, data: seq<uint8>, msgLen: nat)
    requires h.ep.Valid() && FitsMessage(h.ep, |data|, msgLen)
    ensures Do(h, p, Submit(data, msgLen)).log
         == (if Send(h.ep, data, msgLen).status == Ok then h.log + Added(h.ep, data, msgLen) else h.log)
  {
    hide Cut, Leftover;
  }

  lemma SubmitRefused(h: Host, p: Host, data: seq<uint8>)
    requires HostInv(h) && !h.ep.newMsg && FitsMessage(h.ep, |data|, 0)
    requires Send(h.ep, data, 0).status == Backpressure
    ensures Do(h, p, Submit(data, 0)) == h
  {
    hide Cut, Leftover, HostInv, HasRoom;
  }

  lemma SubmitAccepted(h: Host, h': Host, data: seq<uint8>)
    requires HostInv(h) && !h.ep.newMsg && FitsMessage(h.ep, |data|, 0)
    requires Send(h.ep, data, 0).status == Ok
    requires h'.ep == Send(h.ep, data, 0).e && h'.iss == h.iss && h'.irs == h.irs
    requires h'.log == h.log + Added(h.ep, data, 0)
    requires MessagesMatch(h') && AllSound(h'.log, h'.iss + 1)
    ensures HostInv(h')
  {
    hide Cut, Leftover, LogOf, Payload, Sound, HasRoom, AllSound, MessagesMatch;
    SendKeepsWindow(h.ep, data, 0);
    SendKeepsMessage(h.ep, data, 0);
    UnackedFollowsLog(h.log, h.ep.una - h.iss - 1, h.ep.unacked, Added(h.ep, data, 0));
  }

  lemma SubmitKeepsHost(h: Host, p: Host, data: seq<uint8>)
    requires HostInv(h) && !h.ep.newMsg && FitsMessage(h.ep, |data|, 0)
    ensures HostInv(Do(h, p, Submit(data, 0)))
  {
    hide Cut, Leftover, LogOf, Payload, Sound, HasRoom, AllSound, Carries, Send;
    SubmitLog(h, p, data, 0);
    if Send(h.ep, data, 0).status == Ok {
      SubmitExtendsLog(h, Do(h, p, Submit(data, 0)), data);
      SubmitAccepted(h, Do(h, p, Submit(data, 0)), data);
    } else {
      SubmitRefused(h, p, data);
    }
  }

  lemma SubmitKeeps(h: Host, p: Host, data: seq<uint8>)
    requires Around(h, p) && !h.ep.newMsg && FitsMessage(h.ep, |data|, 0)
    ensures Around(Do(h, p, Submit(data, 0)), p)
  {
    hide Cut, Leftover, LogOf, Payload, Sound, SegmentOf, HasRoom, MessagesMatch, AllSound;
    var h' := Do(h, p, Submit(data, 0));
    SubmitKeepsHost(h, p, data);
    SubmitLog(h, p, data, 0);
    if Send(h.ep, data, 0).status == Ok {
      SubmitEmits(h, h', data, 0);
    }
    SenderGrows(h, h', p);
    ReceiverStands(p, h, h');
    EmittedGrows(h, h', Send(h.ep, data, 0).out);
  }

  lemma ReceiveKeepsMessage(e: Endpoint, seg: Segment)
    requires e.una + |e.unacked| == e.nxt
    ensures var e' := Receive(e, seg);
            e' == e.(una := e'.una, unacked := e'.unacked, sndLcs := e'.sndLcs, ready := e'.ready, cur := e'.cur)
  {
  }

  /** A segment in flight acknowledges only what was sent, and new data always finds its slot free. */
  lemma DeliverFacts(h: Host, p: Host, seg: Segment)
    requires Around(h, p) && seg in p.emitted && Timely(h, seg)
    ensures SegmentOf(seg, p)
    ensures seg.lcs <= seg.ack <= p.ep.cur && seg.ack < h.ep.nxt
    ensures CarriesData(seg) ==> seg.num <= h.ep.cur + 1
    ensures CarriesData(seg) && seg.num == h.ep.cur + 1 ==>
              && |h.ep.ready| < UDP_SEGMAX
              && seg.num <= p.iss + |p.log| && p.iss <= h.ep.cur
              && seg.frag == p.log[h.ep.cur - p.iss]
  {
    hide Cut, Leftover, LogOf, Payload, Sound, AllSound, Carries, MessagesMatch;
  }

  lemma DeliverKeepsHost(h: Host, p: Host, seg: Segment)
    requires Around(h, p) && Enabled(h, p, Deliver(seg))
    ensures HostInv(Do(h, p, Deliver(seg)))
  {
    hide Cut, Leftover, LogOf, Payload, Sound, AllSound, Carries, Receive, SegmentOf, Flow, Emitted;
    DeliverFacts(h, p, seg);
    ReceiveKeepsSend(h.ep, seg);
    ReceiveKeepsReceive(h.ep, seg);
    ReceiveKeepsMessage(h.ep, seg);
  }

  lemma StreamExtends(log: seq<Fragment>, iss: nat, r: Endpoint, r': Endpoint, taken: seq<uint8>)
    requires r.ValidReceive() && r'.ValidReceive() && Stream(log, iss, r, taken)
    requires r.cur < iss + |log|
    requires r'.rcvLcs == r.rcvLcs && r'.readOff == r.readOff
    requires r'.cur == r.cur + 1 && r'.ready == r.ready + [log[r.cur - iss]]
    ensures Stream(log, iss, r', taken)
  {
    hide Payload;
    var f := log[r.cur - iss];
    assert log[..r'.cur - iss] == log[..r.cur - iss] + [f];
    PayloadAppend(log[..r.cur - iss], [f]);
    PayloadAppend(r.ready, [f]);
    assert r'.Unread() == r.Unread() + Payload([f]);
    Associative(taken, r.Unread(), Payload([f]));
  }

  lemma WindowAfterReceive(e: Endpoint, peer: Endpoint, seg: Segment)
    requires e.Valid() && Window(e, peer) && Window(peer, e)
    requires seg.lcs <= seg.ack <= peer.cur && seg.lcs <= peer.rcvLcs && e.nxt <= seg.lcs + UDP_SEGMAX + 1
    requires CarriesData(seg) ==> seg.num <= e.cur + 1
    requires CarriesData(seg) && seg.num == e.cur + 1 ==> |e.ready| < UDP_SEGMAX && seg.num < peer.nxt
    ensures Window(Receive(e, seg), peer) && Window(peer, Receive(e, seg))
  {
    hide Receive;
    ReceiveKeepsSend(e, seg);
    ReceiveKeepsReceive(e, seg);
  }

  lemma StreamAfterReceive(log: seq<Fragment>, iss: nat, e: Endpoint, seg: Segment, taken: seq<uint8>)
    requires e.ValidReceive() && e.una + |e.unacked| == e.nxt && Stream(log, iss, e, taken)
    requires CarriesData(seg) ==> seg.num <= e.cur + 1
    requires CarriesData(seg) && seg.num == e.cur + 1 ==>
               |e.ready| < UDP_SEGMAX && e.cur < iss + |log| && seg.frag == log[e.cur - iss]
    ensures Receive(e, seg).ValidReceive()
    ensures Stream(log, iss, Receive(e, seg), taken)
  {
    hide Receive, Payload;
    ReceiveKeepsReceive(e, seg);
    if CarriesData(seg) && seg.num == e.cur + 1 {
      StreamExtends(log, iss, e, Receive(e, seg), taken);
    }
  }

  lemma DeliverKeeps(h: Host, p: Host, seg: Segment)
    requires Around(h, p) && Enabled(h, p, Deliver(seg))
    ensures Around(Do(h, p, Deliver(seg)), p)
  {
    hide MessagesMatch, Receive, Stream, Window, AllSound;
    DeliverKeepsHost(h, p, seg);
    DeliverFacts(h, p, seg);
    WindowAfterReceive(h.ep, p.ep, seg);
    StreamAfterReceive(p.log, p.iss, h.ep, seg, h.taken);
    ReceiveKeepsSend(h.ep, seg);
    ReceiveKeepsReceive(h.ep, seg);
    EmittedGrows(h, Do(h, p, Deliver(seg)), Reply(Receive(h.ep, seg), seg));
  }

  /** Every enabled action of one side keeps the invariant. */
  lemma ActionKeeps(h: Host, p: Host, act: Action)
    requires Around(h, p) && Enabled(h, p, act)
    ensures Around(Do(h, p, act), p)
  {
    match act
    case Start => StartKeeps(h, p);
    case Submit(data, msgLen) => SubmitOpens(h, p, data, msgLen);
    case Resend => ResendKeeps(h, p);
    case Probe(nul) => ProbeKeeps(h, p, nul);
    case Deliver(seg) => DeliverKeeps(h, p, seg);
    case Copy(n) => CopyKeeps(h, p, n);
  }

  /** A first call is the opening of its message followed by an ordinary call, unless no buffer is free. */
  lemma SubmitOpens(h: Host, p: Host, data: seq<uint8>, msgLen: nat)
    requires Around(h, p) && FitsMessage(h.ep, |data|, msgLen)
    ensures Around(Do(h, p, Submit(data, msgLen)), p)
  {
    hide Cut, Leftover, LogOf, Payload, Sound, AllSound, Carries, MessagesMatch, LogMatches, Stream, SegmentOf, SendOpened;
    if h.ep.newMsg && |h.ep.unacked| < UDP_SEGMAX {
      var o := h.(ep := OpenMessage(h.ep, msgLen));
      OpenKeeps(h, msgLen);
      ReceiverStands(p, h, o);
      EmittedGrows(h, o, []);
      SubmitKeeps(o, p, data);
    } else if h.ep.newMsg {
      assert Do(h, p, Submit(data, msgLen)) == h;
    } else {
      SubmitKeeps(h, p, data);
    }
  }

  lemma NextKeeps(n: Network, n': Network)
    requires Inv(n) && Next(n, n')
    ensures Inv(n')
  {
    hide Around, HostInv, Do, Enabled, Flow, Emitted;
    var act :| StepA(n, n', act) || StepB(n, n', act);
    if StepA(n, n', act) {
      AroundEither(n.a, n.b);
      ActionKeeps(n.a, n.b, act);
      AroundEither(n'.a, n'.b);
    } else {
      AroundEither(n.b, n.a);
      ActionKeeps(n.b, n.a, act);
      AroundEither(n'.b, n'.a);
    }
  }

  lemma AroundEither(h: Host, p: Host)
    ensures Inv(Network(h, p)) <==> Around(h, p)
    ensures Inv(Network(p, h)) <==> Around(h, p)
  {
    hide HostInv, Flow, Emitted;
  }

  // ---------------------------------------------------------------- what every run keeps

  lemma FreshHost(h: Host, p: Host)
    requires Fresh(h, p)
    ensures HostInv(h) && Emitted(h)
  {
    hide Cut, Leftover, Payload, Sound, SegmentOf;
    assert LogOf([], h.iss + 1) == [];
  }

  lemma FreshFlow(h: Host, p: Host)
    requires Fresh(h, p) && Fresh(p, h)
    ensures Window(h.ep, p.ep)
    ensures p.ep.ValidReceive() && Stream(h.log, h.iss, p.ep, p.taken)
  {
    hide Window, Stream, Endpoint.ValidReceive;
    FreshWindow(h.ep, p.ep, h.iss);
    FreshStream(h.iss, p.ep);
  }

  lemma FreshWindow(s: Endpoint, r: Endpoint, iss: nat)
    requires s.nxt == s.una == iss + 1 && s.sndLcs == r.rcvLcs == r.cur == iss
    ensures Window(s, r)
  {
  }

  lemma FreshStream(iss: nat, r: Endpoint)
    requires r.rcvLcs == r.cur == iss && r.ready == [] && r.readOff == 0
    ensures r.ValidReceive() && Stream([], iss, r, [])
  {
    assert r.Unread() == Payload([]);
  }

  lemma InitHolds(n: Network)
    requires Init(n)
    ensures Inv(n)
  {
    hide LogMatches, MessagesMatch, Emitted, Window, Stream;
    FreshHost(n.a, n.b);
    FreshHost(n.b, n.a);
    FreshFlow(n.a, n.b);
    FreshFlow(n.b, n.a);
  }

  /** The invariant holds in the last state of every run. */
  lemma {:induction false} RunKeeps(states: seq<Network>)
    requires Run(states)
    ensures Inv(states[|states| - 1])
    decreases |states|
  {
    hide Init, Inv, Next;
    var last := |states| - 1;
    if last == 0 {
      InitHolds(states[0]);
    } else {
      RunKeeps(states[..last]);
      assert Next(states[last - 1], states[last]);
      NextKeeps(states[last - 1], states[last]);
    }
  }

  /**
   * Window order: consumed, received, sent. The receiver never holds more than SEGMAX
   * segments, and in-order data in flight always finds its slot free.
   */
  lemma WindowHolds(states: seq<Network>, seg: Segment)
    requires Run(states)
    ensures var n := states[|states| - 1];
            && n.a.ep.sndLcs <= n.b.ep.rcvLcs <= n.b.ep.cur < n.a.ep.nxt <= n.a.ep.sndLcs + UDP_SEGMAX + 1
            && n.a.ep.una <= n.b.ep.cur + 1 && n.a.ep.nxt <= n.a.ep.una + UDP_SEGMAX
            && n.b.ep.cur <= n.b.ep.rcvLcs + UDP_SEGMAX
            && (seg in n.a.emitted && CarriesData(seg) && seg.num == n.b.ep.cur + 1 ==>
                  seg.num <= n.b.ep.rcvLcs + UDP_SEGMAX)
  {
    hide Cut, Leftover, LogOf, Payload, Sound, AllSound, Carries, MessagesMatch, Stream;
    RunKeeps(states);
  }

  /** Nothing a side ever emitted fails the peer's checks, looks expired to it, or acknowledges what it has not sent. */
  lemma NothingRejected(states: seq<Network>, seg: Segment)
    requires Run(states)
    ensures var n := states[|states| - 1];
            seg in n.a.emitted ==>
              && Validates(n.b.ep, seg)
              && seg.ackNxt <= n.b.ep.cur + 1
              && seg.ack < n.b.ep.nxt
              && |seg.frag.payload| <= MAX_DLEN && seg.frag.fcnt < 0x1_0000
  {
    hide Cut, Leftover, LogOf, Payload, Carries, MessagesMatch, Stream;
    RunKeeps(states);
    var n := states[|states| - 1];
    if seg in n.a.emitted {
      assert SegmentOf(seg, n.a);
      if seg.frag.payload != [] {
        assert Sound(n.a.log[seg.num - n.a.iss - 1], n.a.iss + 1 + (seg.num - n.a.iss - 1));
      }
    }
  }

  /** A timely segment meets everything ArdpMachine asserts or relies on. */
  lemma DeliveryConforms(states: seq<Network>, seg: Segment)
    requires Run(states)
    ensures var n := states[|states| - 1];
            seg in n.a.emitted && Timely(n.b, seg) ==> Conforms(n.b.ep, seg)
  {
    hide MessagesMatch, Stream;
    RunKeeps(states);
    NothingRejected(states, seg);
    var n := states[|states| - 1];
    if seg in n.a.emitted && Timely(n.b, seg) {
      AroundEither(n.b, n.a);
      DeliverFacts(n.b, n.a, seg);
    }
  }

  // ---------------------------------------------------------------- the byte stream

  lemma {:induction false} LogOfPayload(messages: seq<seq<uint8>>, first: nat)
    ensures Payload(LogOf(messages, first)) == Concat(messages)
    decreases |messages|
  {
    if messages != [] {
      hide Cut, Payload, Concat;
      var k := |messages| - 1;
      LogOfPayload(messages[..k], first);
      WholeMessage(messages[k], first + |LogOf(messages[..k], first)|);
      PayloadAppend(LogOf(messages[..k], first),
                    Cut(messages[k], |messages[k]|, first + |LogOf(messages[..k], first)|, FragmentCount(|messages[k]|)));
      ConcatAppend(messages[..k], [messages[k]]);
      assert messages == messages[..k] + [messages[k]];
    }
  }

  lemma WholeMessage(m: seq<uint8>, som: nat)
    ensures Payload(Cut(m, |m|, som, FragmentCount(|m|))) == m == Concat([m])
  {
    hide Cut, Payload;
    CutConserves(m, |m|, som, FragmentCount(|m|));
    assert [m][1..] == [];
  }

  lemma LogHoldsGiven(h: Host)
    requires HostInv(h)
    ensures Payload(h.log) + h.ep.queued == h.Given()
  {
    hide Cut, Leftover, LogOf, Payload, Sound, AllSound;
    var e, before := h.ep, LogOf(h.finished, h.iss + 1);
    LogOfPayload(h.finished, h.iss + 1);
    if !e.newMsg {
      var gone := Cut(h.partial, e.msgLenTotal, e.msgSOM, FragmentCount(e.msgLenTotal));
      CutConserves(h.partial, e.msgLenTotal, e.msgSOM, FragmentCount(e.msgLenTotal));
      PayloadAppend(before, gone);
      Associative(Payload(before), Payload(gone), e.queued);
    }
  }

  lemma LogSplits(log: seq<Fragment>, k: nat)
    requires k <= |log|
    ensures Payload(log) == Payload(log[..k]) + Payload(log[k..])
  {
    hide Payload;
    PayloadAppend(log[..k], log[k..]);
    assert log == log[..k] + log[k..];
  }

  lemma StreamCovers(log: seq<Fragment>, iss: nat, r: Endpoint, taken: seq<uint8>)
    requires r.ValidReceive() && Stream(log, iss, r, taken)
    ensures Payload(log) == taken + r.Unread() + Payload(log[r.cur - iss..])
  {
    hide Payload;
    LogSplits(log, r.cur - iss);
  }

  /**
   * Conservation: every byte the sender had accepted is read, waiting to be read, in a
   * segment the receiver has not got, or packed for the next segment; in that order.
   */
  lemma StreamConserved(states: seq<Network>)
    requires Run(states)
    ensures var n := states[|states| - 1];
            && n.b.ep.ValidReceive() && n.a.iss <= n.b.ep.cur <= n.a.iss + |n.a.log|
            && n.a.Given() == n.b.taken + n.b.ep.Unread() + Payload(n.a.log[n.b.ep.cur - n.a.iss..]) + n.a.ep.queued
  {
    hide Payload, MessagesMatch, Emitted, LogMatches;
    RunKeeps(states);
    var n := states[|states| - 1];
    LogHoldsGiven(n.a);
    StreamCovers(n.a.log, n.a.iss, n.b.ep, n.b.taken);
  }

  /** What the reader got is a prefix of what the writer gave: nothing repeated, reordered or invented. */
  lemma ReaderGetsPrefix(states: seq<Network>)
    requires Run(states)
    ensures states[|states| - 1].b.taken <= states[|states| - 1].a.Given()
  {
    StreamConserved(states);
  }

  // ---------------------------------------------------------------- the other direction

  function Mirror(n: Network): Network {
    Network(n.b, n.a)
  }

  function Mirrored(states: seq<Network>): seq<Network> {
    seq(|states|, i requires 0 <= i < |states| => Mirror(states[i]))
  }

  lemma NextMirrors(n: Network, n': Network)
    requires Next(n, n')
    ensures Next(Mirror(n), Mirror(n'))
  {
    hide Do, Enabled;
    var act :| StepA(n, n', act) || StepB(n, n', act);
    if StepA(n, n', act) {
      assert StepB(Mirror(n), Mirror(n'), act);
    } else {
      assert StepA(Mirror(n), Mirror(n'), act);
    }
  }

  /** A run seen from the other side is a run, so whatever holds from a to b holds from b to a. */
  lemma RunMirrors(states: seq<Network>)
    requires Run(states)
    ensures Run(Mirrored(states))
  {
    hide Next;
    forall i | 0 <= i < |states| - 1 ensures Next(Mirrored(states)[i], Mirrored(states)[i + 1]) {
      NextMirrors(states[i], states[i + 1]);
    }
  }

  /** Both readers have a prefix of what the other side's writer gave. */
  lemma BothReadersGetPrefix(states: seq<Network>)
    requires Run(states)
    ensures states[|states| - 1].b.taken <= states[|states| - 1].a.Given()
    ensures states[|states| - 1].a.taken <= states[|states| - 1].b.Given()
  {
    hide Next, Init;
    ReaderGetsPrefix(states);
    RunMirrors(states);
    ReaderGetsPrefix(Mirrored(states));
    assert Mirrored(states)[|states| - 1] == Mirror(states[|states| - 1]);
  }

  // ---------------------------------------------------------------- messages on the wire

  lemma {:induction false} LogOfPrefix(messages: seq<seq<uint8>>, first: nat, k: nat)
    requires k <= |messages|
    ensures LogOf(messages[..k], first) <= LogOf(messages, first)
    decreases |messages| - k
  {
    if k < |messages| {
      LogOfPrefix(messages, first, k + 1);
      assert messages[..k + 1][..k] == messages[..k];
    } else {
      assert messages[..k] == messages;
    }
  }

  lemma MessageInLog(messages: seq<seq<uint8>>, first: nat, k: nat)
    requires k < |messages|
    ensures var m, before := messages[k], LogOf(messages[..k], first);
            before + Cut(m, |m|, first + |before|, FragmentCount(|m|)) <= LogOf(messages, first)
  {
    hide Cut;
    LogOfPrefix(messages, first, k + 1);
    assert messages[..k + 1][..k] == messages[..k];
  }

  /**
   * Message k left as FCNT consecutive segments that concatenate to it, numbered from its
   * SOM, all but the last of exactly MAX_DLEN bytes.
   */
  lemma MessageOnWire(h: Host, k: nat)
    requires HostInv(h) && k < |h.finished|
    ensures var m, at := h.finished[k], |LogOf(h.finished[..k], h.iss + 1)|;
            var fcnt := FragmentCount(|m|);
            && at + fcnt <= |h.log|
            && Payload(h.log[at..at + fcnt]) == m
            && (forall f <- h.log[at..at + fcnt] :: f.som == h.iss + 1 + at && f.fcnt == fcnt)
            && (forall i :: at <= i < at + fcnt - 1 ==> |h.log[i].payload| == MAX_DLEN)
  {
    hide Cut, Leftover, Payload, Sound, AllSound, LogOf;
    var m, before := h.finished[k], LogOf(h.finished[..k], h.iss + 1);
    var fcnt := FragmentCount(|m|);
    var fs := Cut(m, |m|, h.iss + 1 + |before|, fcnt);
    CutConserves(m, |m|, h.iss + 1 + |before|, fcnt);
    CutShape(m, |m|, h.iss + 1 + |before|, fcnt);
    MessageInLog(h.finished, h.iss + 1, k);
    assert before + fs <= h.log;
    assert h.log[|before|..|before| + fcnt] == fs;
    forall i | |before| <= i < |before| + fcnt - 1 ensures |h.log[i].payload| == MAX_DLEN {
      assert h.log[i] == fs[i - |before|];
    }
  }

  // ---------------------------------------------------------------- what the network must respect

  /** Accepting data keeps the receive queue in step with the sender's log iff no earlier segment is missing. */
  lemma GapExact(h: Host, p: Host, seg: Segment)
    requires Around(h, p) && seg in p.emitted && seg.frag.payload != []
    ensures seg.num <= h.ep.cur + 1 <==>
              && Receive(h.ep, seg).ValidReceive()
              && Stream(p.log, p.iss, Receive(h.ep, seg), h.taken)
  {
    hide Cut, Leftover, LogOf, Payload, Sound, AllSound, Carries, MessagesMatch;
    assert SegmentOf(seg, p);
    if seg.num <= h.ep.cur + 1 {
      ReceiveKeepsReceive(h.ep, seg);
      if seg.num == h.ep.cur + 1 {
        StreamExtends(p.log, p.iss, h.ep, Receive(h.ep, seg), h.taken);
      }
    }
  }

  /** Segment 1 is lost and segment 2 arrives: the receiver acknowledges both and hands out only the second. */
  lemma GapLosesData(one: Fragment, two: Fragment)
    requires one.payload != [] && two.payload != [] && two.som <= 2 < two.som + two.fcnt
    ensures var sender := Endpoint(3, 1, 0, [one, two], [], true, 0, 0, 0, 0, 0, [], 0);
            var receiver := Endpoint(1, 1, 0, [], [], true, 0, 0, 0, 0, 0, [], 0);
            var r := Receive(receiver, Retransmission(sender)[1]);
            && Validates(receiver, Retransmission(sender)[1])
            && Header(r, false).ack == 2
            && Payload(r.ready) == two.payload
            && Receive(sender, Header(r, false)).unacked == []
  {
  }
}
