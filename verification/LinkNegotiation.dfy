/**
 * Bringing up the serial link: two endpoints exchange CONN, ACPT, NEGO and NRSP packets
 * over a line that loses, repeats and reorders them, and settle on common parameters.
 */
module LinkNegotiation {
  import opened Bytes

  newtype uint16 = x: int | 0 <= x < 0x1_0000

  datatype LinkState = Uninitialized | Initialized | Active | Dying | Dead

  /** AJ_LinkParameters, without the timeouts. */
  datatype Link = Link(state: LinkState, protoVersion: uint8, maxWindow: uint8, window: uint8, packetSize: uint16)

  const CONN: seq<uint8> := [0x43, 0x4F, 0x4E, 0x4E]
  const ACPT: seq<uint8> := [0x41, 0x43, 0x50, 0x54]
  const NEGO: seq<uint8> := [0x4E, 0x45, 0x47, 0x4F]
  const NRSP: seq<uint8> := [0x4E, 0x52, 0x53, 0x50]
  const RESU: seq<uint8> := [0x52, 0x45, 0x53, 0x55]
  const DISC: seq<uint8> := [0x44, 0x49, 0x53, 0x43]
  const DRSP: seq<uint8> := [0x44, 0x52, 0x53, 0x50]

  const SLAP_VERSION_DISCONNECT_FEATURE: uint8 := 1
  const MIN_WINDOW_SIZE: uint8 := 1
  const MAX_WINDOW_SIZE: uint8 := 4

  datatype Kind = Unknown | Conn | Acpt | Nego | Nrsp | Resu | Disc | Drsp

  /** ClassifyPacket */
  function Classify(p: seq<uint8>): Kind {
    if |p| < 4 then Unknown
    else if p[..4] == CONN then Conn
    else if p[..4] == ACPT then Acpt
    else if p[..4] == NEGO then Nego
    else if p[..4] == NRSP then Nrsp
    else if p[..4] == RESU then Resu
    else if p[..4] == DISC then Disc
    else if p[..4] == DRSP then Drsp
    else Unknown
  }

  /** An octet of the packet buffer; what lies behind the packet reads as zero. */
  function Octet(p: seq<uint8>, i: nat): uint8 {
    if i < |p| then p[i] else 0
  }

  function DecodeWindow(code: uint8): uint8 {
    if code == 0 then 1 else if code == 1 then 2 else if code == 2 then 4 else code
  }

  function EncodeWindow(window: uint8): (code: uint8)
    ensures code < 4
  {
    if window == 2 then 1 else if window == 4 then 2 else if window == 8 then 3 else 0
  }

  function Min8(a: uint8, b: uint8): uint8 {
    if a < b then a else b
  }

  function Min16(a: uint16, b: uint16): uint16 {
    if a < b then a else b
  }

  function SizeIn(p: seq<uint8>): uint16 {
    (Octet(p, 4) as int * 256 + Octet(p, 5) as int) as uint16
  }

  function VersionIn(p: seq<uint8>): uint8 {
    Octet(p, 6) / 4
  }

  function WindowIn(p: seq<uint8>): uint8 {
    DecodeWindow(Octet(p, 6) % 4)
  }

  /** ProcessNegoPacket: the parameters converge on what both sides can do. */
  function Converge(link: Link, p: seq<uint8>): Link {
    link.(packetSize := Min16(link.packetSize, SizeIn(p)),
          protoVersion := Min8(link.protoVersion, VersionIn(p)),
          window := Min8(link.maxWindow, WindowIn(p)))
  }

  /** The packet of SendNegotiationPacket. */
  function Negotiation(kind: seq<uint8>, link: Link): (p: seq<uint8>) {
    kind + [(link.packetSize / 256) as uint8, (link.packetSize % 256) as uint8,
            ((link.protoVersion as int * 4) % 256 + EncodeWindow(link.maxWindow) as int) as uint8]
  }

  /** AJ_Serial_LinkPacket: the new parameters and the packets queued in answer. */
  function OnPacket(link: Link, p: seq<uint8>): (Link, seq<seq<uint8>>) {
    match link.state
    case Uninitialized =>
      (match Classify(p)
       case Conn => (link, [ACPT])
       case Acpt => (link.(state := Initialized), [Negotiation(NEGO, link)])
       case _ => (link, []))
    case Initialized =>
      (match Classify(p)
       case Conn => (link, [ACPT])
       case Nego => (Converge(link, p), [Negotiation(NRSP, Converge(link, p))])
       case Nrsp => (link.(state := Active), [])
       case _ => (link, []))
    case Active =>
      (match Classify(p)
       case Nego => (Converge(link, p), [Negotiation(NRSP, Converge(link, p))])
       case Conn => (link.(state := Dead), [])
       case Disc => (link.(state := Dying), [DRSP])
       case _ => (link, []))
    case Dying =>
      (match Classify(p)
       case Disc => (link.(state := Dead), [DRSP])
       case Drsp => (link.(state := Dead), [])
       case _ => (link, []))
    case Dead => (link, [])
  }

  /** SendLinkPacket: what the link timer puts on the line. */
  function OnTimer(link: Link): seq<seq<uint8>> {
    match link.state
    case Uninitialized => [CONN]
    case Initialized => [Negotiation(NEGO, link)]
    case Dying => if link.protoVersion >= SLAP_VERSION_DISCONNECT_FEATURE then [DISC] else []
    case _ => []
  }

  /** AJ_SerialLinkParams, assigned field by field. */
  class LinkParameters {
    var state: LinkState
    var protoVersion: uint8
    var maxWindow: uint8
    var window: uint8
    var packetSize: uint16
    /** What AJ_SerialTX_EnqueueCtrl was given. */
    var queued: seq<seq<uint8>>

    function View(): Link
      reads this
    {
      Link(state, protoVersion, maxWindow, window, packetSize)
    }

    method ProcessNegoPacket(buffer: seq<uint8>)
      modifies `packetSize, `protoVersion, `window
      ensures View() == Converge(old(View()), buffer)
    {
      var maxPayload := (Octet(buffer, 4) as int * 256 + Octet(buffer, 5) as int) as uint16;
      packetSize := Min16(packetSize, maxPayload);
      var version := Octet(buffer, 6) / 4;
      protoVersion := Min8(protoVersion, version);
      var windowSize := Octet(buffer, 6) % 4;
      if windowSize == 0 {
        windowSize := 1;
      } else if windowSize == 1 {
        windowSize := 2;
      } else if windowSize == 2 {
        windowSize := 4;
      }
      window := Min8(maxWindow, windowSize);
    }

    /** One more packet: of the kind asked for, and saying size, version modulo 64 and window maximum. */
    method SendNegotiationPacket(kind: seq<uint8>)
      requires |kind| == 4
      modifies `queued
      ensures |queued| == |old(queued)| + 1 && old(queued) == queued[..|queued| - 1]
      ensures var p := queued[|queued| - 1];
              && p == Negotiation(kind, View()) && |p| == 7 && Classify(p) == Classify(kind)
              && SizeIn(p) == packetSize && VersionIn(p) == protoVersion % 64
              && WindowIn(p) == DecodeWindow(EncodeWindow(maxWindow))
    {
      hide Classify, SizeIn, VersionIn, WindowIn, DecodeWindow;
      var packet := new uint8[7](_ => 0);
      packet[0], packet[1], packet[2], packet[3] := kind[0], kind[1], kind[2], kind[3];
      packet[4] := (packetSize / 256) as uint8;
      packet[5] := (packetSize % 256) as uint8;
      var encoded: uint8 := 0;
      match maxWindow {
        case 1 => encoded := 0;
        case 2 => encoded := 1;
        case 4 => encoded := 2;
        case 8 => encoded := 3;
        case _ =>
      }
      packet[6] := ((protoVersion as int * 4) % 256 + encoded as int) as uint8;
      assert packet[..] == Negotiation(kind, View());
      NegotiationReadsBack(kind, View());
      queued := queued + [packet[..]];
    }

    method LinkPacket(buffer: seq<uint8>)
      modifies this
      ensures View() == OnPacket(old(View()), buffer).0
      ensures queued == old(queued) + OnPacket(old(View()), buffer).1
    {
      hide Converge, Negotiation, Classify;
      var kind := Classify(buffer);
      match state {
        case Uninitialized =>
          if kind == Conn {
            queued := queued + [ACPT];
          } else if kind == Acpt {
            state := Initialized;
            SendNegotiationPacket(NEGO);
            assert View() == old(View()).(state := Initialized);
            NegotiationIgnoresState(NEGO, old(View()), Initialized);
          }
        case Initialized =>
          if kind == Conn {
            queued := queued + [ACPT];
          } else if kind == Nego {
            ProcessNegoPacket(buffer);
            SendNegotiationPacket(NRSP);
          } else if kind == Nrsp {
            state := Active;
          }
        case Active =>
          if kind == Nego {
            ProcessNegoPacket(buffer);
            SendNegotiationPacket(NRSP);
          } else if kind == Conn {
            state := Dead;
          } else if kind == Disc {
            queued := queued + [DRSP];
            state := Dying;
          }
        case Dying =>
          if kind == Disc {
            state := Dead;
            queued := queued + [DRSP];
          } else if kind == Drsp {
            state := Dead;
          }
        case Dead =>
      }
    }

    method SendLinkPacket()
      modifies `queued
      ensures queued == old(queued) + OnTimer(View())
    {
      match state {
        case Uninitialized =>
          queued := queued + [CONN];
        case Initialized =>
          SendNegotiationPacket(NEGO);
        case Dying =>
          if protoVersion >= SLAP_VERSION_DISCONNECT_FEATURE {
            queued := queued + [DISC];
          }
        case _ =>
      }
    }
  }

  lemma NegotiationIgnoresState(kind: seq<uint8>, link: Link, s: LinkState)
    ensures Negotiation(kind, link.(state := s)) == Negotiation(kind, link)
  {
  }

  // ---------------------------------------------------------------- what a negotiation packet says

  /** A negotiation packet read back gives the sender's size, its version modulo 64, and its window as far as the code can say it. */
  lemma NegotiationReadsBack(kind: seq<uint8>, link: Link)
    requires |kind| == 4
    ensures var p := Negotiation(kind, link);
            SizeIn(p) == link.packetSize && VersionIn(p) == link.protoVersion % 64 &&
            WindowIn(p) == DecodeWindow(EncodeWindow(link.maxWindow)) && Classify(p) == Classify(kind) && p[..4] == kind
  {
    hide EncodeWindow, DecodeWindow;
    var p := Negotiation(kind, link);
    assert p[..4] == kind == kind[..4];
  }

  // ---------------------------------------------------------------- two endpoints

  datatype Config = Config(packetSize: uint16, protoVersion: uint8, maxWindow: uint8)

  datatype Side = A | B

  /** Both ends, and every control packet each has ever put on the line. */
  datatype Session = Session(a: Link, b: Link, fromA: set<seq<uint8>>, fromB: set<seq<uint8>>)

  predicate ValidConfig(c: Config) {
    c.protoVersion < 64 && MIN_WINDOW_SIZE <= c.maxWindow <= MAX_WINDOW_SIZE
  }

  function Fresh(c: Config): Link {
    Link(Uninitialized, c.protoVersion, c.maxWindow, c.maxWindow, c.packetSize)
  }

  datatype Action = Timer(side: Side) | Deliver(to: Side, packet: seq<uint8>) | Disconnect(side: Side) | GiveUp(side: Side)

  function Elements(s: seq<seq<uint8>>): set<seq<uint8>> {
    set p | p in s
  }

  /** AJ_SerialDisconnect, before and after it has waited for the answer. */
  function Disconnected(link: Link): Link {
    if link.state == Dead then link else link.(state := Dying)
  }

  function GivenUp(link: Link): Link {
    if link.state == Dying then link.(state := Dead) else link
  }

  /** A packet is delivered only if the other end sent it some time: it may come late, again, out of order or never. */
  predicate Possible(s: Session, act: Action) {
    match act
    case Deliver(to, p) => p in (if to == A then s.fromB else s.fromA)
    case _ => true
  }

  function Local(link: Link, sent: set<seq<uint8>>, act: Action): (Link, set<seq<uint8>>) {
    match act
    case Timer(_) => (link, sent + Elements(OnTimer(link)))
    case Deliver(_, p) => (OnPacket(link, p).0, sent + Elements(OnPacket(link, p).1))
    case Disconnect(_) => (Disconnected(link), sent)
    case GiveUp(_) => (GivenUp(link), sent)
  }

  function Actor(act: Action): Side {
    match act
    case Timer(x) => x
    case Deliver(x, _) => x
    case Disconnect(x) => x
    case GiveUp(x) => x
  }

  function Do(s: Session, act: Action): Session {
    if Actor(act) == A then
      var r := Local(s.a, s.fromA, act);
      s.(a := r.0, fromA := r.1)
    else
      var r := Local(s.b, s.fromB, act);
      s.(b := r.0, fromB := r.1)
  }

  function Begin(a: Config, b: Config): Session {
    Session(Fresh(a), Fresh(b), {}, {})
  }

  predicate Run(s: Session, acts: seq<Action>)
    decreases |acts|
  {
    acts == [] || (Possible(s, acts[0]) && Run(Do(s, acts[0]), acts[1..]))
  }

  function After(s: Session, acts: seq<Action>): Session
    decreases |acts|
  {
    if acts == [] then s else After(Do(s, acts[0]), acts[1..])
  }

  /** The values an endpoint can hold once it has seen the other's negotiation packet. */
  function Agreed(own: Config, peer: Config, state: LinkState): Link {
    Link(state, Min8(own.protoVersion, peer.protoVersion), own.maxWindow,
         Min8(own.maxWindow, DecodeWindow(EncodeWindow(peer.maxWindow))), Min16(own.packetSize, peer.packetSize))
  }

  predicate Settled(link: Link, own: Config, peer: Config) {
    link == Agreed(own, peer, link.state)
  }

  predicate SizeFits(size: uint16, own: Config, peer: Config) {
    size == own.packetSize || size == Min16(own.packetSize, peer.packetSize)
  }

  predicate VersionFits(version: uint8, own: Config, peer: Config) {
    version == own.protoVersion || version == Min8(own.protoVersion, peer.protoVersion)
  }

  predicate LinkOk(link: Link, own: Config, peer: Config) {
    link.maxWindow == own.maxWindow && SizeFits(link.packetSize, own, peer) && VersionFits(link.protoVersion, own, peer)
  }

  predicate PacketOk(p: seq<uint8>, own: Config, peer: Config) {
    Classify(p) in {Nego, Nrsp} ==>
      SizeFits(SizeIn(p), own, peer) && VersionFits(VersionIn(p), own, peer) &&
      WindowIn(p) == DecodeWindow(EncodeWindow(own.maxWindow))
  }

  predicate Answered(sent: set<seq<uint8>>) {
    exists p :: p in sent && Classify(p) == Nrsp
  }

  /** One end: an answer on the line means its sender has settled, and an active end has had an answer. */
  predicate EndInv(link: Link, sent: set<seq<uint8>>, received: set<seq<uint8>>, own: Config, peer: Config) {
    && LinkOk(link, own, peer)
    && (forall p :: p in sent ==> PacketOk(p, own, peer))
    && (Answered(sent) ==> Settled(link, own, peer))
    && (link.state == Active ==> Answered(received))
  }

  predicate Inv(s: Session, ca: Config, cb: Config) {
    && EndInv(s.a, s.fromA, s.fromB, ca, cb)
    && EndInv(s.b, s.fromB, s.fromA, cb, ca)
  }

  lemma SizesMeet(x: uint16, y: uint16, own: Config, peer: Config)
    requires SizeFits(x, own, peer) && SizeFits(y, peer, own)
    ensures Min16(x, y) == Min16(own.packetSize, peer.packetSize) == Min16(peer.packetSize, own.packetSize)
  {
  }

  lemma Min8Laws(a: uint8, b: uint8)
    ensures Min8(a, b) == Min8(b, a) == Min8(a, Min8(a, b)) == Min8(Min8(a, b), a)
    ensures Min8(Min8(a, b), Min8(a, b)) == Min8(a, b)
  {
  }

  lemma VersionsMeet(x: uint8, y: uint8, own: Config, peer: Config)
    requires VersionFits(x, own, peer) && VersionFits(y, peer, own)
    ensures Min8(x, y) == Min8(own.protoVersion, peer.protoVersion) == Min8(peer.protoVersion, own.protoVersion)
  {
    hide Min8;
    Min8Laws(own.protoVersion, peer.protoVersion);
    Min8Laws(peer.protoVersion, own.protoVersion);
  }

  /** One negotiation packet of the peer, however old, settles an endpoint for good. */
  lemma ConvergeSettles(link: Link, p: seq<uint8>, own: Config, peer: Config)
    requires LinkOk(link, own, peer) && PacketOk(p, peer, own) && Classify(p) == Nego
    ensures Settled(Converge(link, p), own, peer)
    ensures LinkOk(Converge(link, p), own, peer)
    ensures Converge(link, p).state == link.state
  {
    hide Min8, Min16, SizeIn, VersionIn, WindowIn, DecodeWindow, EncodeWindow, Classify;
    var x, y, v, w := link.packetSize, SizeIn(p), link.protoVersion, VersionIn(p);
    assert SizeFits(x, own, peer) && SizeFits(y, peer, own) && VersionFits(v, own, peer) && VersionFits(w, peer, own);
    SizesMeet(x, y, own, peer);
    VersionsMeet(v, w, own, peer);
  }

  lemma NegotiationOk(kind: seq<uint8>, link: Link, own: Config, peer: Config)
    requires kind == NEGO || kind == NRSP
    requires LinkOk(link, own, peer) && ValidConfig(own)
    ensures PacketOk(Negotiation(kind, link), own, peer)
    ensures Classify(Negotiation(kind, link)) == if kind == NEGO then Nego else Nrsp
  {
    hide SizeIn, VersionIn, WindowIn, Negotiation, EncodeWindow, DecodeWindow;
    VersionStays(link, own, peer);
    NegotiationReadsBack(kind, link);
    NegotiationLength(kind, link);
  }

  lemma VersionStays(link: Link, own: Config, peer: Config)
    requires LinkOk(link, own, peer) && ValidConfig(own)
    ensures link.protoVersion < 64
  {
  }

  lemma NegotiationLength(kind: seq<uint8>, link: Link)
    ensures |Negotiation(kind, link)| == |kind| + 3
  {
  }

  /** What an endpoint puts on the line is well formed, and an NRSP goes out only when it has settled. */
  lemma LocalKeeps(link: Link, sent: set<seq<uint8>>, received: set<seq<uint8>>, act: Action, own: Config, peer: Config)
    requires ValidConfig(own)
    requires EndInv(link, sent, received, own, peer)
    requires forall p :: p in received ==> PacketOk(p, peer, own)
    requires act.Deliver? ==> act.packet in received
    ensures var r := Local(link, sent, act); EndInv(r.0, r.1, received, own, peer) && sent <= r.1
  {
    hide Converge, Negotiation, Classify, PacketOk, LinkOk, Settled;
    match act {
      case Timer(_) =>
        if link.state == Initialized {
          NegotiationOk(NEGO, link, own, peer);
        }
        PlainOk(own, peer);
        NothingNew(sent, OnTimer(link));
      case Deliver(_, p) =>
        DeliverKeeps(link, sent, received, p, own, peer);
      case _ =>
        StateFree(link, own, peer);
    }
  }

  lemma StateFree(link: Link, own: Config, peer: Config)
    ensures forall s :: LinkOk(link.(state := s), own, peer) == LinkOk(link, own, peer)
    ensures forall s :: Settled(link.(state := s), own, peer) == Settled(link, own, peer)
  {
  }

  lemma PlainOk(own: Config, peer: Config)
    ensures PacketOk(CONN, own, peer) && Classify(CONN) == Conn
    ensures PacketOk(ACPT, own, peer) && Classify(ACPT) == Acpt
    ensures PacketOk(DISC, own, peer) && Classify(DISC) == Disc
    ensures PacketOk(DRSP, own, peer) && Classify(DRSP) == Drsp
  {
    hide SizeIn, VersionIn, WindowIn;
    PlainKinds();
  }

  lemma PlainKinds()
    ensures Classify(CONN) == Conn && Classify(ACPT) == Acpt && Classify(DISC) == Disc && Classify(DRSP) == Drsp
  {
    assert CONN[..4] == CONN && ACPT[..4] == ACPT && DISC[..4] == DISC && DRSP[..4] == DRSP;
    assert CONN[0] == 0x43 && ACPT[0] == 0x41 && NEGO[0] == 0x4E && NRSP[0] == 0x4E && RESU[0] == 0x52;
    assert DISC[0] == 0x44 && DISC[1] == 0x49 && DRSP[0] == 0x44 && DRSP[1] == 0x52;
  }

  lemma NothingNew(sent: set<seq<uint8>>, more: seq<seq<uint8>>)
    requires forall p :: p in more ==> Classify(p) != Nrsp
    ensures Answered(sent + Elements(more)) == Answered(sent)
  {
  }

  lemma DeliverKeeps(link: Link, sent: set<seq<uint8>>, received: set<seq<uint8>>, p: seq<uint8>, own: Config, peer: Config)
    requires ValidConfig(own)
    requires EndInv(link, sent, received, own, peer)
    requires PacketOk(p, peer, own) && p in received
    ensures EndInv(OnPacket(link, p).0, sent + Elements(OnPacket(link, p).1), received, own, peer)
  {
    hide Converge, Negotiation, Classify, PacketOk, LinkOk, Settled;
    var r := OnPacket(link, p);
    StateFree(link, own, peer);
    PlainOk(own, peer);
    if Classify(p) == Nego {
      ConvergeSettles(link, p, own, peer);
      NegotiationOk(NRSP, Converge(link, p), own, peer);
    } else {
      if Classify(p) == Acpt {
        NegotiationOk(NEGO, link, own, peer);
      }
      NothingNew(sent, r.1);
    }
  }

  /** Sending more never takes an answer away. */
  lemma PeerKeeps(link: Link, sent: set<seq<uint8>>, received: set<seq<uint8>>, more: set<seq<uint8>>, own: Config, peer: Config)
    requires EndInv(link, sent, received, own, peer) && received <= more
    ensures EndInv(link, sent, more, own, peer)
  {
  }

  lemma StepKeeps(s: Session, act: Action, ca: Config, cb: Config)
    requires ValidConfig(ca) && ValidConfig(cb)
    requires Inv(s, ca, cb) && Possible(s, act)
    ensures Inv(Do(s, act), ca, cb)
  {
    hide Local;
    if Actor(act) == A {
      LocalKeeps(s.a, s.fromA, s.fromB, act, ca, cb);
      PeerKeeps(s.b, s.fromB, s.fromA, Local(s.a, s.fromA, act).1, cb, ca);
    } else {
      LocalKeeps(s.b, s.fromB, s.fromA, act, cb, ca);
      PeerKeeps(s.a, s.fromA, s.fromB, Local(s.b, s.fromB, act).1, ca, cb);
    }
  }

  lemma {:induction false} RunKeeps(s: Session, acts: seq<Action>, ca: Config, cb: Config)
    requires ValidConfig(ca) && ValidConfig(cb)
    requires Inv(s, ca, cb) && Run(s, acts)
    ensures Inv(After(s, acts), ca, cb)
    decreases |acts|
  {
    hide Inv, Do;
    if acts != [] {
      StepKeeps(s, acts[0], ca, cb);
      RunKeeps(Do(s, acts[0]), acts[1..], ca, cb);
    }
  }

  /** As soon as one end is active the other holds the agreed values; when both are, both do. */
  lemma ActiveMeansAgreed(ca: Config, cb: Config, acts: seq<Action>)
    requires ValidConfig(ca) && ValidConfig(cb) && Run(Begin(ca, cb), acts)
    ensures var s := After(Begin(ca, cb), acts);
            && (s.a.state == Active ==> Settled(s.b, cb, ca))
            && (s.b.state == Active ==> Settled(s.a, ca, cb))
            && (s.a.state == Active && s.b.state == Active ==>
                  s.a.packetSize == s.b.packetSize == Min16(ca.packetSize, cb.packetSize) &&
                  s.a.protoVersion == s.b.protoVersion == Min8(ca.protoVersion, cb.protoVersion))
  {
    hide PacketOk, After, Run, Min8, Min16, DecodeWindow, EncodeWindow;
    RunKeeps(Begin(ca, cb), acts, ca, cb);
    SizesMeet(ca.packetSize, cb.packetSize, ca, cb);
    VersionsMeet(ca.protoVersion, cb.protoVersion, ca, cb);
  }

  function WindowOf(own: Config, peer: Config): uint8 {
    Min8(own.maxWindow, DecodeWindow(EncodeWindow(peer.maxWindow)))
  }

  /** A maximum of three, which has no code, meets no other maximum than one. */
  predicate Sayable(ca: Config, cb: Config) {
    (ca.maxWindow == 3 ==> cb.maxWindow == 1) && (cb.maxWindow == 3 ==> ca.maxWindow == 1)
  }

  /** The ends of an active link hold the same window exactly if their maxima are equal or a maximum of three meets only one. */
  lemma WindowAgreesExact(ca: Config, cb: Config)
    requires ValidConfig(ca) && ValidConfig(cb)
    ensures WindowOf(ca, cb) == WindowOf(cb, ca) <==>
            ca.maxWindow == cb.maxWindow || Sayable(ca, cb)
    ensures WindowOf(ca, cb) == WindowOf(cb, ca) == Min8(ca.maxWindow, cb.maxWindow) <==> Sayable(ca, cb)
  {
  }

  /** With maxima of one, two or four the window of an active link is the smaller on both ends. */
  lemma ActiveMeansSameWindow(ca: Config, cb: Config, acts: seq<Action>)
    requires ValidConfig(ca) && ValidConfig(cb) && Run(Begin(ca, cb), acts)
    requires ca.maxWindow != 3 && cb.maxWindow != 3
    ensures var s := After(Begin(ca, cb), acts);
            s.a.state == Active && s.b.state == Active ==> s.a.window == s.b.window == Min8(ca.maxWindow, cb.maxWindow)
  {
    hide PacketOk, After, Run;
    RunKeeps(Begin(ca, cb), acts, ca, cb);
    WindowAgreesExact(ca, cb);
  }

  function Rank(s: LinkState): nat {
    match s
    case Uninitialized => 0
    case Initialized => 1
    case Active => 2
    case Dying => 3
    case Dead => 4
  }

  lemma LocalForward(link: Link, sent: set<seq<uint8>>, act: Action)
    ensures Rank(Local(link, sent, act).0.state) >= Rank(link.state)
  {
    hide Converge, Negotiation, Classify, Elements, OnTimer;
    if act.Deliver? {
      ConvergeKeepsState(link, act.packet);
    }
  }

  lemma ConvergeKeepsState(link: Link, p: seq<uint8>)
    ensures Converge(link, p).state == link.state
  {
  }

  /** No action of either end moves a link state backwards. */
  lemma {:induction false} StateNeverRegresses(s: Session, acts: seq<Action>)
    requires Run(s, acts)
    ensures Rank(After(s, acts).a.state) >= Rank(s.a.state)
    ensures Rank(After(s, acts).b.state) >= Rank(s.b.state)
    decreases |acts|
  {
    hide Local, Rank;
    if acts != [] {
      LocalForward(s.a, s.fromA, acts[0]);
      LocalForward(s.b, s.fromB, acts[0]);
      StateNeverRegresses(Do(s, acts[0]), acts[1..]);
    }
  }

  // ---------------------------------------------------------------- the handshake can succeed

  /** One exchange on a line that delivers everything: each end connects, accepts, proposes and answers. */
  function Connecting(): seq<Action> {
    [Timer(A), Timer(B), Deliver(B, CONN), Deliver(A, CONN), Deliver(A, ACPT), Deliver(B, ACPT)]
  }

  function Negotiating(a: Link, b: Link): seq<Action> {
    var toB, toA := Negotiation(NEGO, a), Negotiation(NEGO, b);
    [Deliver(A, toA), Deliver(B, toB),
     Deliver(A, Negotiation(NRSP, Converge(b, toB))), Deliver(B, Negotiation(NRSP, Converge(a, toA)))]
  }

  lemma ConnectingWorks(ca: Config, cb: Config)
    ensures var s := Begin(ca, cb);
            && Run(s, Connecting())
            && After(s, Connecting()) ==
                 Session(Fresh(ca).(state := Initialized), Fresh(cb).(state := Initialized),
                         {CONN, ACPT, Negotiation(NEGO, Fresh(ca))}, {CONN, ACPT, Negotiation(NEGO, Fresh(cb))})
  {
    hide Negotiation, Classify, Converge;
    PlainKinds();
    var s0 := Begin(ca, cb);
    var s1 := s0.(fromA := {CONN});
    var s2 := s1.(fromB := {CONN});
    var s3 := s2.(fromB := {CONN, ACPT});
    var s4 := s3.(fromA := {CONN, ACPT});
    var s5 := s4.(a := Fresh(ca).(state := Initialized), fromA := {CONN, ACPT, Negotiation(NEGO, Fresh(ca))});
    var s6 := s5.(b := Fresh(cb).(state := Initialized), fromB := {CONN, ACPT, Negotiation(NEGO, Fresh(cb))});
    assert Do(s0, Timer(A)) == s1;
    assert Do(s1, Timer(B)) == s2;
    assert Do(s2, Deliver(B, CONN)) == s3;
    assert Do(s3, Deliver(A, CONN)) == s4;
    assert Do(s4, Deliver(A, ACPT)) == s5;
    assert Do(s5, Deliver(B, ACPT)) == s6;
    var r := Connecting();
    Unfold(s0, r, s1);
    Unfold(s1, r[1..], s2);
    Unfold(s2, r[2..], s3);
    Unfold(s3, r[3..], s4);
    Unfold(s4, r[4..], s5);
    Unfold(s5, r[5..], s6);
  }

  lemma Unfold(s: Session, acts: seq<Action>, t: Session)
    requires acts != [] && Possible(s, acts[0]) && Do(s, acts[0]) == t
    ensures Run(s, acts) == Run(t, acts[1..])
    ensures After(s, acts) == After(t, acts[1..])
    ensures |acts| == 1 ==> Run(s, acts) && After(s, acts) == t
  {
    hide Do, Possible;
  }

  lemma NegotiatingWorks(s: Session, ca: Config, cb: Config)
    requires ValidConfig(ca) && ValidConfig(cb)
    requires s.a == Fresh(ca).(state := Initialized) && s.b == Fresh(cb).(state := Initialized)
    requires Negotiation(NEGO, s.a) in s.fromA && Negotiation(NEGO, s.b) in s.fromB
    ensures var acts := Negotiating(s.a, s.b);
            Run(s, acts) && After(s, acts).a.state == Active && After(s, acts).b.state == Active
  {
    hide Negotiation, Classify, Converge, DecodeWindow, EncodeWindow, Min8, Min16, SizeIn, VersionIn, WindowIn;
    var toB, toA := Negotiation(NEGO, s.a), Negotiation(NEGO, s.b);
    var a, b := Converge(s.a, toA), Converge(s.b, toB);
    var answerA, answerB := Negotiation(NRSP, a), Negotiation(NRSP, b);
    assert PacketOk(toA, cb, ca) && PacketOk(toB, ca, cb) && Classify(toA) == Nego && Classify(toB) == Nego by {
      NegotiationOk(NEGO, s.a, ca, cb);
      NegotiationOk(NEGO, s.b, cb, ca);
    }
    ConvergeSettles(s.a, toA, ca, cb);
    ConvergeSettles(s.b, toB, cb, ca);
    NegotiationOk(NRSP, a, ca, cb);
    NegotiationOk(NRSP, b, cb, ca);
    NegotiatingSteps(s, toA, toB, a, b, answerA, answerB);
  }

  lemma NegotiatingSteps(s: Session, toA: seq<uint8>, toB: seq<uint8>, a: Link, b: Link, answerA: seq<uint8>, answerB: seq<uint8>)
    requires s.a.state == Initialized && s.b.state == Initialized && toA in s.fromB && toB in s.fromA
    requires Classify(toA) == Nego && Classify(toB) == Nego && Classify(answerA) == Nrsp && Classify(answerB) == Nrsp
    requires a == Converge(s.a, toA) && b == Converge(s.b, toB) && a.state == Initialized && b.state == Initialized
    requires answerA == Negotiation(NRSP, a) && answerB == Negotiation(NRSP, b)
    ensures var acts := [Deliver(A, toA), Deliver(B, toB), Deliver(A, answerB), Deliver(B, answerA)];
            Run(s, acts) && After(s, acts).a.state == Active && After(s, acts).b.state == Active
  {
    hide Negotiation, Classify, Converge;
    var s1 := s.(a := a, fromA := s.fromA + Elements([answerA]));
    var s2 := s1.(b := b, fromB := s1.fromB + Elements([answerB]));
    var s3 := Do(s2, Deliver(A, answerB));
    var s4 := Do(s3, Deliver(B, answerA));
    assert Do(s, Deliver(A, toA)) == s1;
    assert Do(s1, Deliver(B, toB)) == s2;
    assert answerA in s2.fromA && answerB in s2.fromB;
    assert s3.a.state == Active && s3.fromA >= s2.fromA && s3.b == b;
    assert s4.b.state == Active && s4.a == s3.a;
    var r := [Deliver(A, toA), Deliver(B, toB), Deliver(A, answerB), Deliver(B, answerA)];
    Unfold(s, r, s1);
    Unfold(s1, r[1..], s2);
    Unfold(s2, r[2..], s3);
    Unfold(s3, r[3..], s4);
  }

  lemma {:induction false} RunAppend(s: Session, acts: seq<Action>, more: seq<Action>)
    requires Run(s, acts) && Run(After(s, acts), more)
    ensures Run(s, acts + more) && After(s, acts + more) == After(After(s, acts), more)
    decreases |acts|
  {
    hide Do, Possible;
    if acts == [] {
      assert acts + more == more;
    } else {
      assert (acts + more)[1..] == acts[1..] + more;
      RunAppend(Do(s, acts[0]), acts[1..], more);
    }
  }

  /**
   * Any two valid configurations can become active, and then their windows differ exactly
   * when a maximum of three, which the code cannot say, meets a two or a four.
   */
  lemma HandshakeCompletes(ca: Config, cb: Config) returns (acts: seq<Action>)
    requires ValidConfig(ca) && ValidConfig(cb)
    ensures Run(Begin(ca, cb), acts)
    ensures var s := After(Begin(ca, cb), acts);
            && s.a.state == Active && s.b.state == Active
            && (s.a.window == s.b.window <==>
                  ca.maxWindow == cb.maxWindow || Sayable(ca, cb))
  {
    hide Run, After, Connecting, Negotiating, PacketOk;
    var s := Begin(ca, cb);
    ConnectingWorks(ca, cb);
    var t := After(s, Connecting());
    NegotiationIgnoresState(NEGO, Fresh(ca), Initialized);
    NegotiationIgnoresState(NEGO, Fresh(cb), Initialized);
    NegotiatingWorks(t, ca, cb);
    RunAppend(s, Connecting(), Negotiating(t.a, t.b));
    acts := Connecting() + Negotiating(t.a, t.b);
    RunKeeps(s, acts, ca, cb);
    WindowAgreesExact(ca, cb);
  }

  /** Disconnecting an active link: the other end hears of it and answers, and the end that asked is done. */
  lemma DisconnectCompletes(s: Session)
    requires s.a.state == Active && s.b.state == Active && s.a.protoVersion >= SLAP_VERSION_DISCONNECT_FEATURE
    ensures var acts := [Disconnect(A), Timer(A), Deliver(B, DISC), Deliver(A, DRSP)];
            Run(s, acts) && After(s, acts).a.state == Dead && After(s, acts).b.state == Dying
  {
    hide Negotiation, Classify, Converge;
    PlainKinds();
    var s1 := Do(s, Disconnect(A));
    var s2 := Do(s1, Timer(A));
    var s3 := Do(s2, Deliver(B, DISC));
    var s4 := Do(s3, Deliver(A, DRSP));
    assert DISC in s2.fromA && DRSP in s3.fromB;
    var r := [Disconnect(A), Timer(A), Deliver(B, DISC), Deliver(A, DRSP)];
    Unfold(s, r, s1);
    Unfold(s1, r[1..], s2);
    Unfold(s2, r[2..], s3);
    Unfold(s3, r[3..], s4);
  }

  // ---------------------------------------------------------------- what each packet does

  lemma KindsOf(rest: seq<uint8>)
    ensures Classify(CONN + rest) == Conn && Classify(ACPT + rest) == Acpt
    ensures Classify(NEGO + rest) == Nego && Classify(NRSP + rest) == Nrsp && Classify(RESU + rest) == Resu
    ensures Classify(DISC + rest) == Disc && Classify(DRSP + rest) == Drsp
  {
    assert (CONN + rest)[..4] == CONN && (ACPT + rest)[..4] == ACPT && (NEGO + rest)[..4] == NEGO && (NRSP + rest)[..4] == NRSP;
    assert (RESU + rest)[..4] == RESU && (DISC + rest)[..4] == DISC && (DRSP + rest)[..4] == DRSP;
    assert CONN[0] == 0x43 && ACPT[0] == 0x41 && NEGO[0] == 0x4E && NEGO[1] == 0x45 && NRSP[0] == 0x4E && NRSP[1] == 0x52;
    assert RESU[0] == 0x52 && DISC[0] == 0x44 && DISC[1] == 0x49 && DRSP[0] == 0x44 && DRSP[1] == 0x52;
  }

  predicate Unanswered(link: Link, p: seq<uint8>, state: LinkState) {
    OnPacket(link, p) == (link.(state := state), [])
  }

  /** CONN is accepted until the link is active, and then means that the other end has started again. */
  lemma ConnAnswers(link: Link, rest: seq<uint8>)
    ensures link.state in {Uninitialized, Initialized} ==> OnPacket(link, CONN + rest) == (link, [ACPT])
    ensures link.state == Active ==> Unanswered(link, CONN + rest, Dead)
    ensures link.state in {Dying, Dead} ==> Unanswered(link, CONN + rest, link.state)
  {
    hide Classify;
    KindsOf(rest);
  }

  /** ACPT makes an end that waits for it propose its own parameters. */
  lemma AcptAnswers(link: Link, rest: seq<uint8>)
    ensures link.state == Uninitialized ==>
              var (next, out) := OnPacket(link, ACPT + rest);
              && next == link.(state := Initialized) && |out| == 1 && |out[0]| == 7 && Classify(out[0]) == Nego
              && SizeIn(out[0]) == link.packetSize && VersionIn(out[0]) == link.protoVersion % 64
              && WindowIn(out[0]) == DecodeWindow(EncodeWindow(link.maxWindow))
    ensures link.state != Uninitialized ==> Unanswered(link, ACPT + rest, link.state)
  {
    hide Classify, Negotiation, SizeIn, VersionIn, WindowIn, DecodeWindow, EncodeWindow;
    KindsOf(rest);
    KindsOf([]);
    assert NEGO + [] == NEGO;
    NegotiationLength(NEGO, link);
    NegotiationReadsBack(NEGO, link);
  }

  /** NEGO is answered, by an end that is initialized or active, with the parameters that both can do. */
  lemma NegoAnswers(link: Link, rest: seq<uint8>)
    ensures link.state in {Initialized, Active} ==>
              var p := NEGO + rest;
              var (next, out) := OnPacket(link, p);
              && next == link.(packetSize := next.packetSize, protoVersion := next.protoVersion, window := next.window)
              && next.packetSize == Min16(link.packetSize, SizeIn(p))
              && next.protoVersion == Min8(link.protoVersion, VersionIn(p))
              && next.window == Min8(link.maxWindow, WindowIn(p))
              && |out| == 1 && |out[0]| == 7 && Classify(out[0]) == Nrsp
              && SizeIn(out[0]) == next.packetSize && VersionIn(out[0]) == next.protoVersion % 64
              && WindowIn(out[0]) == DecodeWindow(EncodeWindow(link.maxWindow))
    ensures link.state !in {Initialized, Active} ==> Unanswered(link, NEGO + rest, link.state)
  {
    hide Classify, Negotiation, SizeIn, VersionIn, WindowIn, DecodeWindow, EncodeWindow, Min8, Min16;
    KindsOf(rest);
    KindsOf([]);
    assert NRSP + [] == NRSP;
    NegotiationLength(NRSP, Converge(link, NEGO + rest));
    NegotiationReadsBack(NRSP, Converge(link, NEGO + rest));
  }

  lemma NrspAnswers(link: Link, rest: seq<uint8>)
    ensures Unanswered(link, NRSP + rest, if link.state == Initialized then Active else link.state)
  {
    hide Classify;
    KindsOf(rest);
  }

  /** DISC and DRSP take an active link down in two steps. */
  lemma DisconnectAnswers(link: Link, rest: seq<uint8>)
    ensures link.state == Active ==> OnPacket(link, DISC + rest) == (link.(state := Dying), [DRSP])
    ensures link.state == Dying ==> OnPacket(link, DISC + rest) == (link.(state := Dead), [DRSP])
    ensures link.state !in {Active, Dying} ==> Unanswered(link, DISC + rest, link.state)
    ensures Unanswered(link, DRSP + rest, if link.state == Dying then Dead else link.state)
  {
    hide Classify;
    KindsOf(rest);
  }

  /** Anything else is ignored. */
  lemma OthersIgnored(link: Link, p: seq<uint8>)
    requires !(CONN <= p) && !(ACPT <= p) && !(NEGO <= p) && !(NRSP <= p) && !(DISC <= p) && !(DRSP <= p)
    ensures Unanswered(link, p, link.state)
  {
  }

  // ---------------------------------------------------------------- the handshake can succeed from anywhere

  /** Neither end has gone down, and an end whose answer is on the line has left the first state. */
  predicate Alive(link: Link) {
    link.state == Uninitialized || link.state == Initialized || link.state == Active
  }

  predicate AnsweredLate(s: Session) {
    && (Answered(s.fromA) ==> s.a.state != Uninitialized)
    && (Answered(s.fromB) ==> s.b.state != Uninitialized)
  }

  lemma LocalAnswersLate(link: Link, sent: set<seq<uint8>>, act: Action)
    requires Answered(sent) ==> link.state != Uninitialized
    ensures var r := Local(link, sent, act); Answered(r.1) ==> r.0.state != Uninitialized
  {
    hide Converge, Negotiation, Classify;
    PlainKinds();
    match act {
      case Timer(_) =>
        if link.state == Uninitialized {
          NothingNew(sent, OnTimer(link));
        }
      case Deliver(_, p) =>
        ConvergeKeepsState(link, p);
        if link.state == Uninitialized && OnPacket(link, p).0.state == Uninitialized {
          NothingNew(sent, OnPacket(link, p).1);
        }
      case _ =>
    }
  }

  lemma {:induction false} RunAnswersLate(s: Session, acts: seq<Action>)
    requires AnsweredLate(s) && Run(s, acts)
    ensures AnsweredLate(After(s, acts))
    decreases |acts|
  {
    hide Local, Answered;
    if acts != [] {
      var act := acts[0];
      if Actor(act) == A {
        LocalAnswersLate(s.a, s.fromA, act);
      } else {
        LocalAnswersLate(s.b, s.fromB, act);
      }
      RunAnswersLate(Do(s, act), acts[1..]);
    }
  }

  function Other(side: Side): Side {
    if side == A then B else A
  }

  function EndOf(s: Session, side: Side): Link {
    if side == A then s.a else s.b
  }

  function FromOf(s: Session, side: Side): set<seq<uint8>> {
    if side == A then s.fromA else s.fromB
  }

  lemma DoOne(s: Session, side: Side, act: Action)
    requires Actor(act) == side
    ensures var r := Local(EndOf(s, side), FromOf(s, side), act);
            && EndOf(Do(s, act), side) == r.0 && FromOf(Do(s, act), side) == r.1
            && EndOf(Do(s, act), Other(side)) == EndOf(s, Other(side))
            && FromOf(Do(s, act), Other(side)) == FromOf(s, Other(side))
  {
    hide Local;
  }

  /** The timer of one end speaks, the other end answers, and the answer arrives. */
  function Exchange(side: Side, question: seq<uint8>, answer: seq<uint8>): seq<Action> {
    [Timer(side), Deliver(Other(side), question), Deliver(side, answer)]
  }

  lemma ExchangeRuns(s: Session, side: Side, question: seq<uint8>, answer: seq<uint8>)
    requires question in OnTimer(EndOf(s, side)) && answer in OnPacket(EndOf(s, Other(side)), question).1
    ensures Run(s, Exchange(side, question, answer))
    ensures var t := After(s, Exchange(side, question, answer));
            && EndOf(t, side) == OnPacket(EndOf(s, side), answer).0
            && EndOf(t, Other(side)) == OnPacket(EndOf(s, Other(side)), question).0
  {
    hide OnTimer, OnPacket, Do;
    var acts := Exchange(side, question, answer);
    var s1 := Do(s, acts[0]);
    var s2 := Do(s1, acts[1]);
    var s3 := Do(s2, acts[2]);
    DoOne(s, side, acts[0]);
    DoOne(s1, Other(side), acts[1]);
    DoOne(s2, side, acts[2]);
    Unfold(s, acts, s1);
    Unfold(s1, acts[1..], s2);
    Unfold(s2, acts[2..], s3);
  }

  /** Link packets have at most seven octets. */
  predicate Short(act: Action) {
    act.Deliver? ==> |act.packet| <= 7
  }

  /** An end that has not connected can, whatever state short of active the other is in. */
  lemma ConnectsFrom(s: Session, side: Side) returns (acts: seq<Action>)
    requires EndOf(s, side).state == Uninitialized && EndOf(s, Other(side)).state in {Uninitialized, Initialized}
    ensures Run(s, acts)
    ensures var t := After(s, acts);
            && EndOf(t, side).state == Initialized && EndOf(t, Other(side)) == EndOf(s, Other(side))
    ensures forall act <- acts :: Short(act)
  {
    hide Run, After, OnPacket, Classify;
    acts := Exchange(side, CONN, ACPT);
    ConnAnswers(EndOf(s, Other(side)), []);
    AcptAnswers(EndOf(s, side), []);
    assert CONN + [] == CONN && ACPT + [] == ACPT;
    ExchangeRuns(s, side, CONN, ACPT);
  }

  /** An end that has connected becomes active once it asks an end that has too, active or not. */
  lemma ActivatesFrom(s: Session, side: Side) returns (acts: seq<Action>)
    requires EndOf(s, side).state == Initialized && EndOf(s, Other(side)).state in {Initialized, Active}
    ensures Run(s, acts)
    ensures var t := After(s, acts);
            && EndOf(t, side).state == Active && EndOf(t, Other(side)).state == EndOf(s, Other(side)).state
    ensures forall act <- acts :: Short(act)
  {
    hide Run, After, OnPacket, Classify, Negotiation, SizeIn, VersionIn, WindowIn, DecodeWindow, EncodeWindow, Min8, Min16;
    var question := Negotiation(NEGO, EndOf(s, side));
    var rest := NegotiationSplits(NEGO, EndOf(s, side));
    NegotiationLength(NEGO, EndOf(s, side));
    NegoAnswers(EndOf(s, Other(side)), rest);
    var answer := OnPacket(EndOf(s, Other(side)), question).1[0];
    var more := NrspSplits(answer);
    NrspAnswers(EndOf(s, side), more);
    acts := Exchange(side, question, answer);
    ExchangeRuns(s, side, question, answer);
  }

  lemma NegotiationSplits(kind: seq<uint8>, link: Link) returns (rest: seq<uint8>)
    ensures Negotiation(kind, link) == kind + rest
  {
    rest := Negotiation(kind, link)[|kind|..];
  }

  lemma NrspSplits(p: seq<uint8>) returns (rest: seq<uint8>)
    requires Classify(p) == Nrsp
    ensures p == NRSP + rest
  {
    rest := p[4..];
    assert p == p[..4] + p[4..];
  }

  /**
   * Progress: after any run in which no end has gone down, whatever was lost, repeated or reordered
   * and wherever each end stands, the handshake can still be brought to its end.
   */
  lemma HandshakeFromAnywhere(ca: Config, cb: Config, acts: seq<Action>) returns (more: seq<Action>)
    requires ValidConfig(ca) && ValidConfig(cb) && Run(Begin(ca, cb), acts)
    requires Alive(After(Begin(ca, cb), acts).a) && Alive(After(Begin(ca, cb), acts).b)
    ensures Run(Begin(ca, cb), acts + more)
    ensures var s := After(Begin(ca, cb), acts + more); s.a.state == Active && s.b.state == Active
    ensures Run(After(Begin(ca, cb), acts), more)
    ensures After(After(Begin(ca, cb), acts), more) == After(Begin(ca, cb), acts + more)
    ensures forall act <- more :: Short(act)
  {
    hide Run, After, Classify, PacketOk;
    var s := After(Begin(ca, cb), acts);
    RunKeeps(Begin(ca, cb), acts, ca, cb);
    RunAnswersLate(Begin(ca, cb), acts);
    more := [];
    var t := s;
    NothingYet(s);
    if t.a.state == Uninitialized {
      var step := ConnectsFrom(t, A);
      more, t := Continues(s, more, t, step);
    }
    if t.b.state == Uninitialized {
      var step := ConnectsFrom(t, B);
      more, t := Continues(s, more, t, step);
    }
    if t.a.state == Initialized {
      var step := ActivatesFrom(t, A);
      more, t := Continues(s, more, t, step);
    }
    if t.b.state == Initialized {
      var step := ActivatesFrom(t, B);
      more, t := Continues(s, more, t, step);
    }
    RunAppend(Begin(ca, cb), acts, more);
  }

  lemma NothingYet(s: Session)
    ensures Run(s, []) && After(s, []) == s
  {
  }

  lemma Continues(s: Session, more: seq<Action>, t: Session, step: seq<Action>) returns (more': seq<Action>, t': Session)
    requires Run(s, more) && After(s, more) == t && Run(t, step)
    requires (forall act <- more :: Short(act)) && forall act <- step :: Short(act)
    ensures more' == more + step && t' == After(t, step)
    ensures Run(s, more') && After(s, more') == t'
    ensures forall act <- more' :: Short(act)
  {
    hide Run, After;
    RunAppend(s, more, step);
    more', t' := more + step, After(t, step);
  }

  /** The timer speaks until the link is active, and again when it goes down and the other side understands that. */
  lemma TimerSpeaks(link: Link)
    ensures link.state == Uninitialized ==> OnTimer(link) == [CONN]
    ensures link.state == Initialized ==>
              && |OnTimer(link)| == 1 && Classify(OnTimer(link)[0]) == Nego
              && SizeIn(OnTimer(link)[0]) == link.packetSize && VersionIn(OnTimer(link)[0]) == link.protoVersion % 64
    ensures link.state == Dying ==> OnTimer(link) == if link.protoVersion > 0 then [DISC] else []
    ensures link.state in {Active, Dead} ==> OnTimer(link) == []
  {
    hide Classify, Negotiation, SizeIn, VersionIn, WindowIn;
    NegotiationReadsBack(NEGO, link);
    KindsOf([]);
    assert NEGO + [] == NEGO;
  }

  /** A code says the window that is its power of two; the last one, sent for eight, is read as three. */
  lemma WindowCodes(code: uint8, window: uint8)
    requires code < 4
    ensures DecodeWindow(code) as int == if code == 0 then 1 else if code == 1 then 2 else if code == 2 then 4 else 3
    ensures EncodeWindow(window) == code ==> window as int == [1, 2, 4, 8][code as int] || code == 0
    ensures window as int == [1, 2, 4, 8][code as int] ==> EncodeWindow(window) == code
  {
  }

  /** A disconnect that is not answered ends the link all the same, and waiting ends no link that is not going down. */
  lemma GiveUpEnds(s: Session)
    ensures Run(s, [Disconnect(A), GiveUp(A)]) && After(s, [Disconnect(A), GiveUp(A)]) == s.(a := s.a.(state := Dead))
    ensures s.a.state != Dying ==> Run(s, [GiveUp(A)]) && After(s, [GiveUp(A)]) == s
  {
    var r := [Disconnect(A), GiveUp(A)];
    Unfold(s, r, Do(s, Disconnect(A)));
    Unfold(Do(s, Disconnect(A)), r[1..], Do(Do(s, Disconnect(A)), GiveUp(A)));
    Unfold(s, [GiveUp(A)], Do(s, GiveUp(A)));
  }
}
