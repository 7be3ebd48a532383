/**
 * The serial link from end to end: the bytes given to the sender, cut into packets, numbered
 * modulo eight, resent over a line that loses and damages frames, checked, queued and read.
 */
module SlapStream {
  import opened Bytes
  import LinkNegotiation
  import SerialRx
  import opened SlapWindow

  /** Both ends: the packets the sender has filled, the line, the receiver and what has been read from it. */
  datatype Session = Session(chunks: seq<seq<bv8>>, line: Line, rx: SerialRx.Receiver, returned: seq<bv8>)

  datatype Action =
    | Give(chunk: seq<bv8>)         // AJ_SerialSend fills one packet
    | OnLine(e: Event)              // sending, resending, losing and acknowledging
    | FrameArrives(f: seq<bv8>)     // the oldest frame on the line, as it was sent
    | NoiseArrives(f: seq<bv8>)     // anything that fails the checks
    | Read(n: nat)                  // one turn of AJ_SerialRecv

  /** A frame built for packet n. */
  predicate Carries(f: seq<bv8>, n: nat, chunk: seq<bv8>) {
    SerialRx.DataFrame(f, n % 8) && SerialRx.Payload(f) == chunk
  }

  predicate Enabled(s: Session, a: Action, window: nat) {
    match a
    case OnLine(e) => !e.Queue? && !e.Arrive? && Possible(s.line, e, window)
    case FrameArrives(f) =>
      s.line.data != [] && s.line.data[0] < |s.chunks| && Carries(f, s.line.data[0], s.chunks[s.line.data[0]])
    case NoiseArrives(f) => !SerialRx.Acceptable(f)
    case _ => true
  }

  function Do(s: Session, a: Action, window: nat): Session
    requires Enabled(s, a, window)
  {
    match a
    case Give(chunk) => s.(chunks := s.chunks + [chunk], line := Apply(s.line, Queue, window))
    case OnLine(e) => s.(line := Apply(s.line, e, window))
    case FrameArrives(f) => s.(line := Apply(s.line, Arrive(s.rx.free > 0), window), rx := SerialRx.OnFrame(s.rx, f))
    case NoiseArrives(f) => s.(rx := SerialRx.OnFrame(s.rx, f))
    case Read(n) =>
      var (got, rest) := SerialRx.Take(s.rx, n);
      s.(rx := rest, returned := s.returned + got)
  }

  predicate Session0(s: Session) {
    && s.chunks == [] && s.line == IDLE && s.returned == []
    && s.rx.link.state == LinkNegotiation.Active && s.rx.expected == 0 && s.rx.queue == []
  }

  predicate Happens(s: Session, actions: seq<Action>, window: nat)
    decreases |actions|
  {
    actions == [] || (Enabled(s, actions[0], window) && Happens(Do(s, actions[0], window), actions[1..], window))
  }

  function Finally(s: Session, actions: seq<Action>, window: nat): Session
    requires Happens(s, actions, window)
    decreases |actions|
  {
    if actions == [] then s else Finally(Do(s, actions[0], window), actions[1..], window)
  }

  // ---------------------------------------------------------------- the invariant

  /** The receiver has taken the packets before `expected`, and what it has not handed out is queued. */
  predicate InStep(s: Session) {
    && |s.chunks| == s.line.next && s.line.expected <= s.line.next
    && s.rx.link.state == LinkNegotiation.Active && s.rx.expected == s.line.expected % 8
    && s.returned + Concat(s.rx.queue) == Concat(s.chunks[..s.line.expected])
  }

  lemma TakenIsNext(l: Line, room: bool, window: nat)
    requires window <= 7 && Inv(l, window) && l.data != []
    ensures Takes(l, room) <==> l.data[0] == l.expected && room
    ensures l.data[0] < l.next
  {
    hide AcksOk;
    ArriveKeeps(l.data, l.base, l.expected, window);
    WindowDecides(l.data[0], l.expected, window);
  }

  lemma FrameKeeps(s: Session, f: seq<bv8>, window: nat)
    requires window <= 7 && Inv(s.line, window) && InStep(s) && Enabled(s, FrameArrives(f), window)
    ensures InStep(Do(s, FrameArrives(f), window))
  {
    hide Inv, Concat, Takes, SerialRx.OnFrame, SerialRx.OnData, SerialRx.TypeIn, SerialRx.SeqIn, SerialRx.AckIn;
    var n, heard := s.line.data[0], s.rx.(sent := s.rx.sent + [SerialRx.ReceivedAck(SerialRx.AckIn(f))]);
    TakenIsNext(s.line, s.rx.free > 0, window);
    SerialRx.DataIsAnswered(s.rx, f, n % 8);
    OnDataTakes(heard, n % 8, s.chunks[n]);
    TakesModulo(s.line, s.rx.free > 0);
    if Takes(s.line, s.rx.free > 0) {
      ExtendsStream(s.returned, s.rx.queue, s.chunks, n);
    }
  }

  lemma TakesModulo(l: Line, room: bool)
    requires l.data != []
    ensures Takes(l, room) <==> l.data[0] % 8 == l.expected % 8 && room
  {
  }

  lemma OnDataTakes(r: SerialRx.Receiver, seqNum: nat, payload: seq<bv8>)
    ensures var next := SerialRx.OnData(r, seqNum, payload);
            && next.link == r.link
            && if seqNum == r.expected && r.free > 0 then next.queue == r.queue + [payload] && next.expected == (r.expected + 1) % 8
               else next.queue == r.queue && next.expected == r.expected
  {
    hide SlapWindow.SeqGt;
  }

  lemma ExtendsStream(returned: seq<bv8>, queue: seq<seq<bv8>>, chunks: seq<seq<bv8>>, n: nat)
    requires n < |chunks| && returned + Concat(queue) == Concat(chunks[..n])
    ensures returned + Concat(queue + [chunks[n]]) == Concat(chunks[..n + 1])
  {
    hide Concat;
    SerialRx.ConcatOne(queue, chunks[n]);
    SerialRx.ConcatOne(chunks[..n], chunks[n]);
    assert chunks[..n + 1] == chunks[..n] + [chunks[n]];
    assert returned + (Concat(queue) + chunks[n]) == returned + Concat(queue) + chunks[n];
  }

  lemma ReadKeeps(s: Session, n: nat, window: nat)
    requires InStep(s)
    ensures InStep(Do(s, Read(n), window))
  {
    hide SerialRx.Take, Concat;
    SerialRx.TakeConserves(s.rx, n);
    var (got, rest) := SerialRx.Take(s.rx, n);
    assert s.returned + (got + Concat(rest.queue)) == s.returned + got + Concat(rest.queue);
  }

  lemma EventKeeps(s: Session, e: Event, window: nat)
    requires InStep(s) && Enabled(s, OnLine(e), window)
    ensures InStep(Do(s, OnLine(e), window))
  {
    hide Concat, Release, Without;
  }

  lemma ActionKeeps(s: Session, a: Action, window: nat)
    requires window <= 7 && Inv(s.line, window) && InStep(s) && Enabled(s, a, window)
    ensures Inv(Do(s, a, window).line, window) && InStep(Do(s, a, window))
  {
    hide Inv, Concat, SerialRx.Take, SerialRx.Acceptable, SerialRx.DataFrame;
    match a {
      case Give(chunk) =>
        StepKeeps(s.line, Queue, window);
        assert (s.chunks + [chunk])[..s.line.expected] == s.chunks[..s.line.expected];
      case OnLine(e) =>
        StepKeeps(s.line, e, window);
        EventKeeps(s, e, window);
      case FrameArrives(f) =>
        StepKeeps(s.line, Arrive(s.rx.free > 0), window);
        FrameKeeps(s, f, window);
      case NoiseArrives(f) =>
      case Read(n) =>
        ReadKeeps(s, n, window);
    }
  }

  lemma {:induction false} AlwaysInStep(s: Session, actions: seq<Action>, window: nat)
    requires window <= 7 && Inv(s.line, window) && InStep(s) && Happens(s, actions, window)
    ensures InStep(Finally(s, actions, window))
    decreases |actions|
  {
    hide Inv, InStep, Do, Enabled;
    if actions != [] {
      ActionKeeps(s, actions[0], window);
      AlwaysInStep(Do(s, actions[0], window), actions[1..], window);
    }
  }

  /** What has been read, and what waits to be read, is what was given, up to the packets not yet taken. */
  lemma SessionConserves(s: Session, actions: seq<Action>, window: nat)
    requires window <= 7 && Session0(s) && Happens(s, actions, window)
    ensures var t := Finally(s, actions, window);
            && t.line.expected <= |t.chunks|
            && t.returned + Concat(t.rx.queue) + Concat(t.chunks[t.line.expected..]) == Concat(t.chunks)
            && t.returned <= Concat(t.chunks)
  {
    hide Happens, Finally, Concat;
    assert s.chunks[..0] == [];
    StartsInStep(s);
    AlwaysInStep(s, actions, window);
    var t := Finally(s, actions, window);
    ConcatAppend(t.chunks[..t.line.expected], t.chunks[t.line.expected..]);
    assert t.chunks == t.chunks[..t.line.expected] + t.chunks[t.line.expected..];
  }

  lemma StartsInStep(s: Session)
    requires Session0(s)
    ensures InStep(s) && forall window :: Inv(s.line, window)
  {
    assert s.chunks[..0] == [];
    assert s.returned + Concat(s.rx.queue) == [];
  }
}
