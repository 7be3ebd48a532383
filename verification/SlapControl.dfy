/**
 * Bringing up the link over frames: the packets of the handshake travel as control frames
 * between two receivers, and the link does what `LinkNegotiation` says.
 */
module SlapControl {
  import opened Bytes
  import opened LinkNegotiation
  import SerialRx

  /** Both receivers, and every link packet each end has ever put on the line. */
  datatype Ends = Ends(a: SerialRx.Receiver, b: SerialRx.Receiver, fromA: set<seq<uint8>>, fromB: set<seq<uint8>>)

  /** The handshake as the two links see it. */
  function Links(e: Ends): Session {
    Session(e.a.link, e.b.link, e.fromA, e.fromB)
  }

  /** The link packets among the calls made to the transmit side since there were n. */
  function Enqueued(sent: seq<SerialRx.Notice>, n: nat): set<seq<uint8>>
    requires n <= |sent|
  {
    set i | n <= i < |sent| && sent[i].EnqueueCtrl? :: sent[i].packet
  }

  /** An action of the handshake, with the frame that carries the packet if one arrives. */
  datatype Step = Step(act: Action, frame: seq<bv8>)

  predicate Carried(e: Ends, step: Step) {
    Possible(Links(e), step.act) && (step.act.Deliver? ==> SerialRx.ControlFrame(step.frame, step.act.packet))
  }

  function Acts(r: SerialRx.Receiver, sent: set<seq<uint8>>, step: Step): (SerialRx.Receiver, set<seq<uint8>>)
    requires step.act.Deliver? ==> |r.sent| <= |SerialRx.OnFrame(r, step.frame).sent|
  {
    match step.act
    case Timer(_) => (r, sent + Elements(OnTimer(r.link)))
    case Deliver(_, _) =>
      var next := SerialRx.OnFrame(r, step.frame);
      (next, sent + Enqueued(next.sent, |r.sent|))
    case Disconnect(_) => (r.(link := Disconnected(r.link)), sent)
    case GiveUp(_) => (r.(link := GivenUp(r.link)), sent)
  }

  lemma SentGrows(r: SerialRx.Receiver, f: seq<bv8>)
    ensures |r.sent| <= |SerialRx.OnFrame(r, f).sent|
  {
    hide SerialRx.Acceptable, SerialRx.LengthIn, SerialRx.SeqIn, SerialRx.AckIn, SerialRx.TypeIn, OnPacket;
  }

  function Apply(e: Ends, step: Step): Ends {
    SentGrows(e.a, step.frame);
    SentGrows(e.b, step.frame);
    if Actor(step.act) == A then
      var (r, sent) := Acts(e.a, e.fromA, step);
      e.(a := r, fromA := sent)
    else
      var (r, sent) := Acts(e.b, e.fromB, step);
      e.(b := r, fromB := sent)
  }

  predicate Happens(e: Ends, steps: seq<Step>)
    decreases |steps|
  {
    steps == [] || (Carried(e, steps[0]) && Happens(Apply(e, steps[0]), steps[1..]))
  }

  function Finally(e: Ends, steps: seq<Step>): Ends
    decreases |steps|
  {
    if steps == [] then e else Finally(Apply(e, steps[0]), steps[1..])
  }

  function ActsOf(steps: seq<Step>): seq<Action> {
    if steps == [] then [] else [steps[0].act] + ActsOf(steps[1..])
  }

  // ---------------------------------------------------------------- frames carry the handshake

  lemma EnqueuedAre(r: SerialRx.Receiver, f: seq<bv8>, packet: seq<uint8>)
    requires SerialRx.ControlFrame(f, packet)
    ensures |r.sent| <= |SerialRx.OnFrame(r, f).sent|
    ensures Enqueued(SerialRx.OnFrame(r, f).sent, |r.sent|) == Elements(OnPacket(r.link, packet).1)
  {
    hide SerialRx.OnFrame, SerialRx.ControlFrame, OnPacket;
    SerialRx.ControlAnswered(r, f, packet);
    var next, replies := SerialRx.OnFrame(r, f), OnPacket(r.link, packet).1;
    forall p | p in replies ensures p in Enqueued(next.sent, |r.sent|) {
      var i :| 0 <= i < |replies| && replies[i] == p;
      assert next.sent[|r.sent| + i] == SerialRx.EnqueueCtrl(p);
    }
    forall p | p in Enqueued(next.sent, |r.sent|) ensures p in replies {
      var i :| |r.sent| <= i < |next.sent| && next.sent[i].EnqueueCtrl? && next.sent[i].packet == p;
      assert next.sent[|r.sent| + (i - |r.sent|)] == SerialRx.EnqueueCtrl(replies[i - |r.sent|]);
    }
  }

  /** One receiver does with a frame what its link does with the packet, and nothing to its data. */
  lemma ActsRefine(r: SerialRx.Receiver, sent: set<seq<uint8>>, step: Step)
    requires step.act.Deliver? ==> SerialRx.ControlFrame(step.frame, step.act.packet)
    ensures step.act.Deliver? ==> |r.sent| <= |SerialRx.OnFrame(r, step.frame).sent|
    ensures var (next, more) := Acts(r, sent, step);
            && (next.link, more) == Local(r.link, sent, step.act)
            && next.queue == r.queue && next.expected == r.expected && next.free == r.free
  {
    hide SerialRx.OnFrame, SerialRx.ControlFrame, OnPacket, OnTimer, Enqueued;
    if step.act.Deliver? {
      SerialRx.ControlAnswered(r, step.frame, step.act.packet);
      EnqueuedAre(r, step.frame, step.act.packet);
    }
  }

  predicate SameData(r: SerialRx.Receiver, s: SerialRx.Receiver) {
    r.queue == s.queue && r.expected == s.expected && r.free == s.free
  }

  lemma StepRefines(e: Ends, step: Step)
    requires Carried(e, step)
    ensures Links(Apply(e, step)) == Do(Links(e), step.act)
    ensures SameData(Apply(e, step).a, e.a) && SameData(Apply(e, step).b, e.b)
  {
    hide SerialRx.OnFrame, SerialRx.ControlFrame, Local, Acts;
    ActsRefine(e.a, e.fromA, step);
    ActsRefine(e.b, e.fromB, step);
  }

  /** Whatever the two receivers do with control frames is a run of the handshake between their links. */
  lemma {:induction false} FramesRefine(e: Ends, steps: seq<Step>)
    requires Happens(e, steps)
    ensures Run(Links(e), ActsOf(steps)) && After(Links(e), ActsOf(steps)) == Links(Finally(e, steps))
    ensures SameData(Finally(e, steps).a, e.a) && SameData(Finally(e, steps).b, e.b)
    decreases |steps|
  {
    hide Apply, Do, Possible, SerialRx.ControlFrame;
    if steps != [] {
      var acts := ActsOf(steps);
      assert acts[0] == steps[0].act && acts[1..] == ActsOf(steps[1..]);
      StepRefines(e, steps[0]);
      FramesRefine(Apply(e, steps[0]), steps[1..]);
      Unfold(Links(e), acts, Links(Apply(e, steps[0])));
    }
  }

  predicate Sendable(act: Action) {
    act.Deliver? ==> |act.packet| < 0x1_0000
  }

  /** And every run of the handshake can be carried by frames. */
  lemma {:induction false} FramesFor(e: Ends, acts: seq<Action>) returns (steps: seq<Step>)
    requires Run(Links(e), acts) && forall act <- acts :: Sendable(act)
    ensures Happens(e, steps) && ActsOf(steps) == acts
    decreases |acts|
  {
    hide Apply, Do, SerialRx.ControlFrame;
    steps := [];
    if acts != [] {
      var frame := [];
      assert Sendable(acts[0]);
      if acts[0].Deliver? {
        frame := SerialRx.ControlFrameExists(acts[0].packet);
      }
      var step := Step(acts[0], frame);
      StepRefines(e, step);
      var rest := FramesFor(Apply(e, step), acts[1..]);
      steps := [step] + rest;
      assert steps[1..] == rest;
    }
  }

  // ---------------------------------------------------------------- the handshake over frames

  lemma ShortIsSendable(acts: seq<Action>)
    requires forall act <- acts :: Short(act)
    ensures forall act <- acts :: Sendable(act)
  {
    forall act | act in acts ensures Sendable(act) {
      assert Short(act);
    }
  }

  /**
   * Two receivers with any valid configurations exchange control frames, with any losses, repetitions
   * and delays: as long as no end has gone down, more frames make both links active, and none of them
   * touches what waits to be read.
   */
  lemma HandshakeOverFrames(e: Ends, ca: Config, cb: Config, steps: seq<Step>) returns (more: seq<Step>)
    requires ValidConfig(ca) && ValidConfig(cb) && Links(e) == Begin(ca, cb) && Happens(e, steps)
    requires Alive(Finally(e, steps).a.link) && Alive(Finally(e, steps).b.link)
    ensures Happens(Finally(e, steps), more)
    ensures var t := Finally(Finally(e, steps), more);
            t.a.link.state == Active && t.b.link.state == Active && SameData(t.a, e.a) && SameData(t.b, e.b)
  {
    hide Happens, Finally, Run, After, Alive;
    FramesRefine(e, steps);
    var acts := HandshakeFromAnywhere(ca, cb, ActsOf(steps));
    ShortIsSendable(acts);
    more := FramesFor(Finally(e, steps), acts);
    FramesRefine(Finally(e, steps), more);
  }
}
