/**
 * The reliable part of the serial link between two endpoints: packets are numbered modulo
 * eight and resent until acknowledged, over a line that keeps order but may lose any frame.
 */
module SlapWindow {
  /** SEQ_GT: s1 is ahead of s2 by at most a window, modulo eight. */
  predicate SeqGt(s1: nat, s2: nat, window: nat) {
    (7 + s1 - s2) % 8 < window
  }

  /**
   * The sender holds packets base, .., next - 1, of which those before sent are on txSent
   * and the rest on txQueue; the receiver has taken packets 0, .., expected - 1. The line
   * holds packet numbers, and in the other direction acknowledgements; both are known to
   * the endpoints modulo eight only. took lists what the receiver took.
   */
  datatype Line = Line(base: nat, sent: nat, next: nat, data: seq<nat>, expected: nat, acks: seq<nat>, took: seq<nat>)

  datatype Event =
    | Queue
    | Transmit
    | Resend
    | LoseData(i: nat)
    | LoseAck(i: nat)
    | Arrive(room: bool)
    | SendAck
    | AckArrives

  function Without(s: seq<nat>, i: nat): seq<nat>
    requires i < |s|
  {
    s[..i] + s[i + 1..]
  }

  /** AJ_SerialTx_ReceivedAck: sent packets are released as long as the acknowledgement is ahead of them. */
  function Release(base: nat, sent: nat, ack: nat, window: nat): nat
    decreases sent - base
  {
    if base < sent && SeqGt(ack, base % 8, window) then Release(base + 1, sent, ack, window) else base
  }

  predicate Possible(l: Line, e: Event, window: nat) {
    match e
    case Transmit => l.sent < l.next && l.sent - l.base < window
    case LoseData(i) => i < |l.data|
    case LoseAck(i) => i < |l.acks|
    case Arrive(_) => l.data != []
    case AckArrives => l.acks != []
    case _ => true
  }

  /** A frame is taken when its number modulo eight is the expected one and a packet is free. */
  predicate Takes(l: Line, room: bool)
    requires l.data != []
  {
    l.data[0] % 8 == l.expected % 8 && room
  }

  function Apply(l: Line, e: Event, window: nat): Line
    requires Possible(l, e, window)
  {
    match e
    case Queue => l.(next := l.next + 1)
    case Transmit => l.(data := l.data + [l.sent], sent := l.sent + 1)
    case Resend => l.(sent := l.base)
    case LoseData(i) => l.(data := Without(l.data, i))
    case LoseAck(i) => l.(acks := Without(l.acks, i))
    case Arrive(room) =>
      if Takes(l, room) then l.(data := l.data[1..], expected := l.expected + 1, took := l.took + [l.data[0]])
      else l.(data := l.data[1..])
    case SendAck => l.(acks := l.acks + [l.expected])
    case AckArrives => l.(base := Release(l.base, l.sent, l.acks[0] % 8, window), acks := l.acks[1..])
  }

  predicate Run(l: Line, events: seq<Event>, window: nat)
    decreases |events|
  {
    events == [] || (Possible(l, events[0], window) && Run(Apply(l, events[0], window), events[1..], window))
  }

  function After(l: Line, events: seq<Event>, window: nat): Line
    requires Run(l, events, window)
    decreases |events|
  {
    if events == [] then l else After(Apply(l, events[0], window), events[1..], window)
  }

  const IDLE := Line(0, 0, 0, [], 0, [], [])

  // ---------------------------------------------------------------- the invariant

  /** No frame on the line is a window or more behind one sent before it, or behind what has been taken. */
  predicate DataOk(data: seq<nat>, base: nat, expected: nat, window: nat) {
    && (forall j :: 0 <= j < |data| ==> data[j] < base + window && expected <= data[j] + window)
    && (forall i, j :: 0 <= i < j < |data| ==> data[i] < data[j] + window)
  }

  predicate AcksOk(acks: seq<nat>, base: nat, expected: nat) {
    && (forall j :: 0 <= j < |acks| ==> base <= acks[j] <= expected)
    && (forall i, j :: 0 <= i < j < |acks| ==> acks[i] <= acks[j])
  }

  predicate Inv(l: Line, window: nat) {
    && l.base <= l.sent <= l.next && l.sent <= l.base + window
    && l.base <= l.expected <= l.base + window && l.expected <= l.next
    && (forall j :: 0 <= j < |l.data| ==> l.data[j] < l.next)
    && DataOk(l.data, l.base, l.expected, window)
    && AcksOk(l.acks, l.base, l.expected)
    && |l.took| == l.expected && (forall k :: 0 <= k < |l.took| ==> l.took[k] == k)
  }

  /** Numbers within seven of each other are told apart modulo eight. */
  lemma WindowDecides(n: nat, e: nat, window: nat)
    requires window <= 7 && e <= n + window && n < e + window
    ensures n % 8 == e % 8 <==> n == e
  {
  }

  lemma Ahead(ack: nat, base: nat, window: nat)
    requires window <= 7 && base <= ack <= base + window
    ensures SeqGt(ack % 8, base % 8, window) <==> base < ack
  {
    var k := ack / 8 - base / 8;
    assert ack % 8 - base % 8 == ack - base - 8 * k && (k == 0 || k == 1);
    assert (7 + ack % 8 - base % 8) % 8 == (7 + ack - base) % 8;
  }

  /** An acknowledgement releases exactly the sent packets it covers. */
  lemma {:induction false} ReleaseExact(base: nat, sent: nat, ack: nat, window: nat)
    requires window <= 7 && base <= ack <= base + window && base <= sent
    ensures Release(base, sent, ack % 8, window) == if ack < sent then ack else sent
    decreases sent - base
  {
    hide SeqGt;
    Ahead(ack, base, window);
    if base < sent && base < ack {
      ReleaseExact(base + 1, sent, ack, window);
    }
  }

  lemma TransmitKeeps(data: seq<nat>, n: nat, base: nat, expected: nat, window: nat)
    requires DataOk(data, base, expected, window) && base <= n < base + window && expected <= base + window
    ensures DataOk(data + [n], base, expected, window)
  {
  }

  lemma LossKeeps(s: seq<nat>, i: nat, base: nat, expected: nat, window: nat)
    requires i < |s|
    ensures DataOk(s, base, expected, window) ==> DataOk(Without(s, i), base, expected, window)
    ensures AcksOk(s, base, expected) ==> AcksOk(Without(s, i), base, expected)
    ensures forall j :: 0 <= j < |s| - 1 ==> Without(s, i)[j] in s
  {
  }

  lemma ArriveKeeps(data: seq<nat>, base: nat, expected: nat, window: nat)
    requires data != [] && DataOk(data, base, expected, window)
    ensures DataOk(data[1..], base, expected, window)
    ensures data[0] == expected ==> DataOk(data[1..], base, expected + 1, window)
    ensures data[0] < base + window && expected <= data[0] + window
  {
  }

  lemma AckKeeps(acks: seq<nat>, base: nat, expected: nat, released: nat)
    requires acks != [] && AcksOk(acks, base, expected) && base <= released <= acks[0]
    ensures AcksOk(acks[1..], released, expected) && acks[0] <= expected
  {
  }

  lemma BaseMoves(data: seq<nat>, base: nat, released: nat, expected: nat, window: nat)
    requires DataOk(data, base, expected, window) && base <= released
    ensures DataOk(data, released, expected, window)
  {
  }

  lemma SendAckKeeps(acks: seq<nat>, base: nat, expected: nat)
    requires AcksOk(acks, base, expected) && base <= expected
    ensures AcksOk(acks + [expected], base, expected)
    ensures AcksOk(acks, base, expected + 1)
  {
  }

  lemma StepKeeps(l: Line, e: Event, window: nat)
    requires window <= 7 && Inv(l, window) && Possible(l, e, window)
    ensures Inv(Apply(l, e, window), window)
  {
    hide Release, DataOk, AcksOk, Without;
    match e {
      case Transmit =>
        TransmitKeeps(l.data, l.sent, l.base, l.expected, window);
      case LoseData(i) =>
        LossKeeps(l.data, i, l.base, l.expected, window);
        WithoutShorter(l.data, i);
      case LoseAck(i) =>
        LossKeeps(l.acks, i, l.base, l.expected, window);
      case Arrive(room) =>
        ArriveKeeps(l.data, l.base, l.expected, window);
        WindowDecides(l.data[0], l.expected, window);
        SendAckKeeps(l.acks, l.base, l.expected);
      case SendAck =>
        SendAckKeeps(l.acks, l.base, l.expected);
      case AckArrives =>
        assert l.base <= l.acks[0] <= l.expected by { FirstAck(l.acks, l.base, l.expected); }
        ReleaseExact(l.base, l.sent, l.acks[0], window);
        var released := Apply(l, e, window).base;
        AckKeeps(l.acks, l.base, l.expected, released);
        BaseMoves(l.data, l.base, released, l.expected, window);
      case _ =>
    }
  }

  lemma WithoutShorter(s: seq<nat>, i: nat)
    requires i < |s|
    ensures |Without(s, i)| == |s| - 1
  {
  }

  lemma FirstAck(acks: seq<nat>, base: nat, expected: nat)
    requires acks != [] && AcksOk(acks, base, expected)
    ensures base <= acks[0] <= expected
  {
  }

  lemma {:induction false} RunKeeps(l: Line, events: seq<Event>, window: nat)
    requires window <= 7 && Inv(l, window) && Run(l, events, window)
    ensures Inv(After(l, events, window), window)
    decreases |events|
  {
    hide Inv, Apply, Possible;
    if events != [] {
      StepKeeps(l, events[0], window);
      RunKeeps(Apply(l, events[0], window), events[1..], window);
    }
  }

  /** With a window of at most seven the receiver takes every packet once and in order, whatever is lost or resent. */
  lemma TakenInOrder(events: seq<Event>, window: nat)
    requires window <= 7 && Run(IDLE, events, window)
    ensures var l := After(IDLE, events, window);
            |l.took| == l.expected <= l.next && forall k :: 0 <= k < |l.took| ==> l.took[k] == k
  {
    hide After, Run;
    RunKeeps(IDLE, events, window);
  }

  // ---------------------------------------------------------------- the bound is exact

  /** One packet queued, sent and taken, its acknowledgement never seen. */
  const ONE: seq<Event> := [Queue, Transmit, Arrive(true)]

  function Unheard(n: nat): seq<Event> {
    if n == 0 then [] else ONE + Unheard(n - 1)
  }

  function Sent(n: nat, took: seq<nat>): Line {
    Line(0, n, n, [], n, [], took)
  }

  lemma OneRuns(i: nat, took: seq<nat>, more: seq<Event>, window: nat)
    requires i < window && Run(Sent(i + 1, took + [i]), more, window)
    ensures Run(Sent(i, took), ONE + more, window)
    ensures After(Sent(i, took), ONE + more, window) == After(Sent(i + 1, took + [i]), more, window)
  {
    hide Run, After;
    var l := Sent(i, took);
    var l1 := l.(next := i + 1);
    var l2 := l1.(data := [i], sent := i + 1);
    var events := ONE + more;
    assert events[0] == Queue && events[1..][0] == Transmit && events[2..][0] == Arrive(true);
    assert Apply(l, Queue, window) == l1 && Apply(l1, Transmit, window) == l2;
    assert Apply(l2, Arrive(true), window) == Sent(i + 1, took + [i]);
    Unfold(l, events, window);
    Unfold(l1, events[1..], window);
    Unfold(l2, events[2..], window);
    assert events[1..][1..] == events[2..] && events[2..][1..] == more;
  }

  lemma {:induction false} UnheardRuns(i: nat, n: nat, took: seq<nat>, window: nat)
    requires i + n <= window
    ensures Run(Sent(i, took), Unheard(n), window)
    ensures After(Sent(i, took), Unheard(n), window) == Sent(i + n, took + Numbers(i, n))
    decreases n
  {
    hide Run, After, Unheard, Numbers, Sent;
    UnheardStep(i, n, took);
    if n == 0 {
      NoEvents(Sent(i, took), window);
    } else {
      UnheardRuns(i + 1, n - 1, took + [i], window);
      OneRuns(i, took, Unheard(n - 1), window);
    }
  }

  lemma UnheardStep(i: nat, n: nat, took: seq<nat>)
    ensures n == 0 ==> Unheard(n) == [] && took + Numbers(i, n) == took
    ensures n > 0 ==> Unheard(n) == ONE + Unheard(n - 1) && took + [i] + Numbers(i + 1, n - 1) == took + Numbers(i, n)
  {
    assert took + [] == took;
    assert n > 0 ==> took + [i] + Numbers(i + 1, n - 1) == took + ([i] + Numbers(i + 1, n - 1));
  }

  lemma NoEvents(l: Line, window: nat)
    ensures Run(l, [], window) && After(l, [], window) == l
  {
  }

  function Numbers(i: nat, n: nat): (s: seq<nat>)
    ensures |s| == n
    decreases n
  {
    if n == 0 then [] else [i] + Numbers(i + 1, n - 1)
  }

  lemma Unfold(l: Line, events: seq<Event>, window: nat)
    requires events != [] && Possible(l, events[0], window)
    ensures Run(l, events, window) == Run(Apply(l, events[0], window), events[1..], window)
    ensures Run(l, events, window) ==> After(l, events, window) == After(Apply(l, events[0], window), events[1..], window)
  {
  }

  lemma {:induction false} RunAppend(l: Line, a: seq<Event>, b: seq<Event>, window: nat)
    requires Run(l, a, window) && Run(After(l, a, window), b, window)
    ensures Run(l, a + b, window) && After(l, a + b, window) == After(After(l, a, window), b, window)
    decreases |a|
  {
    hide Apply, Possible;
    if a == [] {
      assert a + b == b;
    } else {
      assert (a + b)[1..] == a[1..] + b;
      RunAppend(Apply(l, a[0], window), a[1..], b, window);
    }
  }

  /** With a window of eight a resent packet is taken for a new one. */
  lemma EightRepeats(window: nat) returns (events: seq<Event>)
    requires window >= 8
    ensures Run(IDLE, events, window)
    ensures var l := After(IDLE, events, window); |l.took| == 9 && l.took[8] == 0
  {
    hide Unheard, Numbers;
    UnheardRuns(0, 8, [], window);
    var took := [] + Numbers(0, 8);
    var l := Sent(8, took);
    var again := [Resend, Transmit, Arrive(true)];
    var l1 := l.(sent := 0);
    var l2 := l1.(data := [0], sent := 1);
    var l3 := l2.(data := [], expected := 9, took := took + [0]);
    assert Apply(l, Resend, window) == l1 && Apply(l1, Transmit, window) == l2 && Apply(l2, Arrive(true), window) == l3;
    assert again[1..] == [Transmit, Arrive(true)] && again[1..][1..] == [Arrive(true)];
    Unfold(l, again, window);
    Unfold(l1, again[1..], window);
    Unfold(l2, again[1..][1..], window);
    events := Unheard(8) + again;
    RunAppend(IDLE, Unheard(8), again, window);
  }

  // ---------------------------------------------------------------- answers to repeated packets

  /** A packet seen before is answered with a fresh acknowledgement unless it is as old as eight minus the window. */
  lemma RepeatAnsweredExact(n: nat, e: nat, window: nat)
    requires n < e <= n + window && window <= 7
    ensures !SeqGt(n % 8, e % 8, window) <==> e - n + window < 8
  {
  }

  /** With the largest configured window only the oldest packet of a full window goes unanswered. */
  lemma NewestRepeatAnswered(n: nat, e: nat, window: nat)
    requires n < e <= n + window && window <= 4
    ensures !SeqGt(n % 8, e % 8, window) <==> !(window == 4 && n + 4 == e)
    ensures n + 1 == e ==> !SeqGt(n % 8, e % 8, window)
  {
    RepeatAnsweredExact(n, e, window);
  }

  // ---------------------------------------------------------------- everything can be delivered

  lemma OneStep(l: Line, e: Event, window: nat)
    requires Possible(l, e, window)
    ensures Run(l, [e], window) && After(l, [e], window) == Apply(l, e, window)
  {
    hide Apply, Possible;
    Unfold(l, [e], window);
  }

  /** A line can be emptied by losing what is on it. */
  lemma {:induction false} Empties(l: Line, window: nat) returns (events: seq<Event>)
    ensures Run(l, events, window) && After(l, events, window) == l.(data := [], acks := [])
    decreases |l.data| + |l.acks|
  {
    hide Run, After;
    if l.data != [] {
      OneStep(l, LoseData(0), window);
      var rest := Empties(l.(data := l.data[1..]), window);
      assert Without(l.data, 0) == l.data[1..];
      RunAppend(l, [LoseData(0)], rest, window);
      events := [LoseData(0)] + rest;
    } else if l.acks != [] {
      OneStep(l, LoseAck(0), window);
      var rest := Empties(l.(acks := l.acks[1..]), window);
      assert Without(l.acks, 0) == l.acks[1..];
      RunAppend(l, [LoseAck(0)], rest, window);
      events := [LoseAck(0)] + rest;
    } else {
      events := [];
      NoEvents(l, window);
    }
  }

  /** An idle line: nothing on it, and nothing counted as sent that has not been acknowledged. */
  predicate Idle(l: Line) {
    l.data == [] && l.acks == [] && l.base <= l.expected <= l.next
  }

  /** The oldest packet is sent again, arrives, and its acknowledgement arrives. */
  const ROUND: seq<Event> := [Resend, Transmit, Arrive(true), SendAck, AckArrives]

  lemma RoundRuns(l: Line, window: nat)
    requires 1 <= window <= 7 && Idle(l) && l.base < l.next && l.expected <= l.base + window
    ensures Run(l, ROUND, window)
    ensures var m := After(l, ROUND, window);
            && Idle(m) && m.base == l.base + 1 && m.next == l.next
            && m.expected == (if l.expected == l.base then l.expected + 1 else l.expected)
  {
    hide Run, After, Release;
    var n := if l.expected == l.base then l.expected + 1 else l.expected;
    var l1 := Apply(l, Resend, window);
    var l2 := Apply(l1, Transmit, window);
    assert l2.data == [l.base] && l2.sent == l.base + 1;
    WindowDecides(l.base, l.expected, window);
    var l3 := Apply(l2, Arrive(true), window);
    assert l3.expected == n && l3.data == [];
    var l4 := Apply(l3, SendAck, window);
    assert l4.acks == [n];
    ReleaseExact(l.base, l.base + 1, n, window);
    var l5 := Apply(l4, AckArrives, window);
    Unfold(l, ROUND, window);
    Unfold(l1, ROUND[1..], window);
    Unfold(l2, ROUND[1..][1..], window);
    Unfold(l3, ROUND[1..][1..][1..], window);
    Unfold(l4, ROUND[1..][1..][1..][1..], window);
    assert ROUND[1..][1..][1..][1..][1..] == [];
    NoEvents(l5, window);
  }

  lemma {:induction false} RoundsDeliver(l: Line, window: nat) returns (events: seq<Event>)
    requires 1 <= window <= 7 && Idle(l) && l.expected <= l.base + window
    ensures Run(l, events, window)
    ensures var m := After(l, events, window); m.base == m.expected == m.next == l.next && m.data == [] && m.acks == []
    decreases l.next - l.base
  {
    hide Run, After;
    if l.base < l.next {
      RoundRuns(l, window);
      var rest := RoundsDeliver(After(l, ROUND, window), window);
      RunAppend(l, ROUND, rest, window);
      events := ROUND + rest;
    } else {
      events := [];
      NoEvents(l, window);
    }
  }

  /**
   * Progress: after any run with a window from one to seven, whatever was lost or resent, every packet
   * that has been queued can still be taken and released.
   */
  lemma CanDeliverAll(events: seq<Event>, window: nat) returns (more: seq<Event>)
    requires 1 <= window <= 7 && Run(IDLE, events, window)
    ensures Run(IDLE, events + more, window)
    ensures var l := After(IDLE, events + more, window);
            && l.base == l.expected == l.next == After(IDLE, events, window).next
            && |l.took| == l.next && forall k :: 0 <= k < |l.took| ==> l.took[k] == k
  {
    hide Run, After;
    RunKeeps(IDLE, events, window);
    var l := After(IDLE, events, window);
    var first := Empties(l, window);
    var m := After(l, first, window);
    var rest := RoundsDeliver(m, window);
    RunAppend(l, first, rest, window);
    more := first + rest;
    RunAppend(IDLE, events, more, window);
    TakenInOrder(events + more, window);
  }
}
