/** The ARDP header as bytes: what MarshalHeader writes and what RecvValidateSegment accepts. */
module ArdpWire {
  import opened Bytes
  import opened Ardp
  import opened ArdpNetwork
  import ArdpFifo
  import Seq32

  const ARDP_HEADER_SIZE: nat := 36
  const ARDP_SYN_HEADER_SIZE: nat := 28
  const FLAG_SYN: nat := 0x01
  const FLAG_ACK: nat := 0x02
  const FLAG_RST: nat := 0x08
  const FLAG_NUL: nat := 0x10
  const FLAG_VER: nat := 0x40

  function Octet(x: nat, k: nat): uint8
    requires k < 4
  {
    ((if k == 0 then x else if k == 1 then x / 0x100 else if k == 2 then x / 0x1_0000 else x / 0x100_0000) % 0x100) as uint8
  }

  /** What lies beyond a short datagram reads as zero. */
  function At(b: seq<uint8>, i: nat): nat {
    if i < |b| then b[i] as nat else 0
  }

  function Get16(b: seq<uint8>, i: nat): nat {
    At(b, i) * 0x100 + At(b, i + 1)
  }

  function Get32(b: seq<uint8>, i: nat): nat {
    At(b, i) * 0x100_0000 + At(b, i + 1) * 0x1_0000 + At(b, i + 2) * 0x100 + At(b, i + 3)
  }

  predicate HasFlag(flags: nat, flag: nat)
    requires 0 < flag
  {
    flags / flag % 2 == 1
  }

  /** MarshalHeader: octet i of the header; numbers are stored modulo 2^32 and 2^16. */
  function HeaderOctet(seg: Segment, src: nat, dst: nat, ttl: nat, i: nat): uint8
    requires i < ARDP_HEADER_SIZE
  {
    if i == 0 then (FLAG_ACK + FLAG_VER + if seg.nul then FLAG_NUL else 0) as uint8
    else if i == 1 then (ARDP_HEADER_SIZE / 2) as uint8
    else if i < 4 then Octet(src, 3 - i)
    else if i < 6 then Octet(dst, 5 - i)
    else if i < 8 then Octet(|seg.frag.payload|, 7 - i)
    else if i < 12 then Octet(seg.num, 11 - i)
    else if i < 16 then Octet(seg.ack, 15 - i)
    else if i < 20 then Octet(ttl, 19 - i)
    else if i < 24 then Octet(seg.lcs, 23 - i)
    else if i < 28 then Octet(seg.ackNxt, 27 - i)
    else if i < 32 then Octet(seg.frag.som, 31 - i)
    else if i < 34 then Octet(seg.frag.fcnt, 33 - i)
    else 0
  }

  function Marshal(seg: Segment, src: nat, dst: nat, ttl: nat): seq<uint8> {
    seq(ARDP_HEADER_SIZE, i requires 0 <= i < ARDP_HEADER_SIZE => HeaderOctet(seg, src, dst, ttl, i)) + seg.frag.payload
  }

  datatype Verdict = Reset | Invalid | Syn | Accepted(seg: Segment)

  /** The sequence and fragment checks of RecvValidateSegment, in 32-bit arithmetic. */
  predicate InSequence(nxt: nat, num: nat, ack: nat, lcs: nat, ackNxt: nat, som: nat, fcnt: nat, dlen: nat) {
    && !Seq32.Lt(nxt, ack)
    && !Seq32.Lt(ack, lcs)
    && !(Seq32.Lt(num, ackNxt) || (dlen != 0 && (num - ackNxt) % Seq32.WRAP >= UDP_SEGMAX))
    && !(dlen != 0 && (fcnt == 0 || (num - som) % Seq32.WRAP >= fcnt))
  }

  /** RecvValidateSegment of an endpoint whose SND.NXT is nxt. */
  function Validate(nxt: nat, b: seq<uint8>): Verdict {
    var len, flags, hlen, dlen := |b|, At(b, 0), At(b, 1) * 2, Get16(b, 6);
    var hdrSz := if HasFlag(flags, FLAG_SYN) then ARDP_SYN_HEADER_SIZE else ARDP_HEADER_SIZE;
    if HasFlag(flags, FLAG_RST) then Reset
    else if hlen < hdrSz || len < hdrSz || dlen + hlen != len then Invalid
    else if HasFlag(flags, FLAG_SYN) then Syn
    else
      var num, ack, lcs, ackNxt, som, fcnt := Get32(b, 8), Get32(b, 12), Get32(b, 20), Get32(b, 24), Get32(b, 28), Get16(b, 32);
      if !InSequence(nxt % Seq32.WRAP, num, ack, lcs, ackNxt, som, fcnt, dlen) then Invalid
      else Accepted(Segment(HasFlag(flags, FLAG_NUL), num, ack, lcs, ackNxt,
                            Fragment(som, fcnt, b[ARDP_HEADER_SIZE..ARDP_HEADER_SIZE + dlen])))
  }

  /** What the 16-bit fields can hold. */
  predicate Fits(seg: Segment) {
    seg.frag.fcnt < 0x1_0000 && |seg.frag.payload| < 0x1_0000
  }

  /** What the other side sees of a segment: its numbers modulo 2^32. */
  function Wire(seg: Segment): Segment {
    Segment(seg.nul, seg.num % Seq32.WRAP, seg.ack % Seq32.WRAP, seg.lcs % Seq32.WRAP, seg.ackNxt % Seq32.WRAP,
            Fragment(seg.frag.som % Seq32.WRAP, seg.frag.fcnt, seg.frag.payload))
  }

  /** Less than half the number space apart. */
  predicate Close(a: nat, b: nat) {
    b - Seq32.HALF <= a < b + Seq32.HALF
  }

  /** The numbers that are compared with each other are close, wherever in the number space they are. */
  predicate Comparable(e: Endpoint, seg: Segment) {
    && Close(e.nxt, seg.ack) && Close(seg.ack, seg.lcs) && Close(seg.num, seg.ackNxt)
    && (seg.frag.payload != [] ==> Close(seg.num, seg.frag.som))
  }

  /** A number is its last octet and the number above it. */
  lemma LastOctet(x: nat)
    ensures Octet(x, 0) as nat == x % 0x100 && x == 0x100 * (x / 0x100) + x % 0x100
    ensures Octet(x, 1) == Octet(x / 0x100, 0)
    ensures Octet(x, 2) == Octet(x / 0x1_0000, 0) && x / 0x1_0000 == x / 0x100 / 0x100
    ensures Octet(x, 3) == Octet(x / 0x100_0000, 0) && x / 0x100_0000 == x / 0x1_0000 / 0x100
  {
  }

  lemma Remainder(x: nat, q: nat, s: nat)
    requires x == Seq32.WRAP * q + s && s < Seq32.WRAP
    ensures x % Seq32.WRAP == s
  {
  }

  lemma Octets(x: nat)
    ensures Octet(x, 3) as nat * 0x100_0000 + Octet(x, 2) as nat * 0x1_0000 + Octet(x, 1) as nat * 0x100 + Octet(x, 0) as nat
         == x % Seq32.WRAP
    ensures x < 0x1_0000 ==> Octet(x, 1) as nat * 0x100 + Octet(x, 0) as nat == x
  {
    hide Octet;
    var a, b, c := x / 0x100, x / 0x1_0000, x / 0x100_0000;
    LastOctet(x);
    LastOctet(a);
    LastOctet(b);
    LastOctet(c);
    Remainder(x, c / 0x100, c % 0x100 * 0x100_0000 + b % 0x100 * 0x1_0000 + a % 0x100 * 0x100 + x % 0x100);
  }

  lemma LowOctets(x: nat)
    ensures Octet(x, 1) as nat * 0x100 + Octet(x, 0) as nat == x % 0x1_0000
  {
    LastOctet(x);
    LastOctet(x / 0x100);
    assert x == 0x1_0000 * (x / 0x1_0000) + (x / 0x100 % 0x100 * 0x100 + x % 0x100);
  }

  lemma FieldReadsBack(b: seq<uint8>, i: nat, x: nat)
    requires i + 4 <= |b|
    requires b[i] == Octet(x, 3) && b[i + 1] == Octet(x, 2) && b[i + 2] == Octet(x, 1) && b[i + 3] == Octet(x, 0)
    ensures Get32(b, i) == x % Seq32.WRAP
  {
    hide Octet;
    Octets(x);
  }

  /** Header and payload read back as they were written, numbers modulo 2^32. */
  lemma ReadsBack(seg: Segment, src: nat, dst: nat, ttl: nat)
    requires Fits(seg)
    ensures var b, w := Marshal(seg, src, dst, ttl), Wire(seg);
            && |b| == ARDP_HEADER_SIZE + |seg.frag.payload|
            && At(b, 0) == (if seg.nul then 0x52 else 0x42)
            && At(b, 1) == 18 && Get16(b, 6) == |seg.frag.payload|
            && Get16(b, 2) == src % 0x1_0000 && Get16(b, 4) == dst % 0x1_0000 && Get32(b, 16) == ttl % Seq32.WRAP
            && Get32(b, 8) == w.num && Get32(b, 12) == w.ack && Get32(b, 20) == w.lcs && Get32(b, 24) == w.ackNxt
            && Get32(b, 28) == w.frag.som && Get16(b, 32) == seg.frag.fcnt
            && b[ARDP_HEADER_SIZE..] == seg.frag.payload
  {
    hide Octet, Get32;
    var b := Marshal(seg, src, dst, ttl);
    FieldReadsBack(b, 8, seg.num);
    FieldReadsBack(b, 12, seg.ack);
    FieldReadsBack(b, 20, seg.lcs);
    FieldReadsBack(b, 24, seg.ackNxt);
    FieldReadsBack(b, 28, seg.frag.som);
    FieldReadsBack(b, 16, ttl);
    LowOctets(src);
    LowOctets(dst);
    Octets(seg.frag.fcnt);
    Octets(|seg.frag.payload|);
  }

  /** The checks of a datagram, made on what it carries. */
  predicate Checked(nxt: nat, seg: Segment) {
    var w := Wire(seg);
    InSequence(nxt % Seq32.WRAP, w.num, w.ack, w.lcs, w.ackNxt, w.frag.som, w.frag.fcnt, |w.frag.payload|)
  }

  lemma LtClose(a: nat, b: nat)
    requires Close(a, b)
    ensures Seq32.Lt(a % Seq32.WRAP, b % Seq32.WRAP) <==> a < b
  {
    Seq32.LtExact(a, b);
  }

  /** A difference of close numbers as an unsigned word. */
  lemma WordDifference(a: nat, b: nat)
    requires Close(a, b)
    ensures (a % Seq32.WRAP - b % Seq32.WRAP) % Seq32.WRAP == if a >= b then a - b else a - b + Seq32.WRAP
  {
    Seq32.WrapDifference(a, b);
  }

  /** All checks but the first, which compares with the receiver's own numbers. */
  lemma OwnChecksAgree(seg: Segment)
    requires Fits(seg) && Close(seg.ack, seg.lcs) && Close(seg.num, seg.ackNxt)
    requires seg.frag.payload != [] ==> Close(seg.num, seg.frag.som)
    ensures forall nxt: nat {:trigger Checked(nxt, seg)} ::
              Checked(nxt, seg) <==>
                && !Seq32.Lt(nxt % Seq32.WRAP, seg.ack % Seq32.WRAP) && seg.lcs <= seg.ack && seg.ackNxt <= seg.num
                && (seg.frag.payload != [] ==>
                      && seg.num - seg.ackNxt < UDP_SEGMAX && seg.frag.fcnt != 0
                      && seg.frag.som <= seg.num < seg.frag.som + seg.frag.fcnt)
  {
    hide Seq32.Lt;
    LtClose(seg.ack, seg.lcs);
    LtClose(seg.num, seg.ackNxt);
    WordDifference(seg.num, seg.ackNxt);
    if seg.frag.payload != [] {
      WordDifference(seg.num, seg.frag.som);
    }
  }

  /** The checks in 32-bit arithmetic are the checks on plain numbers, however often the numbers have wrapped. */
  lemma ChecksAgree(e: Endpoint, seg: Segment)
    requires Fits(seg) && Comparable(e, seg)
    ensures Checked(e.nxt, seg) <==> Validates(e, seg)
  {
    hide Seq32.Lt, Checked;
    OwnChecksAgree(seg);
    LtClose(e.nxt, seg.ack);
  }

  /** Whatever was marshalled is accepted as what it carries, or is bad data. */
  lemma CheckedIsAccepted(nxt: nat, seg: Segment, src: nat, dst: nat, ttl: nat)
    requires Fits(seg)
    ensures Validate(nxt, Marshal(seg, src, dst, ttl)) == if Checked(nxt, seg) then Accepted(Wire(seg)) else Invalid
  {
    hide Marshal, Get16, Get32, At, InSequence;
    ReadsBack(seg, src, dst, ttl);
    var b := Marshal(seg, src, dst, ttl);
    assert b[ARDP_HEADER_SIZE..ARDP_HEADER_SIZE + |seg.frag.payload|] == seg.frag.payload;
  }

  /** A marshalled segment is accepted, field for field, iff its numbers pass the sequence checks. */
  lemma ValidateExact(e: Endpoint, seg: Segment, src: nat, dst: nat, ttl: nat)
    requires Fits(seg) && Comparable(e, seg)
    ensures Validate(e.nxt, Marshal(seg, src, dst, ttl)) == if Validates(e, seg) then Accepted(Wire(seg)) else Invalid
  {
    hide Marshal, Validate, Checked, Validates, Comparable;
    CheckedIsAccepted(e.nxt, seg, src, dst, ttl);
    ChecksAgree(e, seg);
  }

  /**
   * What the flags and lengths decide before any number is looked at: a reset is always one; anything
   * else is bad data unless header and payload make up the datagram and the header has at least 28
   * octets for a SYN segment and 36 for any other.
   */
  lemma LengthsExact(nxt: nat, b: seq<uint8>)
    requires |b| >= 8
    ensures var rst, syn := b[0] as nat / 8 % 2 == 1, b[0] as nat % 2 == 1;
            var hlen, dlen := b[1] as nat * 2, b[6] as nat * 0x100 + b[7] as nat;
            && (Validate(nxt, b) == Reset <==> rst)
            && (Validate(nxt, b) == Syn <==> !rst && syn && 28 <= hlen && hlen + dlen == |b|)
            && (Validate(nxt, b).Accepted? ==>
                  && !rst && !syn && 36 <= hlen && hlen + dlen == |b|
                  && |Validate(nxt, b).seg.frag.payload| == dlen && Validate(nxt, b).seg.nul == (b[0] as nat / 16 % 2 == 1))
  {
    hide Get32, InSequence;
  }

  // ---------------------------------------------------------------- over runs

  /** The numbers inside one segment are never far apart, wherever the connection started. */
  lemma EmittedIsClose(states: seq<Network>, seg: Segment)
    requires Run(states) && seg in states[|states| - 1].a.emitted
    ensures Fits(seg) && Close(seg.ack, seg.lcs) && Close(seg.num, seg.ackNxt)
    ensures seg.frag.payload != [] ==> Close(seg.num, seg.frag.som)
    ensures states[|states| - 1].b.iss <= seg.lcs <= seg.ack <= states[|states| - 1].b.ep.nxt
    ensures seg.frag.som <= seg.num && seg.ackNxt <= seg.num <= states[|states| - 1].a.ep.nxt
  {
    hide MessagesMatch, Stream;
    RunKeeps(states);
    NothingRejected(states, seg);
    assert SegmentOf(seg, states[|states| - 1].a);
  }

  /**
   * In every run, from any initial numbers and after any number of wraps: what one side emitted
   * is accepted by the other as what it carries, exactly while its ACK is less than half the
   * number space old.
   */
  lemma EmittedIsAccepted(states: seq<Network>, seg: Segment, src: nat, dst: nat, ttl: nat)
    requires Run(states) && seg in states[|states| - 1].a.emitted
    ensures var nxt := states[|states| - 1].b.ep.nxt;
            Validate(nxt, Marshal(seg, src, dst, ttl)) ==
              if (nxt - seg.ack) % Seq32.WRAP < Seq32.HALF then Accepted(Wire(seg)) else Invalid
  {
    hide Validate, Marshal, Checked;
    var nxt := states[|states| - 1].b.ep.nxt;
    EmittedIsClose(states, seg);
    OwnChecksAgree(seg);
    NothingRejected(states, seg);
    CheckedIsAccepted(nxt, seg, src, dst, ttl);
    Seq32.WrapDifference(nxt, seg.ack);
  }

  /** So a timely segment always is, in a run of any length. */
  lemma TimelyIsAccepted(states: seq<Network>, seg: Segment, src: nat, dst: nat, ttl: nat)
    requires Run(states) && seg in states[|states| - 1].a.emitted && Timely(states[|states| - 1].b, seg)
    ensures Validate(states[|states| - 1].b.ep.nxt, Marshal(seg, src, dst, ttl)) == Accepted(Wire(seg))
  {
    hide Validate, Marshal, Wire;
    NothingRejected(states, seg);
    EmittedIsAccepted(states, seg, src, dst, ttl);
  }

  /**
   * And so is every segment, however late, while the other side has sent less than half a
   * number space; field for field as it was sent if the numbers have not wrapped.
   */
  lemma ShortRunIsAccepted(states: seq<Network>, seg: Segment, src: nat, dst: nat, ttl: nat)
    requires Run(states) && seg in states[|states| - 1].a.emitted
    requires states[|states| - 1].b.ep.nxt - states[|states| - 1].b.iss < Seq32.HALF
    ensures var n, v := states[|states| - 1], Validate(states[|states| - 1].b.ep.nxt, Marshal(seg, src, dst, ttl));
            v == Accepted(Wire(seg)) && (n.a.ep.nxt < Seq32.WRAP && n.b.ep.nxt < Seq32.WRAP ==> v == Accepted(seg))
  {
    hide Validate, Marshal;
    EmittedIsClose(states, seg);
    EmittedIsAccepted(states, seg, src, dst, ttl);
  }

  /** Over first-in first-out channels whatever arrives, on either side and after any number of wraps, is accepted. */
  lemma ArrivalsAreAccepted(links: seq<ArdpFifo.Link>, src: nat, dst: nat, ttl: nat)
    requires ArdpFifo.FifoRun(links)
    ensures var l := links[|links| - 1];
            && (l.ab != [] ==> Validate(l.net.b.ep.nxt, Marshal(l.ab[0], src, dst, ttl)) == Accepted(Wire(l.ab[0])))
            && (l.ba != [] ==> Validate(l.net.a.ep.nxt, Marshal(l.ba[0], src, dst, ttl)) == Accepted(Wire(l.ba[0])))
  {
    hide Validate, Marshal, Wire, Next, Init, ArdpFifo.FifoNext, Timely;
    var l, nets := links[|links| - 1], ArdpFifo.Nets(links);
    ArdpFifo.FifoRefines(links);
    RunMirrors(nets);
    ArdpFifo.HeadsAreTimely(links);
    assert Mirrored(nets)[|nets| - 1] == Mirror(l.net);
    if l.ab != [] {
      TimelyIsAccepted(nets, l.ab[0], src, dst, ttl);
    }
    if l.ba != [] {
      TimelyIsAccepted(Mirrored(nets), l.ba[0], src, dst, ttl);
    }
  }
}
