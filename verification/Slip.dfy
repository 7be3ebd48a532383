/**
 * The byte-stuffed framing of the serial line and the decoder that has to find the frames
 * again, wherever in the stream it starts.
 */
module Slip {
  const BOUNDARY: bv8 := 0xC0
  const BOUNDARY_SUBSTITUTE: bv8 := 0xDC
  const ESCAPE: bv8 := 0xDB
  const ESCAPE_SUBSTITUTE: bv8 := 0xDD

  /** PKT_STATE together with the bytes decoded so far. */
  datatype Decoder = New | Flush | Open(data: seq<bv8>) | Escaped(data: seq<bv8>)

  /** The decoder after some input, and the frames it passed on. */
  datatype Progress = Progress(decoder: Decoder, frames: seq<seq<bv8>>)

  /** One byte of UART_RxComplete, with max for maxRxFrameSize. */
  function Step(d: Decoder, rx: bv8, max: nat): Progress
    decreases d.Escaped?
  {
    match d
    case Flush => Progress(if rx == BOUNDARY then New else Flush, [])
    case New => Progress(if rx == BOUNDARY then Open([]) else Flush, [])
    case Escaped(data) =>
      if rx == BOUNDARY_SUBSTITUTE then Progress(Open(data + [BOUNDARY]), [])
      else if rx == ESCAPE_SUBSTITUTE then Progress(Open(data + [ESCAPE]), [])
      else Step(New, rx, max)
    case Open(data) =>
      if rx == BOUNDARY then Progress(New, [data])
      else if rx == ESCAPE then Progress(Escaped(data), [])
      else if |data| == max then Progress(New, [])
      else Progress(Open(data + [rx]), [])
  }

  function Decode(d: Decoder, bytes: seq<bv8>, max: nat): Progress
    decreases |bytes|
  {
    if bytes == [] then Progress(d, [])
    else
      var first := Step(d, bytes[0], max);
      var rest := Decode(first.decoder, bytes[1..], max);
      Progress(rest.decoder, first.frames + rest.frames)
  }

  // ---------------------------------------------------------------- the sender's framing

  /** SlipBytes, one byte. */
  function StuffByte(b: bv8): (r: seq<bv8>)
    ensures r != [] && BOUNDARY !in r
  {
    if b == BOUNDARY then [ESCAPE, BOUNDARY_SUBSTITUTE]
    else if b == ESCAPE then [ESCAPE, ESCAPE_SUBSTITUTE]
    else [b]
  }

  function Stuff(data: seq<bv8>): (r: seq<bv8>)
    ensures data != [] ==> r != []
    ensures BOUNDARY !in r
  {
    if data == [] then [] else StuffByte(data[0]) + Stuff(data[1..])
  }

  function Wire(frame: seq<bv8>): seq<bv8> {
    [BOUNDARY] + Stuff(frame) + [BOUNDARY]
  }

  function Stream(frames: seq<seq<bv8>>): seq<bv8> {
    if frames == [] then [] else Wire(frames[0]) + Stream(frames[1..])
  }

  // ---------------------------------------------------------------- cutting the stream

  /** The result does not depend on how the stream is cut into calls. */
  lemma {:induction false} DecodeAppend(d: Decoder, a: seq<bv8>, b: seq<bv8>, max: nat)
    ensures var p := Decode(d, a, max);
            var q := Decode(p.decoder, b, max);
            Decode(d, a + b, max) == Progress(q.decoder, p.frames + q.frames)
    decreases |a|
  {
    hide Step;
    if a == [] {
      assert a + b == b;
    } else {
      assert (a + b)[1..] == a[1..] + b;
      var first := Step(d, a[0], max);
      DecodeAppend(first.decoder, a[1..], b, max);
      var p := Decode(first.decoder, a[1..], max);
      var q := Decode(p.decoder, b, max);
      assert first.frames + (p.frames + q.frames) == (first.frames + p.frames) + q.frames;
    }
  }

  lemma DecodeOne(d: Decoder, b: bv8, max: nat)
    ensures Decode(d, [b], max) == Step(d, b, max)
  {
    hide Step;
    var first := Step(d, b, max);
    assert Decode(first.decoder, [], max) == Progress(first.decoder, []);
    assert first.frames + [] == first.frames;
  }

  // ---------------------------------------------------------------- undoing the stuffing

  lemma StuffByteDecodes(data: seq<bv8>, b: bv8, max: nat)
    requires |data| < max
    ensures Decode(Open(data), StuffByte(b), max) == Progress(Open(data + [b]), [])
  {
    if b == BOUNDARY || b == ESCAPE {
      var s := StuffByte(b);
      DecodeOne(Escaped(data), s[1], max);
      assert s[1..] == [s[1]];
    } else {
      DecodeOne(Open(data), b, max);
    }
  }

  lemma {:induction false} StuffDecodes(data: seq<bv8>, more: seq<bv8>, max: nat)
    requires |data| + |more| <= max
    ensures Decode(Open(data), Stuff(more), max) == Progress(Open(data + more), [])
    decreases |more|
  {
    hide Decode, StuffByte;
    if more == [] {
      assert data + more == data;
      DecodeNothing(Open(data), max);
    } else {
      StuffByteDecodes(data, more[0], max);
      StuffDecodes(data + [more[0]], more[1..], max);
      DecodeAppend(Open(data), StuffByte(more[0]), Stuff(more[1..]), max);
      assert data + [more[0]] + more[1..] == data + more;
    }
  }

  lemma DecodeNothing(d: Decoder, max: nat)
    ensures Decode(d, [], max) == Progress(d, [])
  {
  }

  lemma {:induction false} FlushesOn(bytes: seq<bv8>, max: nat)
    requires BOUNDARY !in bytes
    ensures Decode(Flush, bytes, max) == Progress(Flush, [])
    decreases |bytes|
  {
    if bytes != [] {
      FlushesOn(bytes[1..], max);
    }
  }

  lemma DecodeThree(d: Decoder, a: bv8, s: seq<bv8>, b: bv8, max: nat)
    ensures var p := Step(d, a, max);
            var q := Decode(p.decoder, s, max);
            var r := Step(q.decoder, b, max);
            Decode(d, [a] + s + [b], max) == Progress(r.decoder, p.frames + q.frames + r.frames)
  {
    hide Step;
    DecodeAppend(d, [a] + s, [b], max);
    DecodeAppend(d, [a], s, max);
    DecodeOne(d, a, max);
    DecodeOne(Decode(Step(d, a, max).decoder, s, max).decoder, b, max);
  }

  /** What a decoder in any state makes of one well-formed frame. */
  function Lost(d: Decoder): bool {
    d.Flush? || d.Open?
  }

  function Spurious(d: Decoder): seq<seq<bv8>> {
    if d.Open? then [d.data] else []
  }

  lemma FrameDecodes(d: Decoder, frame: seq<bv8>, max: nat)
    requires 0 < |frame| <= max
    ensures Decode(d, Wire(frame), max) == Progress(New, Spurious(d) + if Lost(d) then [] else [frame])
  {
    hide Decode, Stuff;
    var s := Stuff(frame);
    DecodeThree(d, BOUNDARY, s, BOUNDARY, max);
    if Lost(d) {
      StuffFlushes(frame, max);
    } else {
      StuffDecodes([], frame, max);
      assert [] + frame == frame;
    }
  }

  lemma StuffFlushes(frame: seq<bv8>, max: nat)
    requires frame != []
    ensures Decode(New, Stuff(frame), max) == Progress(Flush, [])
  {
    var s := Stuff(frame);
    assert s[0] in s;
    FlushesOn(s[1..], max);
  }

  predicate WellFormed(frames: seq<seq<bv8>>, max: nat) {
    forall i :: 0 <= i < |frames| ==> 0 < |frames[i]| <= max
  }

  lemma {:induction false} InStep(frames: seq<seq<bv8>>, max: nat)
    requires WellFormed(frames, max)
    ensures Decode(New, Stream(frames), max) == Progress(New, frames)
    decreases |frames|
  {
    hide Decode, Wire, Step;
    if frames == [] {
      DecodeNothing(New, max);
    } else {
      FrameDecodes(New, frames[0], max);
      InStep(frames[1..], max);
      DecodeAppend(New, Wire(frames[0]), Stream(frames[1..]), max);
      assert [frames[0]] + frames[1..] == frames;
    }
  }

  lemma FramesWellFormed(frames: seq<seq<bv8>>, max: nat)
    requires frames != [] && WellFormed(frames, max)
    ensures 0 < |frames[0]| <= max && WellFormed(frames[1..], max)
  {
  }

  /** From any decoder state, exactly the first of a stream of frames is lost, and only if the decoder was inside one. */
  lemma SelfSynchronises(d: Decoder, frames: seq<seq<bv8>>, max: nat)
    requires frames != [] && WellFormed(frames, max)
    ensures Decode(d, Stream(frames), max) == Progress(New, Spurious(d) + if Lost(d) then frames[1..] else frames)
  {
    hide Decode, Wire, Step, WellFormed, Spurious, Lost;
    FramesWellFormed(frames, max);
    FrameDecodes(d, frames[0], max);
    InStep(frames[1..], max);
    DecodeAppend(d, Wire(frames[0]), Stream(frames[1..]), max);
    Joins(Spurious(d), frames);
  }

  lemma Joins(s: seq<seq<bv8>>, frames: seq<seq<bv8>>)
    requires frames != []
    ensures s + [] + frames[1..] == s + frames[1..]
    ensures s + [frames[0]] + frames[1..] == s + frames
  {
  }

  /** After any junk at all, every frame but the first comes out byte for byte, with at most one frame of junk before them. */
  lemma RecoversFromJunk(d: Decoder, junk: seq<bv8>, frames: seq<seq<bv8>>, max: nat) returns (noise: seq<seq<bv8>>)
    requires frames != [] && WellFormed(frames, max)
    ensures |noise| <= 1
    ensures Decode(d, junk + Stream(frames), max) == Progress(New, Decode(d, junk, max).frames + noise + frames[1..])
  {
    hide Decode, Step, Stream;
    var p := Decode(d, junk, max);
    DecodeAppend(d, junk, Stream(frames), max);
    SelfSynchronises(p.decoder, frames, max);
    noise := if Lost(p.decoder) then Spurious(p.decoder) else [frames[0]];
    assert [frames[0]] + frames[1..] == frames;
    assert p.frames + (noise + frames[1..]) == p.frames + noise + frames[1..];
  }

  // ---------------------------------------------------------------- nothing is made up

  /** The tail of the stream that a decoder inside a frame has read. */
  predicate Tracks(d: Decoder, read: seq<bv8>) {
    match d
    case Open(data) => Ends(read, [BOUNDARY] + Stuff(data))
    case Escaped(data) => Ends(read, [BOUNDARY] + Stuff(data) + [ESCAPE])
    case _ => true
  }

  predicate Ends(s: seq<bv8>, t: seq<bv8>) {
    |t| <= |s| && s[|s| - |t|..] == t
  }

  predicate Contains(s: seq<bv8>, t: seq<bv8>) {
    exists i :: 0 <= i <= |s| && Ends(s[..i], t)
  }

  lemma {:induction false} StuffAppend(a: seq<bv8>, b: seq<bv8>)
    ensures Stuff(a + b) == Stuff(a) + Stuff(b)
  {
    hide StuffByte;
    if a == [] {
      assert a + b == b;
    } else {
      assert (a + b)[1..] == a[1..] + b;
      StuffAppend(a[1..], b);
      assert StuffByte(a[0]) + (Stuff(a[1..]) + Stuff(b)) == StuffByte(a[0]) + Stuff(a[1..]) + Stuff(b);
    }
  }

  lemma StuffOne(data: seq<bv8>, b: bv8)
    ensures Stuff(data + [b]) == Stuff(data) + StuffByte(b)
  {
    StuffAppend(data, [b]);
    assert Stuff([b]) == StuffByte(b) + Stuff([]);
  }

  lemma EndsGrows(s: seq<bv8>, t: seq<bv8>, b: bv8)
    requires Ends(s, t)
    ensures Ends(s + [b], t + [b])
  {
    assert (s + [b])[|s| - |t|..] == s[|s| - |t|..] + [b];
  }

  lemma EndsContains(s: seq<bv8>, t: seq<bv8>)
    requires Ends(s, t)
    ensures Contains(s, t)
  {
    assert s[..|s|] == s;
  }

  lemma StepTracks(d: Decoder, read: seq<bv8>, rx: bv8, max: nat)
    requires Tracks(d, read)
    ensures Tracks(Step(d, rx, max).decoder, read + [rx])
    ensures forall f :: f in Step(d, rx, max).frames ==> Contains(read + [rx], Wire(f))
  {
    hide Stuff, Ends, Contains;
    match d {
      case Open(data) =>
        var t := [BOUNDARY] + Stuff(data);
        EndsGrows(read, t, rx);
        if rx == BOUNDARY {
          EndsContains(read + [rx], t + [rx]);
          assert Step(d, rx, max).frames == [data];
        } else if rx != ESCAPE && |data| != max {
          StuffOne(data, rx);
          assert t + [rx] == [BOUNDARY] + Stuff(data + [rx]);
        }
      case Escaped(data) =>
        var t := [BOUNDARY] + Stuff(data) + [ESCAPE];
        EndsGrows(read, t, rx);
        if rx == BOUNDARY_SUBSTITUTE {
          StuffOne(data, BOUNDARY);
          assert t + [rx] == [BOUNDARY] + Stuff(data + [BOUNDARY]);
        } else if rx == ESCAPE_SUBSTITUTE {
          StuffOne(data, ESCAPE);
          assert t + [rx] == [BOUNDARY] + Stuff(data + [ESCAPE]);
        } else {
          OpensHere(read, rx);
        }
      case _ =>
        OpensHere(read, rx);
    }
  }

  lemma OpensHere(read: seq<bv8>, rx: bv8)
    ensures rx == BOUNDARY ==> Ends(read + [rx], [BOUNDARY] + Stuff([]))
  {
  }

  lemma ContainsGrows(s: seq<bv8>, more: seq<bv8>, t: seq<bv8>)
    requires Contains(s, t)
    ensures Contains(s + more, t)
  {
    var i :| 0 <= i <= |s| && Ends(s[..i], t);
    assert (s + more)[..i] == s[..i];
  }

  /** Every frame passed on was in the stream, stuffed, between two boundaries. */
  lemma {:induction false} FramesWereSent(d: Decoder, read: seq<bv8>, bytes: seq<bv8>, max: nat)
    requires Tracks(d, read)
    ensures forall f :: f in Decode(d, bytes, max).frames ==> Contains(read + bytes, Wire(f))
    decreases |bytes|
  {
    hide Step, Tracks, Contains, Wire;
    if bytes != [] {
      var rx, rest := bytes[0], bytes[1..];
      var first := Step(d, rx, max);
      StepTracks(d, read, rx, max);
      FramesWereSent(first.decoder, read + [rx], rest, max);
      assert read + [rx] + rest == read + bytes;
      forall f | f in Decode(d, bytes, max).frames
        ensures Contains(read + bytes, Wire(f))
      {
        if f in first.frames {
          ContainsGrows(read + [rx], rest, Wire(f));
        }
      }
    }
  }

  // ---------------------------------------------------------------- the bound on a frame

  function Held(d: Decoder): nat {
    if d.Open? || d.Escaped? then |d.data| else 0
  }

  /** The decoded bytes stay within the frame size exactly as long as no escape pair arrives when it is reached. */
  lemma BoundExact(d: Decoder, rx: bv8, max: nat)
    requires Held(d) <= max
    ensures Held(Step(d, rx, max).decoder) <= max <==>
            !(d.Escaped? && |d.data| == max && (rx == BOUNDARY_SUBSTITUTE || rx == ESCAPE_SUBSTITUTE))
  {
  }

  /** The second byte of an escape pair. */
  function Unescaped(sub: bv8): (b: bv8)
    requires sub == BOUNDARY_SUBSTITUTE || sub == ESCAPE_SUBSTITUTE
    ensures StuffByte(b) == [ESCAPE, sub]
  {
    if sub == BOUNDARY_SUBSTITUTE then BOUNDARY else ESCAPE
  }

  predicate Substitute(sub: bv8) {
    sub == BOUNDARY_SUBSTITUTE || sub == ESCAPE_SUBSTITUTE
  }

  /** A frame of the greatest length and one more escape pair, where a decoder takes a boundary for a beginning. */
  function Oversized(q: seq<bv8>, data: seq<bv8>, sub: bv8): seq<bv8> {
    q + [BOUNDARY] + Stuff(data) + [ESCAPE, sub]
  }

  lemma OpensWith(d: Decoder, data: seq<bv8>, max: nat)
    requires !Lost(d) && |data| <= max
    ensures Decode(d, [BOUNDARY] + Stuff(data), max) == Progress(Open(data), [])
  {
    hide Decode, Stuff;
    DecodeOne(d, BOUNDARY, max);
    StuffDecodes([], data, max);
    DecodeAppend(d, [BOUNDARY], Stuff(data), max);
    assert [] + data == data;
  }

  lemma EscapePair(data: seq<bv8>, sub: bv8, max: nat)
    requires Substitute(sub)
    ensures Decode(Open(data), [ESCAPE, sub], max) == Progress(Open(data + [Unescaped(sub)]), [])
  {
    DecodeOne(Escaped(data), sub, max);
    assert [ESCAPE, sub][1..] == [sub];
  }

  lemma GrowsByOne(data: seq<bv8>, rx: bv8, max: nat)
    requires max < |data| && rx != BOUNDARY && rx != ESCAPE
    ensures Step(Open(data), rx, max) == Progress(Open(data + [rx]), [])
  {
  }

  /** Beyond the frame size the test for it never succeeds again. */
  lemma {:induction false} GrowsOn(data: seq<bv8>, more: seq<bv8>, max: nat)
    requires max < |data| && BOUNDARY !in more && ESCAPE !in more
    ensures Decode(Open(data), more, max) == Progress(Open(data + more), [])
    decreases |more|
  {
    if more == [] {
      assert data + more == data;
    } else {
      hide Step;
      assert more[0] in more;
      GrowsByOne(data, more[0], max);
      GrowsOn(data + [more[0]], more[1..], max);
      assert data + [more[0]] + more[1..] == data + more;
    }
  }

  /**
   * The overrun is real: one escape pair after the greatest number of bytes passes the test by,
   * and from then on the frame grows with every byte, without limit.
   */
  lemma OverrunGrows(d: Decoder, q: seq<bv8>, data: seq<bv8>, sub: bv8, more: seq<bv8>, max: nat)
    requires |data| == max && Substitute(sub) && !Lost(Decode(d, q, max).decoder)
    requires BOUNDARY !in more && ESCAPE !in more
    ensures Decode(d, Oversized(q, data, sub) + more, max) ==
              Progress(Open(data + [Unescaped(sub)] + more), Decode(d, q, max).frames)
  {
    hide Decode, Stuff, Step, Lost, Unescaped;
    var p, body := Decode(d, q, max), [BOUNDARY] + Stuff(data);
    OpensWith(p.decoder, data, max);
    DecodeAppend(d, q, body, max);
    assert q + body == q + [BOUNDARY] + Stuff(data);
    EscapePair(data, sub, max);
    DecodeAppend(d, q + body, [ESCAPE, sub], max);
    GrowsOn(data + [Unescaped(sub)], more, max);
    DecodeAppend(d, Oversized(q, data, sub), more, max);
    assert p.frames + [] == p.frames;
  }

  /** Where the frame began that the decoder is inside of. */
  ghost predicate OpenedBy(d: Decoder, read: seq<bv8>, data: seq<bv8>, max: nat) {
    exists q :: read == q + [BOUNDARY] + Stuff(data) && !Lost(Decode(d, q, max).decoder)
  }

  /** Decoder e, reached by reading `read`, is inside a frame only as the stream has it. */
  ghost predicate ExplainedAs(d: Decoder, read: seq<bv8>, e: Decoder, max: nat) {
    match e
    case Open(data) => OpenedBy(d, read, data, max)
    case Escaped(data) => read != [] && read[|read| - 1] == ESCAPE && OpenedBy(d, read[..|read| - 1], data, max)
    case _ => true
  }

  ghost predicate Explained(d: Decoder, read: seq<bv8>, max: nat) {
    ExplainedAs(d, read, Decode(d, read, max).decoder, max)
  }

  lemma OpenedOneMore(d: Decoder, read: seq<bv8>, data: seq<bv8>, b: bv8, max: nat)
    requires OpenedBy(d, read, data, max)
    ensures OpenedBy(d, read + StuffByte(b), data + [b], max)
  {
    hide Decode, Stuff, StuffByte, Lost;
    var q :| read == q + [BOUNDARY] + Stuff(data) && !Lost(Decode(d, q, max).decoder);
    StuffOne(data, b);
    assert read + StuffByte(b) == q + [BOUNDARY] + Stuff(data + [b]);
  }

  lemma OpenedHere(d: Decoder, read: seq<bv8>, max: nat)
    requires !Lost(Decode(d, read, max).decoder)
    ensures OpenedBy(d, read + [BOUNDARY], [], max)
  {
    assert read + [BOUNDARY] == read + [BOUNDARY] + Stuff([]);
  }

  /** A decoder that starts outside a frame is inside one only because the stream opened it. */
  lemma {:induction false} AlwaysExplained(d: Decoder, read: seq<bv8>, max: nat)
    requires d.New? || d.Flush?
    ensures Explained(d, read, max)
    decreases |read|
  {
    if read != [] {
      hide Decode, Stuff, StuffByte, Lost, OpenedBy;
      var before, rx := read[..|read| - 1], read[|read| - 1];
      AlwaysExplained(d, before, max);
      assert read == before + [rx];
      DecodeAppend(d, before, [rx], max);
      StepExplained(d, before, rx, max);
    }
  }

  lemma StepInFrame(d: Decoder, read: seq<bv8>, data: seq<bv8>, rx: bv8, max: nat)
    requires OpenedBy(d, read, data, max)
    ensures ExplainedAs(d, read + [rx], Step(Open(data), rx, max).decoder, max)
  {
    hide OpenedBy;
    assert (read + [rx])[..|read|] == read;
    if rx != ESCAPE && rx != BOUNDARY {
      OpenedOneMore(d, read, data, rx, max);
    }
  }

  lemma StepAfterEscape(d: Decoder, read: seq<bv8>, data: seq<bv8>, rx: bv8, max: nat)
    requires Decode(d, read, max).decoder == Escaped(data) && ExplainedAs(d, read, Escaped(data), max)
    ensures ExplainedAs(d, read + [rx], Step(Escaped(data), rx, max).decoder, max)
  {
    hide Decode, OpenedBy;
    var before := read[..|read| - 1];
    if Substitute(rx) {
      OpenedOneMore(d, before, data, Unescaped(rx), max);
      assert before + [ESCAPE, rx] == read + [rx];
    } else if rx == BOUNDARY {
      OpenedHere(d, read, max);
    }
  }

  lemma StepOutside(d: Decoder, read: seq<bv8>, rx: bv8, max: nat)
    requires Decode(d, read, max).decoder == New
    ensures ExplainedAs(d, read + [rx], Step(New, rx, max).decoder, max)
  {
    hide Decode, OpenedBy;
    if rx == BOUNDARY {
      OpenedHere(d, read, max);
    }
  }

  lemma StepExplained(d: Decoder, read: seq<bv8>, rx: bv8, max: nat)
    requires Explained(d, read, max)
    requires Decode(d, read + [rx], max).decoder == Decode(Decode(d, read, max).decoder, [rx], max).decoder
    ensures Explained(d, read + [rx], max)
  {
    hide Decode, OpenedBy;
    var e := Decode(d, read, max).decoder;
    DecodeOne(e, rx, max);
    match e {
      case Open(data) => hide Step; StepInFrame(d, read, data, rx, max);
      case Escaped(data) => hide Step; StepAfterEscape(d, read, data, rx, max);
      case New => hide Step; StepOutside(d, read, rx, max);
      case Flush =>
    }
  }

  /** All along the stream no more is held than the greatest frame. */
  ghost predicate Within(d: Decoder, bytes: seq<bv8>, max: nat) {
    forall i :: 0 <= i <= |bytes| ==> Held(Decode(d, bytes[..i], max).decoder) <= max
  }

  ghost predicate HasOversized(d: Decoder, bytes: seq<bv8>, max: nat) {
    exists q, data, sub ::
      |data| == max && Substitute(sub) && !Lost(Decode(d, q, max).decoder) && Oversized(q, data, sub) <= bytes
  }

  lemma OversizedGrows(d: Decoder, a: seq<bv8>, b: seq<bv8>, max: nat)
    requires HasOversized(d, a, max) && a <= b
    ensures HasOversized(d, b, max)
  {
    hide Decode, Oversized, Lost;
    var q, data, sub :|
      |data| == max && Substitute(sub) && !Lost(Decode(d, q, max).decoder) && Oversized(q, data, sub) <= a;
    assert Oversized(q, data, sub) <= b;
  }

  lemma OversizedExceeds(d: Decoder, bytes: seq<bv8>, max: nat)
    requires HasOversized(d, bytes, max)
    ensures !Within(d, bytes, max)
  {
    hide Decode, Oversized, Lost;
    var q, data, sub :|
      |data| == max && Substitute(sub) && !Lost(Decode(d, q, max).decoder) && Oversized(q, data, sub) <= bytes;
    OverrunGrows(d, q, data, sub, [], max);
    var n := |Oversized(q, data, sub)|;
    assert bytes[..n] == Oversized(q, data, sub) + [];
  }

  /** The byte that takes the frame beyond its size completes an oversized one. */
  lemma ExceedsHere(d: Decoder, read: seq<bv8>, rx: bv8, max: nat)
    requires (d.New? || d.Flush?) && Held(Decode(d, read, max).decoder) <= max < Held(Decode(d, read + [rx], max).decoder)
    ensures HasOversized(d, read + [rx], max)
  {
    hide Decode, Stuff, Lost;
    var e := Decode(d, read, max).decoder;
    DecodeAppend(d, read, [rx], max);
    DecodeOne(e, rx, max);
    BoundExact(e, rx, max);
    AlwaysExplained(d, read, max);
    var before := read[..|read| - 1];
    var q :| before == q + [BOUNDARY] + Stuff(e.data) && !Lost(Decode(d, q, max).decoder);
    assert Oversized(q, e.data, rx) == read + [rx];
  }

  /**
   * From a decoder outside a frame the bound holds all along a stream exactly if the stream holds
   * no frame of the greatest length that goes on with one more escape pair.
   */
  lemma {:induction false} StreamBoundExact(d: Decoder, bytes: seq<bv8>, max: nat)
    requires d.New? || d.Flush?
    ensures Within(d, bytes, max) <==> !HasOversized(d, bytes, max)
    decreases |bytes|
  {
    if HasOversized(d, bytes, max) {
      OversizedExceeds(d, bytes, max);
    } else if bytes != [] {
      hide Decode, HasOversized, Held;
      var init, rx := bytes[..|bytes| - 1], bytes[|bytes| - 1];
      if HasOversized(d, init, max) {
        OversizedGrows(d, init, bytes, max);
      }
      StreamBoundExact(d, init, max);
      assert init[..|init|] == init && bytes[..|bytes|] == bytes == init + [rx];
      if max < Held(Decode(d, bytes, max).decoder) {
        ExceedsHere(d, init, rx, max);
      }
      forall i | 0 <= i <= |bytes| ensures Held(Decode(d, bytes[..i], max).decoder) <= max {
        if i < |bytes| {
          assert bytes[..i] == init[..i];
        }
      }
    }
  }

  // ---------------------------------------------------------------- what a conforming sender sends stays within it

  lemma {:induction false} StuffWithin(data: seq<bv8>, more: seq<bv8>, i: nat, max: nat)
    requires |data| + |more| <= max && i <= |Stuff(more)|
    ensures Held(Decode(Open(data), Stuff(more)[..i], max).decoder) <= max
    decreases |more|
  {
    hide Decode, StuffByte;
    if i == 0 {
      DecodeNothing(Open(data), max);
    } else {
      var s, rest := StuffByte(more[0]), Stuff(more[1..]);
      if i < |s| {
        StuffByteSplits(data, more[0], i, max);
        assert Stuff(more)[..i] == s[..i];
      } else {
        StuffByteDecodes(data, more[0], max);
        StuffWithin(data + [more[0]], more[1..], i - |s|, max);
        DecodeAppend(Open(data), s, rest[..i - |s|], max);
        assert Stuff(more)[..i] == s + rest[..i - |s|];
      }
    }
  }

  lemma StuffByteSplits(data: seq<bv8>, b: bv8, i: nat, max: nat)
    requires 0 < i < |StuffByte(b)|
    ensures Decode(Open(data), StuffByte(b)[..i], max).decoder == Escaped(data)
  {
    assert StuffByte(b)[..i] == [ESCAPE];
    DecodeOne(Open(data), ESCAPE, max);
  }

  lemma {:induction false} OutsideStays(d: Decoder, bytes: seq<bv8>, max: nat)
    requires (d.New? || d.Flush?) && BOUNDARY !in bytes
    ensures Held(Decode(d, bytes, max).decoder) == 0
    decreases |bytes|
  {
    if bytes != [] {
      OutsideStays(Step(d, bytes[0], max).decoder, bytes[1..], max);
    }
  }

  lemma WireWithin(d: Decoder, frame: seq<bv8>, i: nat, max: nat)
    requires 0 < |frame| <= max && Held(d) <= max && i <= |Wire(frame)|
    ensures Held(Decode(d, Wire(frame)[..i], max).decoder) <= max
  {
    hide Decode, Stuff;
    var w, s := Wire(frame), Stuff(frame);
    if i == 0 {
      DecodeNothing(d, max);
    } else if i == |w| {
      FrameDecodes(d, frame, max);
      assert w[..i] == w;
    } else {
      assert w[..i] == [BOUNDARY] + s[..i - 1];
      DecodeAppend(d, [BOUNDARY], s[..i - 1], max);
      DecodeOne(d, BOUNDARY, max);
      if Lost(d) {
        OutsideStays(New, s[..i - 1], max);
      } else {
        StuffWithin([], frame, i - 1, max);
      }
    }
  }

  /** Frames no longer than the greatest are received within the bound, whatever state they find the decoder in. */
  lemma {:induction false} SentStaysWithin(d: Decoder, frames: seq<seq<bv8>>, max: nat)
    requires WellFormed(frames, max) && Held(d) <= max
    ensures Within(d, Stream(frames), max)
    decreases |frames|
  {
    hide Decode, Wire, WellFormed, Held;
    if frames == [] {
      DecodeNothing(d, max);
    } else {
      FramesWellFormed(frames, max);
      var w, rest := Wire(frames[0]), Stream(frames[1..]);
      FrameDecodes(d, frames[0], max);
      NothingHeld(max);
      SentStaysWithin(New, frames[1..], max);
      forall i | 0 <= i <= |Stream(frames)| ensures Held(Decode(d, Stream(frames)[..i], max).decoder) <= max {
        if i <= |w| {
          WireWithin(d, frames[0], i, max);
          assert Stream(frames)[..i] == w[..i];
        } else {
          DecodeAppend(d, w, rest[..i - |w|], max);
          assert Stream(frames)[..i] == w + rest[..i - |w|];
        }
      }
    }
  }

  lemma NothingHeld(max: nat)
    ensures Held(New) <= max
  {
  }
}
