/**
 * Compressed domain names in multicast DNS packets: labels and pointers are followed through
 * the packet and written out as one dotted name.
 */
module MdnsName {
  import opened Bytes

  const NAME_SIZE: nat := 256
  const DOT: uint8 := 0x2E

  /** The two high bits of an octet tell a pointer from a label. */
  predicate IsPointer(b: uint8) {
    b >= 0xC0
  }

  predicate IsLabel(b: uint8) {
    b < 0x40
  }

  /** Malformed input, or the characters written and whether the name was followed to its end. */
  datatype Outcome = Malformed | Name(text: seq<uint8>, complete: bool)

  function TargetAt(payload: seq<uint8>, pos: nat): nat
    requires pos + 1 < |payload|
  {
    payload[pos] as nat % 0x40 * 0x100 + payload[pos + 1] as nat
  }

  /** A dot goes in front of everything after the first character, unless that is a zero. */
  function Dotted(out: seq<uint8>): seq<uint8> {
    if out != [] && out[0] != 0 then out + [DOT] else out
  }

  /** The loop of ParseMDNSDomainName from a position, with what has been written so far. */
  function Expand(payload: seq<uint8>, pos: nat, end: nat, out: seq<uint8>): Outcome
    requires pos <= end <= |payload| && |out| < NAME_SIZE
    decreases NAME_SIZE - |out|, pos < end && IsPointer(payload[pos])
  {
    if pos == end then Name(out, true)
    else if IsPointer(payload[pos]) && pos + 1 < end then
      var target := TargetAt(payload, pos);
      if target >= |payload| || !IsLabel(payload[target]) then Malformed
      else Expand(payload, target, |payload|, out)
    else
      var n := payload[pos] as nat;
      if n > end - (pos + 1) then Malformed
      else
        var before := Dotted(out);
        if n == 0 then Name(before, true)
        else if |before| + n >= NAME_SIZE then Name(before, false)
        else Expand(payload, pos + 1 + n, end, before + payload[pos + 1..pos + 1 + n])
  }

  /** A pointer to any offset that fourteen bits can say leads there, if a label stands there, and is refused otherwise. */
  lemma PointerFollowed(payload: seq<uint8>, pos: nat, end: nat, out: seq<uint8>, offset: nat)
    requires pos + 1 < end <= |payload| && |out| < NAME_SIZE && offset < 0x4000
    requires payload[pos] as nat == 0xC0 + offset / 0x100 && payload[pos + 1] as nat == offset % 0x100
    ensures Expand(payload, pos, end, out) ==
              if offset < |payload| && payload[offset] < 0x40 then Expand(payload, offset, |payload|, out) else Malformed
  {
    assert TargetAt(payload, pos) == offset;
  }

  /** Anything else is a label, which is written behind a dot if it fits. */
  lemma LabelWritten(payload: seq<uint8>, pos: nat, end: nat, out: seq<uint8>)
    requires pos < end <= |payload| && |out| < NAME_SIZE && 0 < payload[pos] < 0xC0
    ensures var n, before := payload[pos] as nat, if out != [] && out[0] != 0 then out + [0x2E] else out;
            Expand(payload, pos, end, out) ==
              if pos + 1 + n > end then Malformed
              else if |before| + n >= 256 then Name(before, false)
              else Expand(payload, pos + 1 + n, end, before + payload[pos + 1..pos + 1 + n])
  {
  }

  /** The root label ends a name. */
  lemma RootEnds(payload: seq<uint8>, pos: nat, end: nat, out: seq<uint8>)
    requires pos < end <= |payload| && |out| < NAME_SIZE && payload[pos] == 0
    ensures Expand(payload, pos, end, out) == Name(if out != [] && out[0] != 0 then out + [0x2E] else out, true)
  {
  }

  // ---------------------------------------------------------------- the parser

  predicate Zero(s: seq<uint8>) {
    forall i :: 0 <= i < |s| ==> s[i] == 0
  }

  /** memcpy into the name. */
  method CopyLabel(name: array<uint8>, offset: nat, octets: seq<uint8>)
    requires name.Length == NAME_SIZE && offset + |octets| <= NAME_SIZE && Zero(name[offset..])
    modifies name
    ensures name[..offset + |octets|] == old(name[..offset]) + octets && Zero(name[offset + |octets|..])
  {
    var i := 0;
    while i < |octets|
      invariant 0 <= i <= |octets|
      invariant name[..offset + i] == old(name[..offset]) + octets[..i]
      invariant Zero(name[offset + i..])
    {
      name[offset + i] := octets[i];
      i := i + 1;
    }
    assert octets[..i] == octets;
  }

  method CopyDot(name: array<uint8>, offset: nat) returns (next: nat)
    requires name.Length == NAME_SIZE && offset < NAME_SIZE && Zero(name[offset..])
    modifies name
    ensures offset <= next <= NAME_SIZE && name[..next] == Dotted(old(name[..offset])) && Zero(name[next..])
  {
    next := offset;
    assert offset == 0 ==> name[offset..][0] == 0;
    if name[0] != 0 {
      name[offset] := DOT;
      next := offset + 1;
    }
  }

  /** ParseMDNSDomainName: the name buffer receives the text and is zero behind it. */
  method Parse(payload: seq<uint8>, start: nat, bufsize: nat, name: array<uint8>) returns (ok: bool)
    requires start + bufsize <= |payload| && name.Length == NAME_SIZE
    modifies name
    ensures ok <==> Expand(payload, start, start + bufsize, []).Name?
    ensures ok ==>
              var text := Expand(payload, start, start + bufsize, []).text;
              |text| <= 256 && name[..|text|] == text && forall i :: |text| <= i < 256 ==> name[i] == 0
  {
    hide Dotted, Zero;
    var offset: nat := 0;
    var pos: nat, end: nat := start, start + bufsize;
    forall i | 0 <= i < NAME_SIZE {
      name[i] := 0;
    }
    ghost var all := Expand(payload, start, start + bufsize, []);
    AllZero(name[..]);
    assert name[0..] == name[..] && name[..0] == [];
    while pos < end
      invariant pos <= end <= |payload| && offset < NAME_SIZE
      invariant Zero(name[offset..])
      invariant all == Expand(payload, pos, end, name[..offset])
      decreases NAME_SIZE - offset, pos < end && IsPointer(payload[pos])
    {
      if IsPointer(payload[pos]) && end - pos > 1 {
        var target := TargetAt(payload, pos);
        if target >= |payload| {
          return false;
        }
        if !IsLabel(payload[target]) {
          return false;
        }
        pos := target;
        end := |payload|;
      } else {
        var n := payload[pos] as nat;
        pos := pos + 1;
        if n > end - pos {
          return false;
        }
        offset := CopyDot(name, offset);
        if n > 0 && offset + n < NAME_SIZE {
          CopyLabel(name, offset, payload[pos..pos + n]);
          pos := pos + n;
          offset := offset + n;
        } else {
          break;
        }
      }
    }
    ok := true;
    TextHeld(name[..], offset);
    assert name[..][..offset] == name[..offset];
  }

  lemma AllZero(s: seq<uint8>)
    requires forall i :: 0 <= i < |s| ==> s[i] == 0
    ensures Zero(s)
  {
  }

  lemma TextHeld(name: seq<uint8>, offset: nat)
    requires |name| == NAME_SIZE && offset <= NAME_SIZE && Zero(name[offset..])
    ensures forall i :: offset <= i < NAME_SIZE ==> name[i] == 0
  {
    assert forall i :: offset <= i < NAME_SIZE ==> name[i] == name[offset..][i - offset];
  }

  // ---------------------------------------------------------------- the names a packet spells

  /** One step through a compressed name. */
  datatype Item = Label(octets: seq<uint8>) | Jump(target: nat)

  /** The items spell the name at a position, which ends in the root label or at the end of the buffer. */
  ghost predicate Spells(payload: seq<uint8>, pos: nat, end: nat, items: seq<Item>, root: bool)
    requires pos <= end <= |payload|
    decreases |items|
  {
    if items == [] then
      if root then pos < end && payload[pos] == 0 else pos == end
    else
      pos < end &&
      match items[0]
      case Label(o) =>
        && !(IsPointer(payload[pos]) && pos + 1 < end)
        && 0 < |o| == payload[pos] as nat && pos + 1 + |o| <= end && o == payload[pos + 1..pos + 1 + |o|]
        && Spells(payload, pos + 1 + |o|, end, items[1..], root)
      case Jump(t) =>
        && IsPointer(payload[pos]) && pos + 1 < end && t == TargetAt(payload, pos)
        && t < |payload| && IsLabel(payload[t]) && Spells(payload, t, |payload|, items[1..], root)
  }

  /** What has been written after the items. */
  function Written(out: seq<uint8>, items: seq<Item>): seq<uint8>
    decreases |items|
  {
    if items == [] then out
    else if items[0].Label? then Written(Dotted(out) + items[0].octets, items[1..])
    else Written(out, items[1..])
  }

  function Finished(out: seq<uint8>, items: seq<Item>, root: bool): seq<uint8> {
    if root then Dotted(Written(out, items)) else Written(out, items)
  }

  /** Every label leaves room for the final zero. */
  predicate Fits(out: seq<uint8>, items: seq<Item>)
    decreases |items|
  {
    items == [] ||
    if items[0].Label? then
      |Dotted(out) + items[0].octets| < NAME_SIZE && Fits(Dotted(out) + items[0].octets, items[1..])
    else Fits(out, items[1..])
  }

  /** A name that fits is written label by label. */
  lemma {:induction false} SpelledIsExpanded(payload: seq<uint8>, pos: nat, end: nat, out: seq<uint8>, items: seq<Item>, root: bool)
    requires pos <= end <= |payload| && |out| < NAME_SIZE
    requires Spells(payload, pos, end, items, root) && Fits(out, items)
    ensures Expand(payload, pos, end, out) == Name(Finished(out, items, root), true)
    decreases |items|
  {
    hide Dotted;
    if items != [] {
      match items[0] {
        case Label(o) =>
          SpelledIsExpanded(payload, pos + 1 + |o|, end, Dotted(out) + o, items[1..], root);
        case Jump(t) =>
          SpelledIsExpanded(payload, t, |payload|, out, items[1..], root);
      }
    }
  }

  /** Whatever is written to its end was spelled by the packet and fits. */
  lemma {:induction false} ExpandedIsSpelled(payload: seq<uint8>, pos: nat, end: nat, out: seq<uint8>)
    returns (items: seq<Item>, root: bool)
    requires pos <= end <= |payload| && |out| < NAME_SIZE
    requires Expand(payload, pos, end, out).Name? && Expand(payload, pos, end, out).complete
    ensures Spells(payload, pos, end, items, root) && Fits(out, items)
    ensures Expand(payload, pos, end, out).text == Finished(out, items, root)
    decreases NAME_SIZE - |out|, pos < end && IsPointer(payload[pos])
  {
    hide Dotted;
    if pos == end {
      items, root := [], false;
    } else if IsPointer(payload[pos]) && pos + 1 < end {
      var target := TargetAt(payload, pos);
      var more;
      more, root := ExpandedIsSpelled(payload, target, |payload|, out);
      items := [Jump(target)] + more;
      assert items[1..] == more;
    } else {
      var n := payload[pos] as nat;
      if n == 0 {
        items, root := [], true;
      } else {
        var o := payload[pos + 1..pos + 1 + n];
        DottedGrows(out);
        var more;
        more, root := ExpandedIsSpelled(payload, pos + 1 + n, end, Dotted(out) + o);
        items := [Label(o)] + more;
        assert items[1..] == more;
      }
    }
  }

  lemma DottedGrows(out: seq<uint8>)
    ensures |out| <= |Dotted(out)| <= |out| + 1
  {
  }

  // ---------------------------------------------------------------- labels joined by dots

  function LabelsOf(items: seq<Item>): seq<seq<uint8>> {
    if items == [] then []
    else if items[0].Label? then [items[0].octets] + LabelsOf(items[1..])
    else LabelsOf(items[1..])
  }

  /** The labels, each but the first after a dot. */
  function Join(labels: seq<seq<uint8>>): seq<uint8> {
    if labels == [] then []
    else labels[0] + Tail(labels[1..])
  }

  function Tail(labels: seq<seq<uint8>>): seq<uint8> {
    if labels == [] then [] else [DOT] + labels[0] + Tail(labels[1..])
  }

  lemma {:induction false} WrittenTail(out: seq<uint8>, items: seq<Item>)
    requires out != [] && out[0] != 0 && |out| < NAME_SIZE
    ensures Written(out, items) == out + Tail(LabelsOf(items))
    ensures Fits(out, items) <==> |out + Tail(LabelsOf(items))| < NAME_SIZE
    decreases |items|
  {
    if items != [] {
      if items[0].Label? {
        var o := items[0].octets;
        var next := Dotted(out) + o;
        assert out + ([DOT] + o + Tail(LabelsOf(items[1..]))) == next + Tail(LabelsOf(items[1..]));
        if |next| < NAME_SIZE {
          WrittenTail(next, items[1..]);
        } else {
          WrittenLong(next, items[1..]);
        }
      } else {
        WrittenTail(out, items[1..]);
      }
    }
  }

  lemma {:induction false} WrittenLong(out: seq<uint8>, items: seq<Item>)
    requires out != [] && out[0] != 0
    ensures Written(out, items) == out + Tail(LabelsOf(items))
    decreases |items|
  {
    if items != [] {
      if items[0].Label? {
        var o := items[0].octets;
        WrittenLong(Dotted(out) + o, items[1..]);
        assert out + ([DOT] + o + Tail(LabelsOf(items[1..]))) == Dotted(out) + o + Tail(LabelsOf(items[1..]));
      } else {
        WrittenLong(out, items[1..]);
      }
    }
  }

  /** A proper name: it has a label, and the first does not begin with a zero. */
  predicate Proper(items: seq<Item>) {
    LabelsOf(items) != [] && LabelsOf(items)[0] != [] && LabelsOf(items)[0][0] != 0
  }

  /** The text of a proper name is its labels joined by dots, and it fits exactly when that is shorter than the buffer. */
  lemma {:induction false} ProperNameJoins(items: seq<Item>)
    requires Proper(items)
    ensures Written([], items) == Join(LabelsOf(items))
    ensures Fits([], items) <==> |Join(LabelsOf(items))| < NAME_SIZE
    decreases |items|
  {
    if items[0].Label? {
      var o := items[0].octets;
      assert Dotted([]) + o == o;
      if |o| < NAME_SIZE {
        WrittenTail(o, items[1..]);
      } else {
        WrittenLong(o, items[1..]);
      }
    } else {
      ProperNameJoins(items[1..]);
    }
  }

  /** A packet that spells a proper name ending in the root is parsed to its labels joined by dots, with a dot at the end. */
  lemma NameOfPacket(payload: seq<uint8>, start: nat, bufsize: nat, items: seq<Item>)
    requires start + bufsize <= |payload|
    requires Spells(payload, start, start + bufsize, items, true) && Proper(items) && |Join(LabelsOf(items))| < NAME_SIZE
    ensures Expand(payload, start, start + bufsize, []) == Name(Join(LabelsOf(items)) + [DOT], true)
  {
    hide Join;
    ProperNameJoins(items);
    SpelledIsExpanded(payload, start, start + bufsize, [], items, true);
    JoinStarts(LabelsOf(items));
  }

  lemma JoinStarts(labels: seq<seq<uint8>>)
    requires labels != [] && labels[0] != []
    ensures Join(labels) != [] && Join(labels)[0] == labels[0][0]
  {
  }

  // ---------------------------------------------------------------- pointers in a cycle

  /** The items lead from one position, in a buffer up to `end`, to another. */
  ghost predicate Walks(payload: seq<uint8>, pos: nat, end: nat, items: seq<Item>, pos': nat, end': nat)
    requires pos <= end <= |payload|
    decreases |items|
  {
    if items == [] then pos' == pos && end' == end
    else
      pos < end &&
      match items[0]
      case Label(o) =>
        && !(IsPointer(payload[pos]) && pos + 1 < end)
        && 0 < |o| == payload[pos] as nat && pos + 1 + |o| <= end && o == payload[pos + 1..pos + 1 + |o|]
        && Walks(payload, pos + 1 + |o|, end, items[1..], pos', end')
      case Jump(t) =>
        && IsPointer(payload[pos]) && pos + 1 < end && t == TargetAt(payload, pos)
        && t < |payload| && IsLabel(payload[t]) && Walks(payload, t, |payload|, items[1..], pos', end')
  }

  /** A walk is followed to where it leads, unless the name buffer is full before. */
  lemma {:induction false} WalkExpands(payload: seq<uint8>, pos: nat, end: nat, items: seq<Item>, pos': nat, end': nat, out: seq<uint8>)
    requires pos <= end <= |payload| && |out| < NAME_SIZE && Walks(payload, pos, end, items, pos', end')
    ensures pos' <= end' <= |payload|
    ensures if Fits(out, items)
            then |out| <= |Written(out, items)| < NAME_SIZE
                 && Expand(payload, pos, end, out) == Expand(payload, pos', end', Written(out, items))
            else Expand(payload, pos, end, out).Name? && !Expand(payload, pos, end, out).complete
    decreases |items|
  {
    hide Dotted;
    if items != [] {
      match items[0] {
        case Label(o) =>
          DottedGrows(out);
          if |Dotted(out) + o| < NAME_SIZE {
            WalkExpands(payload, pos + 1 + |o|, end, items[1..], pos', end', Dotted(out) + o);
          } else {
            WalkStays(payload, pos + 1 + |o|, end, items[1..], pos', end');
          }
        case Jump(t) =>
          WalkExpands(payload, t, |payload|, items[1..], pos', end', out);
      }
    }
  }

  lemma {:induction false} WalkStays(payload: seq<uint8>, pos: nat, end: nat, items: seq<Item>, pos': nat, end': nat)
    requires pos <= end <= |payload| && Walks(payload, pos, end, items, pos', end')
    ensures pos' <= end' <= |payload|
    decreases |items|
  {
    if items != [] {
      match items[0] {
        case Label(o) => WalkStays(payload, pos + 1 + |o|, end, items[1..], pos', end');
        case Jump(t) => WalkStays(payload, t, |payload|, items[1..], pos', end');
      }
    }
  }

  lemma {:induction false} WrittenGrows(out: seq<uint8>, items: seq<Item>)
    ensures |out| <= |Written(out, items)|
    decreases |items|
  {
    if items != [] {
      WrittenGrows(if items[0].Label? then Dotted(out) + items[0].octets else out, items[1..]);
    }
  }

  /** No pointer leads to a pointer, so going round a cycle writes something. */
  lemma CycleWrites(payload: seq<uint8>, pos: nat, end: nat, items: seq<Item>, out: seq<uint8>)
    requires pos <= end <= |payload| && items != [] && Walks(payload, pos, end, items, pos, end)
    ensures |out| < |Written(out, items)|
  {
    DottedGrows(out);
    if items[0].Label? {
      WrittenGrows(Dotted(out) + items[0].octets, items[1..]);
    } else {
      assert items[1..] != [] && items[1].Label?;
      WrittenGrows(Dotted(out) + items[1].octets, items[1..][1..]);
    }
  }

  lemma {:induction false} RoundAndRound(payload: seq<uint8>, pos: nat, end: nat, items: seq<Item>, out: seq<uint8>)
    requires pos <= end <= |payload| && |out| < NAME_SIZE && items != [] && Walks(payload, pos, end, items, pos, end)
    ensures Expand(payload, pos, end, out).Name? && !Expand(payload, pos, end, out).complete
    decreases NAME_SIZE - |out|
  {
    hide Expand, Walks, Written, Fits;
    WalkExpands(payload, pos, end, items, pos, end, out);
    if Fits(out, items) {
      CycleWrites(payload, pos, end, items, out);
      RoundAndRound(payload, pos, end, items, Written(out, items));
    }
  }

  /** Any name that leads into a cycle ends when the name buffer is full, and is not reported as malformed. */
  lemma CycleIsCutOff(payload: seq<uint8>, start: nat, bufsize: nat, before: seq<Item>, pos: nat, end: nat, cycle: seq<Item>)
    requires start + bufsize <= |payload| && Walks(payload, start, start + bufsize, before, pos, end)
    requires pos <= end <= |payload| && cycle != [] && Walks(payload, pos, end, cycle, pos, end)
    ensures Expand(payload, start, start + bufsize, []).Name? && !Expand(payload, start, start + bufsize, []).complete
  {
    hide Expand, Walks, Written, Fits;
    WalkExpands(payload, start, start + bufsize, before, pos, end, []);
    if Fits([], before) {
      RoundAndRound(payload, pos, end, cycle, Written([], before));
    }
  }

  /** A label followed by a pointer back to it. */
  const LOOP: seq<uint8> := [1, 0x61, 0xC0, 0]

  lemma LoopIsCycle()
    ensures Walks(LOOP, 0, 4, [Label([0x61]), Jump(0)], 0, 4)
  {
    var items := [Label([0x61]), Jump(0)];
    assert items[1..] == [Jump(0)] && items[1..][1..] == [];
    assert LOOP[1..2] == [0x61] && TargetAt(LOOP, 2) == 0;
    assert Walks(LOOP, 0, 4, items[1..][1..], 0, 4);
    assert Walks(LOOP, 2, 4, items[1..], 0, 4);
  }
}
