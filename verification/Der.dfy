/**
 * The DER decoder of the certificate code: an element is a tag, a length and a content, and
 * decoding one moves the input past it.
 */
module Der {
  import opened Bytes

  const CONTEXT_SPECIFIC: uint8 := 0x80

  /** The octets of a size_t. */
  const SIZE_OCTETS: nat := 8

  /** The content of an element and the input behind it, or the input left where decoding gave up. */
  datatype Result = Fail(rest: seq<uint8>) | Done(content: seq<uint8>, rest: seq<uint8>)

  function BigEndian(s: seq<uint8>): nat {
    if s == [] then 0 else BigEndian(s[..|s| - 1]) * 0x100 + s[|s| - 1] as nat
  }

  lemma BigEndianStarts()
    ensures BigEndian([]) == 0
  {
  }

  lemma BigEndianStep(s: seq<uint8>, b: uint8)
    ensures BigEndian(s + [b]) == BigEndian(s) * 0x100 + b as nat
  {
    assert (s + [b])[..|s|] == s;
  }

  function Smaller(a: nat, b: nat): nat {
    if a < b then a else b
  }

  /** The content of the given length, from the input behind the header. */
  function Content(rest: seq<uint8>, len: nat): Result {
    if len > |rest| then Fail(rest) else Done(rest[..len], rest[len..])
  }

  /** ASN1DecodeLength and the step over the content: length octets that are missing are not noticed. */
  function AfterTag(d: seq<uint8>): Result {
    if d == [] then Fail(d)
    else if d[0] < 0x80 then Content(d[1..], d[0] as nat)
    else
      var n := d[0] as nat - 0x80;
      if n > SIZE_OCTETS then Fail(d[1..])
      else
        var k := Smaller(n, |d| - 1);
        Content(d[1 + k..], BigEndian(d[1..1 + k]))
  }

  /** A tag without its constructed flag. */
  function Plain(t: uint8): uint8 {
    if t / 0x20 % 2 == 1 then t - 0x20 else t
  }

  /** AJ_ASN1DecodeElement */
  function Element(d: seq<uint8>, tag: uint8): Result {
    if d == [] then Fail(d)
    else if Plain(d[0]) != tag then Fail(d[1..])
    else AfterTag(d[1..])
  }

  /** A tag wanted by AJ_ASN1DecodeElements. */
  datatype Tag = Universal(tag: uint8) | Context(number: uint8)

  function Wanted(t: Tag): uint8 {
    match t
    case Universal(tag) => tag
    case Context(n) => if n < CONTEXT_SPECIFIC then CONTEXT_SPECIFIC + n else n
  }

  /** The contents of one element after another, for as many as are wanted. */
  function Elements(d: seq<uint8>, tags: seq<Tag>): (bool, seq<seq<uint8>>, seq<uint8>)
    decreases |tags|
  {
    if tags == [] then (true, [], d)
    else if d == [] then (false, [], d)
    else
      match Element(d, Wanted(tags[0]))
      case Fail(rest) => (false, [], rest)
      case Done(content, rest) =>
        var (ok, contents, left) := Elements(rest, tags[1..]);
        (ok, [content] + contents, left)
  }

  // ---------------------------------------------------------------- the decoders

  /** DER_Element: the octets from data on, size of them. */
  class Input {
    var data: seq<uint8>

    constructor (data: seq<uint8>)
      ensures this.data == data
    {
      this.data := data;
    }
  }

  /** ASN1DecodeLength: afterwards the input stands at the content. */
  method DecodeLength(der: Input, out: Input) returns (ok: bool)
    requires der != out
    modifies der, out
    ensures ok == AfterTag(old(der.data)).Done?
    ensures ok ==> out.data <= der.data && AfterTag(old(der.data)) == Done(out.data, der.data[|out.data|..])
    ensures !ok ==> AfterTag(old(der.data)) == Fail(der.data)
  {
    if der.data == [] {
      return false;
    }
    hide BigEndian;
    ghost var was := der.data;
    var len := der.data[0] as nat;
    der.data := der.data[1..];
    if len >= 0x80 {
      var n := len - 0x80;
      if n > SIZE_OCTETS {
        return false;
      }
      len := 0;
      ghost var k := 0;
      BigEndianStarts();
      while n > 0 && der.data != []
        invariant 0 <= k && 1 + k <= |was| && der.data == was[1 + k..]
        invariant n + k == was[0] as nat - 0x80
        invariant len == BigEndian(was[1..1 + k])
        decreases n
      {
        BigEndianStep(was[1..1 + k], der.data[0]);
        assert was[1..1 + k + 1] == was[1..1 + k] + [der.data[0]];
        len := len * 0x100 + der.data[0] as nat;
        der.data := der.data[1..];
        n := n - 1;
        k := k + 1;
      }
      assert k == Smaller(was[0] as nat - 0x80, |was| - 1);
    }
    if len > |der.data| {
      return false;
    }
    out.data := der.data[..len];
    return true;
  }

  /** AJ_ASN1DecodeElement */
  method DecodeElement(der: Input, tag: uint8, out: Input) returns (ok: bool)
    requires der != out
    modifies der, out
    ensures ok == Element(old(der.data), tag).Done?
    ensures ok ==> Element(old(der.data), tag) == Done(out.data, der.data)
    ensures !ok ==> Element(old(der.data), tag) == Fail(der.data)
  {
    if der.data == [] {
      return false;
    }
    var t := Plain(der.data[0]);
    der.data := der.data[1..];
    if t != tag {
      return false;
    }
    ok := DecodeLength(der, out);
    if !ok {
      return;
    }
    der.data := der.data[|out.data|..];
  }

  /** AJ_ASN1DecodeElements; the contents stand for the elements passed to be filled in. */
  method DecodeElements(der: Input, tags: seq<Tag>) returns (ok: bool, contents: seq<seq<uint8>>)
    modifies der
    ensures (ok, contents, der.data) == Elements(old(der.data), tags)
  {
    ok, contents := true, [];
    var i := 0;
    assert tags[0..] == tags;
    assert [] + Elements(der.data, tags).1 == Elements(der.data, tags).1;
    while ok && i < |tags| && der.data != []
      invariant 0 <= i <= |tags|
      invariant ok ==> Elements(old(der.data), tags) == Following(contents, Elements(der.data, tags[i..]))
      invariant !ok ==> Elements(old(der.data), tags) == (false, contents, der.data)
      decreases |tags| - i, ok
    {
      var out := new Input([]);
      ghost var d := der.data;
      ok := DecodeElement(der, Wanted(tags[i]), out);
      if ok {
        assert tags[i..][1..] == tags[i + 1..];
        ElementsStep(contents, d, tags[i..], out.data, der.data);
        contents := contents + [out.data];
        i := i + 1;
      } else {
        assert contents + [] == contents;
      }
    }
    if ok {
      assert contents + [] == contents;
      if i < |tags| {
        ok := false;
      }
    }
  }

  ghost function Following(contents: seq<seq<uint8>>, r: (bool, seq<seq<uint8>>, seq<uint8>)): (bool, seq<seq<uint8>>, seq<uint8>) {
    (r.0, contents + r.1, r.2)
  }

  lemma ElementsStep(contents: seq<seq<uint8>>, d: seq<uint8>, tags: seq<Tag>, content: seq<uint8>, rest: seq<uint8>)
    requires tags != [] && d != [] && Element(d, Wanted(tags[0])) == Done(content, rest)
    ensures Following(contents, Elements(d, tags)) == Following(contents + [content], Elements(rest, tags[1..]))
  {
    var r := Elements(rest, tags[1..]);
    assert contents + ([content] + r.1) == contents + [content] + r.1;
  }

  // ---------------------------------------------------------------- encoding

  /** n in k octets, the highest first. */
  function Octets(n: nat, k: nat): (s: seq<uint8>)
    ensures |s| == k
  {
    if k == 0 then [] else Octets(n / 0x100, k - 1) + [(n % 0x100) as uint8]
  }

  function Power(k: nat): nat {
    if k == 0 then 1 else 0x100 * Power(k - 1)
  }

  lemma {:induction false} OctetsReadBack(n: nat, k: nat)
    requires n < Power(k)
    ensures BigEndian(Octets(n, k)) == n
    decreases k
  {
    if k > 0 {
      OctetsReadBack(n / 0x100, k - 1);
      var s := Octets(n, k);
      assert s[..|s| - 1] == Octets(n / 0x100, k - 1);
    }
  }

  /** The fewest octets that hold n. */
  function OctetCount(n: nat): (k: nat)
    ensures n < Power(k)
    ensures k > 0 ==> Power(k - 1) <= n
  {
    if n == 0 then 0 else 1 + OctetCount(n / 0x100)
  }

  /** Section 10.1 of X.690: the definite form in the fewest octets; a length of 128 octets or more has none. */
  function EncodedLength(n: nat): seq<uint8> {
    if n < 0x80 then [n as uint8]
    else if OctetCount(n) < 0x80 then [(0x80 + OctetCount(n)) as uint8] + Octets(n, OctetCount(n))
    else []
  }

  function Encoded(tag: uint8, content: seq<uint8>): seq<uint8> {
    [tag] + EncodedLength(|content|) + content
  }

  lemma ShortReadsBack(content: seq<uint8>, rest: seq<uint8>)
    requires |content| < 0x80
    ensures AfterTag([|content| as uint8] + (content + rest)) == Done(content, rest)
  {
    var d := [|content| as uint8] + (content + rest);
    assert d[1..] == content + rest;
    ContentIs(content, rest);
  }

  lemma LongReadsBack(octets: seq<uint8>, content: seq<uint8>, rest: seq<uint8>)
    requires |octets| <= SIZE_OCTETS && BigEndian(octets) == |content|
    ensures AfterTag([(0x80 + |octets|) as uint8] + octets + (content + rest)) == Done(content, rest)
  {
    hide BigEndian;
    var k := |octets|;
    var d := [(0x80 + k) as uint8] + octets + (content + rest);
    assert d[1..1 + k] == octets;
    assert d[1 + k..] == content + rest;
    ContentIs(content, rest);
  }

  lemma ContentIs(content: seq<uint8>, rest: seq<uint8>)
    ensures Content(content + rest, |content|) == Done(content, rest)
  {
  }

  lemma LengthReadsBack(content: seq<uint8>, rest: seq<uint8>)
    requires |content| < Power(SIZE_OCTETS)
    ensures AfterTag(EncodedLength(|content|) + (content + rest)) == Done(content, rest)
  {
    hide Power, AfterTag, OctetCount, Octets;
    var n := |content|;
    if n < 0x80 {
      ShortReadsBack(content, rest);
    } else {
      CountBounded(n, SIZE_OCTETS);
      OctetsReadBack(n, OctetCount(n));
      LongReadsBack(Octets(n, OctetCount(n)), content, rest);
    }
  }

  lemma {:induction false} CountBounded(n: nat, k: nat)
    requires n < Power(k)
    ensures OctetCount(n) <= k
    decreases k
  {
    if n > 0 {
      CountBounded(n / 0x100, k - 1);
    }
  }

  /** An octet with bit 0x20, the constructed flag, clear. */
  predicate Primitive(tag: uint8) {
    tag < 0x20 || 0x40 <= tag < 0x60 || 0x80 <= tag < 0xA0 || 0xC0 <= tag < 0xE0
  }

  lemma FlagIgnored(tag: uint8)
    requires Primitive(tag)
    ensures Plain(tag) == tag == Plain(tag + 0x20)
  {
  }

  /** An encoded element is decoded to its content, whatever follows it, be its tag sent primitive or constructed. */
  lemma ElementReadsBack(tag: uint8, content: seq<uint8>, rest: seq<uint8>)
    requires Primitive(tag) && |content| < Power(SIZE_OCTETS)
    ensures Element([tag] + EncodedLength(|content|) + content + rest, tag) == Done(content, rest)
    ensures Element([tag + 0x20] + EncodedLength(|content|) + content + rest, tag) == Done(content, rest)
  {
    hide Power, AfterTag, EncodedLength, Plain;
    LengthReadsBack(content, rest);
    FlagIgnored(tag);
    var d, e := [tag] + EncodedLength(|content|) + content + rest, [tag + 0x20] + EncodedLength(|content|) + content + rest;
    assert d[1..] == e[1..] == EncodedLength(|content|) + (content + rest);
  }

  /** What a sender puts out: a tag as sent and a content. */
  datatype Item = Item(sent: uint8, content: seq<uint8>)

  function EncodedAll(items: seq<Item>): seq<uint8> {
    if items == [] then [] else Encoded(items[0].sent, items[0].content) + EncodedAll(items[1..])
  }

  function ContentsOf(items: seq<Item>): seq<seq<uint8>> {
    if items == [] then [] else [items[0].content] + ContentsOf(items[1..])
  }

  /** The octet is the tag wanted, primitive or constructed. */
  predicate Asked(sent: uint8, tag: Tag) {
    match tag
    case Universal(t) => Primitive(t) && (sent == t || sent == t + 0x20)
    case Context(n) => n < 0x20 && (sent == 0x80 + n || sent == 0xA0 + n)
  }

  lemma AskedIsWanted(sent: uint8, tag: Tag)
    requires Asked(sent, tag)
    ensures Primitive(Wanted(tag)) && (sent == Wanted(tag) || sent == Wanted(tag) + 0x20)
  {
  }

  predicate Answers(items: seq<Item>, tags: seq<Tag>) {
    |items| == |tags| &&
    forall i :: 0 <= i < |items| ==> Asked(items[i].sent, tags[i]) && |items[i].content| < Power(SIZE_OCTETS)
  }

  /** A list of encoded elements is decoded to exactly its contents, leaving exactly what follows. */
  lemma {:induction false} ElementsReadBack(items: seq<Item>, tags: seq<Tag>, rest: seq<uint8>)
    requires Answers(items, tags)
    ensures Elements(EncodedAll(items) + rest, tags) == (true, ContentsOf(items), rest)
    decreases |items|
  {
    hide Encoded, Element, Plain, Power, Asked, Wanted;
    if items == [] {
      assert EncodedAll(items) + rest == rest;
    } else {
      var i := items[0];
      var more := EncodedAll(items[1..]) + rest;
      assert EncodedAll(items) + rest == Encoded(i.sent, i.content) + more;
      ItemReadsBack(i, tags[0], more);
      EncodedStarts(i.sent, i.content);
      ElementsReadBack(items[1..], tags[1..], rest);
    }
  }

  lemma ItemReadsBack(item: Item, tag: Tag, more: seq<uint8>)
    requires Asked(item.sent, tag) && |item.content| < Power(SIZE_OCTETS)
    ensures Element(Encoded(item.sent, item.content) + more, Wanted(tag)) == Done(item.content, more)
  {
    hide Element, Power, Asked, Wanted, EncodedLength;
    AskedIsWanted(item.sent, tag);
    ElementReadsBack(Wanted(tag), item.content, more);
  }

  lemma EncodedStarts(sent: uint8, content: seq<uint8>)
    ensures Encoded(sent, content) != []
  {
  }

  // ---------------------------------------------------------------- any input

  /** A success cuts the input into a header of at least two octets, the tag or its constructed form first, the content and the rest. */
  lemma SplitsInput(d: seq<uint8>, tag: uint8) returns (header: seq<uint8>)
    requires Element(d, tag).Done?
    ensures d == header + Element(d, tag).content + Element(d, tag).rest
    ensures 2 <= |header| <= 2 + SIZE_OCTETS
    ensures header[0] == tag || header[0] as int == tag as int + 0x20
    ensures |Element(d, tag).rest| < |d|
  {
    hide AfterTag;
    var e, r := d[1..], Element(d, tag);
    AfterTagSplits(e);
    var k := |e| - |r.content| - |r.rest|;
    header := [d[0]] + e[..k];
    Rejoins([d[0]], e[..k], r.content, r.rest);
  }

  lemma AfterTagSplits(e: seq<uint8>)
    requires AfterTag(e).Done?
    ensures var k := |e| - |AfterTag(e).content| - |AfterTag(e).rest|;
            1 <= k <= 1 + SIZE_OCTETS && e == e[..k] + AfterTag(e).content + AfterTag(e).rest
  {
    hide BigEndian;
    var r := AfterTag(e);
    if e[0] < 0x80 {
      assert e == e[..1] + r.content + r.rest;
    } else {
      var k := Smaller(e[0] as nat - 0x80, |e| - 1);
      assert e == e[..1 + k] + r.content + r.rest;
    }
  }

  /** One header and its content behind the other. */
  function Weave(headers: seq<seq<uint8>>, contents: seq<seq<uint8>>): seq<uint8>
    requires |headers| == |contents|
  {
    if headers == [] then [] else headers[0] + contents[0] + Weave(headers[1..], contents[1..])
  }

  /** The octet is that of the tag, with or without the constructed flag. */
  predicate Marked(octet: uint8, tag: Tag) {
    match tag
    case Universal(t) => octet as int == t as int || octet as int == t as int + 0x20
    case Context(n) => n < 0x80 ==> octet as int == 0x80 + n as int || octet as int == 0xA0 + n as int
  }

  predicate Heads(header: seq<uint8>, tag: Tag) {
    2 <= |header| <= 2 + SIZE_OCTETS && Marked(header[0], tag)
  }

  /**
   * The contents lie in the input one behind the other, each behind a header with the tag
   * wanted; a success leaves what follows the last, a failure some end of that.
   */
  lemma {:induction false} ElementsLieInOrder(d: seq<uint8>, tags: seq<Tag>) returns (headers: seq<seq<uint8>>, left: seq<uint8>)
    ensures var (ok, contents, rest) := Elements(d, tags);
            && |headers| == |contents| <= |tags| && d == Weave(headers, contents) + left
            && (forall i :: 0 <= i < |headers| ==> Heads(headers[i], tags[i]))
            && (if ok then |contents| == |tags| && rest == left else |rest| <= |left| && rest == left[|left| - |rest|..])
    decreases |tags|
  {
    hide Element, Plain, Wanted, Heads, Marked;
    headers, left := [], d;
    if tags != [] && d != [] {
      var r := Element(d, Wanted(tags[0]));
      if r.Done? {
        var header := ElementLies(d, tags[0]);
        var more;
        more, left := ElementsLieInOrder(r.rest, tags[1..]);
        headers := [header] + more;
        WeaveFront(header, r.content, more, Elements(r.rest, tags[1..]).1);
        Rejoins(header, r.content, Weave(more, Elements(r.rest, tags[1..]).1), left);
      } else {
        RestIsSuffix(d, Wanted(tags[0]));
      }
    }
  }

  lemma ElementLies(d: seq<uint8>, tag: Tag) returns (header: seq<uint8>)
    requires Element(d, Wanted(tag)).Done?
    ensures d == header + Element(d, Wanted(tag)).content + Element(d, Wanted(tag)).rest && Heads(header, tag)
  {
    header := SplitsInput(d, Wanted(tag));
  }

  lemma WeaveFront(header: seq<uint8>, content: seq<uint8>, headers: seq<seq<uint8>>, contents: seq<seq<uint8>>)
    requires |headers| == |contents|
    ensures Weave([header] + headers, [content] + contents) == header + content + Weave(headers, contents)
  {
    assert ([header] + headers)[1..] == headers && ([content] + contents)[1..] == contents;
  }

  lemma Rejoins(header: seq<uint8>, content: seq<uint8>, more: seq<uint8>, left: seq<uint8>)
    ensures header + content + (more + left) == header + content + more + left
    ensures header + (content + more + left) == header + content + more + left
  {
  }

  lemma RestIsSuffix(d: seq<uint8>, tag: uint8)
    requires d != []
    ensures var rest := Element(d, tag).rest;
            |rest| < |d| && rest == d[|d| - |rest|..]
  {
  }

  /** If the input ends inside the length octets, decoding succeeds exactly when those present are all zero. */
  lemma TruncatedLengthExact(d: seq<uint8>)
    requires d != [] && 0x80 <= d[0] && d[0] as nat - 0x80 <= SIZE_OCTETS && |d| - 1 < d[0] as nat - 0x80
    ensures AfterTag(d).Done? <==> forall i :: 1 <= i < |d| ==> d[i] == 0
    ensures AfterTag(d).Done? ==> AfterTag(d) == Done([], [])
  {
    var k := Smaller(d[0] as nat - 0x80, |d| - 1);
    assert d[1 + k..] == [];
    var octets := d[1..1 + k];
    ZeroExact(octets);
    assert forall i :: 0 <= i < k ==> octets[i] == d[i + 1];
    assert forall i :: 1 <= i < |d| ==> d[i] == octets[i - 1];
  }

  lemma {:induction false} ZeroExact(s: seq<uint8>)
    ensures BigEndian(s) == 0 <==> forall i :: 0 <= i < |s| ==> s[i] == 0
    decreases |s|
  {
    if s != [] {
      ZeroExact(s[..|s| - 1]);
      assert forall i :: 0 <= i < |s| - 1 ==> s[..|s| - 1][i] == s[i];
    }
  }
}
