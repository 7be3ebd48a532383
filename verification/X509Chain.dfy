/**
 * Certificate chains: a linked list from the root to the end entity, checked link by link
 * and reversed in place.
 */
module X509Chain {
  import opened Wrappers

  const CERTIFICATE_IDN: bv32 := 0x100
  const CERTIFICATE_MBR: bv32 := 0x200
  const CERTIFICATE_UNR: bv32 := 0x300
  const CERTIFICATE_INV: bv32 := 0x400

  type PublicKey = seq<bv8>

  /** X509DistinguishedName */
  datatype Name = Name(ou: seq<bv8>, cn: seq<bv8>)

  /** The fields of a certificate that the chain check reads; kinds are its extended key usages. */
  datatype Certificate = Certificate(raw: seq<bv8>, signature: seq<bv8>, subject: Name, issuer: Name,
                                     publicKey: PublicKey, kinds: bv32, ca: bool, akiSize: nat)

  /** ECDSA verification of a certificate with a key; what it computes is not modelled. */
  type Verifier = (Certificate, PublicKey) -> bool

  datatype Status = Ok | ErrSignature | ErrSecurity

  /** X509CertificateChain */
  class Node {
    const certificate: Certificate
    var next: Node?

    constructor (certificate: Certificate, next: Node?)
      ensures this.certificate == certificate && this.next == next
    {
      this.certificate := certificate;
      this.next := next;
    }
  }

  /** The i-th node, or null behind the last and before the first. */
  ghost function NodeAt(nodes: seq<Node>, i: int): Node? {
    if 0 <= i < |nodes| then nodes[i] else null
  }

  /** The nodes of the list that starts at head, in order and without a cycle. */
  ghost predicate IsList(head: Node?, nodes: seq<Node>)
    reads nodes
  {
    && head == NodeAt(nodes, 0)
    && (forall i :: 0 <= i < |nodes| ==> nodes[i].next == NodeAt(nodes, i + 1))
    && (forall i, j :: 0 <= i < j < |nodes| ==> nodes[i] != nodes[j])
  }

  function Certificates(nodes: seq<Node>): (r: seq<Certificate>)
    ensures |r| == |nodes|
  {
    seq(|nodes|, i requires 0 <= i < |nodes| => nodes[i].certificate)
  }

  // ---------------------------------------------------------------- what a chain has to be

  predicate Subset(a: bv32, b: bv32) {
    b & a == a
  }

  predicate AkiRequired(kind: bv32) {
    kind == CERTIFICATE_IDN || kind == CERTIFICATE_MBR || kind == CERTIFICATE_UNR
  }

  /** Each certificate is signed with the key of the one before it, and the first with the given key if there is one. */
  predicate SignedBy(certs: seq<Certificate>, i: nat, key: Option<PublicKey>, verify: Verifier)
    requires i < |certs|
  {
    if i > 0 then verify(certs[i], certs[i - 1].publicKey)
    else key.Some? ==> verify(certs[0], key.value)
  }

  /** The usages that the i-th certificate may have at most: chainValidForType after those before it. */
  function Limit(certs: seq<Certificate>, i: nat): bv32
    requires i <= |certs|
  {
    if i > 0 then certs[i - 1].kinds else CERTIFICATE_UNR
  }

  function Below(certs: seq<Certificate>, i: nat): Option<Certificate> {
    if i + 1 < |certs| then Some(certs[i + 1]) else None
  }

  /** What the chain check asks of a certificate, given what is above and below it. */
  predicate CertOk(cert: Certificate, limit: bv32, below: Option<Certificate>, isRoot: bool, kind: bv32) {
    && Subset(cert.kinds, limit)
    && (!isRoot && AkiRequired(kind) ==> cert.akiSize != 0)
    && match below
       case Some(next) => cert.subject == next.issuer && cert.ca
       case None => kind != 0 ==> cert.kinds == kind
  }

  predicate LinkOk(certs: seq<Certificate>, i: nat, kind: bv32)
    requires i < |certs|
  {
    CertOk(certs[i], Limit(certs, i), Below(certs, i), i == 0, kind)
  }

  ghost predicate ChainOk(certs: seq<Certificate>, key: Option<PublicKey>, kind: bv32, verify: Verifier) {
    forall i :: 0 <= i < |certs| ==> SignedBy(certs, i, key, verify) && LinkOk(certs, i, kind)
  }

  // ---------------------------------------------------------------- checking

  /** AJ_X509CompareNames */
  predicate CompareNames(a: Name, b: Name) {
    |a.ou| == |b.ou| && |a.cn| == |b.cn| && a.ou == b.ou && a.cn == b.cn
  }

  /** AJ_X509VerifyChain */
  method VerifyChain(root: Node?, ghost nodes: seq<Node>, rootKey: Option<PublicKey>, kind: bv32, verify: Verifier)
    returns (status: Status)
    requires IsList(root, nodes)
    ensures status == Ok <==> ChainOk(Certificates(nodes), rootKey, kind, verify)
  {
    hide Subset, Both, AkiRequired, LinkOk, SignedBy, Limit, Below, KeyFor;
    ghost var certs := Certificates(nodes);
    var validFor := CERTIFICATE_UNR;
    var akiRequired := AkiRequired(kind);
    var isRoot := true;
    var key := rootKey;
    var node := root;
    ghost var i := 0;
    RootLimit(certs, rootKey);
    while node != null
      invariant 0 <= i <= |nodes|
      invariant node == NodeAt(nodes, i)
      invariant isRoot <==> i == 0
      invariant key == KeyFor(certs, i, rootKey)
      invariant validFor == Limit(certs, i)
      invariant forall k :: 0 <= k < i ==> SignedBy(certs, k, rootKey, verify) && LinkOk(certs, k, kind)
      decreases |nodes| - i
    {
      var cert := node.certificate;
      assert node == nodes[i] && node.next == NodeAt(nodes, i + 1);
      LinkIs(certs, i, kind);
      SignedIs(certs, i, rootKey, verify);
      NextIs(nodes, i);
      if key.Some? && !verify(cert, key.value) {
        assert !SignedBy(certs, i, rootKey, verify);
        return ErrSignature;
      }
      if !Subset(cert.kinds, validFor) {
        assert !LinkOk(certs, i, kind);
        return ErrSecurity;
      }
      BothOfSubset(cert.kinds, validFor);
      validFor := Both(validFor, cert.kinds);
      if !isRoot && akiRequired && cert.akiSize == 0 {
        assert !LinkOk(certs, i, kind);
        return ErrSecurity;
      }
      if node.next != null {
        if !CompareNames(cert.subject, node.next.certificate.issuer) {
          assert !LinkOk(certs, i, kind);
          return ErrSecurity;
        }
        if !cert.ca {
          assert !LinkOk(certs, i, kind);
          return ErrSecurity;
        }
      } else if kind != 0 && kind != cert.kinds {
        assert !LinkOk(certs, i, kind);
        return ErrSecurity;
      }
      key := Some(cert.publicKey);
      node := node.next;
      isRoot := false;
      i := i + 1;
    }
    return Ok;
  }

  lemma RootLimit(certs: seq<Certificate>, rootKey: Option<PublicKey>)
    ensures Limit(certs, 0) == CERTIFICATE_UNR && KeyFor(certs, 0, rootKey) == rootKey
  {
  }

  /** The key that the i-th certificate is to be verified with, if any. */
  function KeyFor(certs: seq<Certificate>, i: nat, rootKey: Option<PublicKey>): Option<PublicKey>
    requires i <= |certs|
  {
    if i > 0 then Some(certs[i - 1].publicKey) else rootKey
  }

  lemma SignedIs(certs: seq<Certificate>, i: nat, rootKey: Option<PublicKey>, verify: Verifier)
    requires i < |certs|
    ensures var key := KeyFor(certs, i, rootKey);
            SignedBy(certs, i, rootKey, verify) <==> (key.Some? ==> verify(certs[i], key.value))
    ensures KeyFor(certs, i + 1, rootKey) == Some(certs[i].publicKey)
  {
  }

  lemma LinkIs(certs: seq<Certificate>, i: nat, kind: bv32)
    requires i < |certs|
    ensures LinkOk(certs, i, kind) <==> CertOk(certs[i], Limit(certs, i), Below(certs, i), i == 0, kind)
    ensures Limit(certs, i + 1) == certs[i].kinds
  {
  }

  lemma NextIs(nodes: seq<Node>, i: nat)
    requires i < |nodes|
    ensures NodeAt(nodes, i + 1) == null <==> Below(Certificates(nodes), i) == None
    ensures NodeAt(nodes, i + 1) != null ==> Below(Certificates(nodes), i) == Some(NodeAt(nodes, i + 1).certificate)
  {
  }

  /** The usages in both. */
  function Both(a: bv32, b: bv32): bv32 {
    a & b
  }

  lemma BothOfSubset(a: bv32, b: bv32)
    requires Subset(a, b)
    ensures Both(b, a) == a
  {
  }

  lemma SubsetTransitive(a: bv32, b: bv32, c: bv32)
    requires Subset(a, b) && Subset(b, c)
    ensures Subset(a, c)
  {
  }

  lemma SubsetReflexive(a: bv32)
    ensures Subset(a, a)
  {
  }

  lemma ValidKind(kinds: bv32)
    requires Subset(kinds, CERTIFICATE_UNR)
    ensures kinds & CERTIFICATE_INV == 0
  {
  }

  /**
   * All that is asked of a chain, certificate by certificate: a signature with the key of the one
   * above, or the given key at the root; no usage that the one above lacks, nor any but identity and
   * membership at the root; an AKI below the root where the type asks for it; a CA of the right name
   * above every other; and the type asked for at the end.
   */
  lemma ChainExact(certs: seq<Certificate>, key: Option<PublicKey>, kind: bv32, verify: Verifier)
    ensures ChainOk(certs, key, kind, verify) <==> forall i :: 0 <= i < |certs| ==> InPlace(certs, i, key, kind, verify)
  {
    hide InPlace, SignedBy, LinkOk;
    forall i | 0 <= i < |certs|
      ensures SignedBy(certs, i, key, verify) && LinkOk(certs, i, kind) <==> InPlace(certs, i, key, kind, verify)
    {
      InPlaceExact(certs, i, key, kind, verify);
    }
  }

  predicate InPlace(certs: seq<Certificate>, i: nat, key: Option<PublicKey>, kind: bv32, verify: Verifier)
    requires i < |certs|
  {
    && (if i == 0 then key.Some? ==> verify(certs[0], key.value) else verify(certs[i], certs[i - 1].publicKey))
    && Both(if i == 0 then 0x300 else certs[i - 1].kinds, certs[i].kinds) == certs[i].kinds
    && (i > 0 && (kind == 0x100 || kind == 0x200 || kind == 0x300) ==> certs[i].akiSize != 0)
    && (if i + 1 < |certs| then certs[i].subject == certs[i + 1].issuer && certs[i].ca else kind != 0 ==> certs[i].kinds == kind)
  }

  lemma InPlaceExact(certs: seq<Certificate>, i: nat, key: Option<PublicKey>, kind: bv32, verify: Verifier)
    requires i < |certs|
    ensures SignedBy(certs, i, key, verify) && LinkOk(certs, i, kind) <==> InPlace(certs, i, key, kind, verify)
  {
    hide Subset, Both;
    SubsetExact(certs[i].kinds, Limit(certs, i));
  }

  lemma SubsetExact(a: bv32, b: bv32)
    ensures Subset(a, b) <==> Both(b, a) == a
  {
  }

  /** In an accepted chain no certificate has a usage that any certificate above it lacks. */
  lemma {:induction false} UsagesNest(certs: seq<Certificate>, key: Option<PublicKey>, kind: bv32, verify: Verifier, i: nat, j: nat)
    requires ChainOk(certs, key, kind, verify) && i <= j < |certs|
    ensures Subset(certs[j].kinds, certs[i].kinds)
    decreases j
  {
    hide Subset;
    assert LinkOk(certs, j, kind);
    if i < j {
      UsagesNest(certs, key, kind, verify, i, j - 1);
      SubsetTransitive(certs[j].kinds, certs[j - 1].kinds, certs[i].kinds);
    } else {
      SubsetReflexive(certs[i].kinds);
    }
  }

  /** So the type asked of the end entity is a usage of every certificate, and none is an invalid one. */
  lemma ChainSuitsKind(certs: seq<Certificate>, key: Option<PublicKey>, kind: bv32, verify: Verifier, i: nat)
    requires ChainOk(certs, key, kind, verify) && i < |certs|
    ensures kind != 0 ==> Subset(kind, certs[i].kinds)
    ensures certs[i].kinds & CERTIFICATE_INV == 0
  {
    hide Subset;
    UsagesNest(certs, key, kind, verify, i, |certs| - 1);
    UsagesNest(certs, key, kind, verify, 0, i);
    assert LinkOk(certs, |certs| - 1, kind) && LinkOk(certs, 0, kind);
    SubsetTransitive(certs[i].kinds, certs[0].kinds, CERTIFICATE_UNR);
    ValidKind(certs[i].kinds);
  }

  function WithoutAki(certs: seq<Certificate>): (r: seq<Certificate>)
    ensures |r| == |certs|
  {
    seq(|certs|, i requires 0 <= i < |certs| => certs[i].(akiSize := 0))
  }

  /** The types that ask for an authority key identifier. */
  predicate IdentityOrMembership(kind: bv32) {
    kind == 0x100 || kind == 0x200 || kind == 0x300
  }

  /** Below the root an accepted chain for an identity, a membership or both has an AKI in every certificate. */
  lemma AkiPresent(certs: seq<Certificate>, key: Option<PublicKey>, kind: bv32, verify: Verifier, i: nat)
    requires ChainOk(certs, key, kind, verify) && IdentityOrMembership(kind) && 0 < i < |certs|
    ensures certs[i].akiSize != 0
  {
    hide Subset;
    assert LinkOk(certs, i, kind);
  }

  /** A verifier whose answer does not depend on the AKI, which it reads nothing of. */
  ghost predicate BlindToAki(verify: Verifier) {
    forall c: Certificate, key: PublicKey :: verify(c.(akiSize := 0), key) == verify(c, key)
  }

  /**
   * Without any AKI the chain is accepted exactly if it is accepted with them and is either a single
   * certificate or for a type that asks for none.
   */
  lemma WithoutAkiExact(certs: seq<Certificate>, key: Option<PublicKey>, kind: bv32, verify: Verifier)
    requires BlindToAki(verify)
    ensures ChainOk(WithoutAki(certs), key, kind, verify) <==>
              ChainOk(certs, key, kind, verify) && (|certs| <= 1 || !IdentityOrMembership(kind))
  {
    hide Subset;
    var bare := WithoutAki(certs);
    if |certs| > 1 && IdentityOrMembership(kind) {
      assert !LinkOk(bare, 1, kind);
    } else {
      forall i | 0 <= i < |certs|
        ensures SignedBy(bare, i, key, verify) == SignedBy(certs, i, key, verify)
        ensures LinkOk(bare, i, kind) == LinkOk(certs, i, kind)
      {
      }
    }
  }

  /** Trust goes down the chain: if it is accepted from a key, every certificate is signed by a CA of the chain or by that key. */
  lemma SignedFromKey(certs: seq<Certificate>, key: PublicKey, kind: bv32, verify: Verifier, i: nat)
    requires ChainOk(certs, Some(key), kind, verify) && i < |certs|
    ensures if i == 0 then verify(certs[0], key)
            else verify(certs[i], certs[i - 1].publicKey) && certs[i - 1].ca && certs[i - 1].subject == certs[i].issuer
  {
    hide Subset;
    assert SignedBy(certs, i, Some(key), verify);
    if i > 0 {
      assert LinkOk(certs, i - 1, kind);
    }
  }

  // ---------------------------------------------------------------- reversing

  function Reversed(nodes: seq<Node>): (r: seq<Node>)
    ensures |r| == |nodes|
    ensures forall i :: 0 <= i < |r| ==> r[i] == nodes[|nodes| - 1 - i]
  {
    if nodes == [] then [] else Reversed(nodes[1..]) + [nodes[0]]
  }

  /** AJ_X509ReverseChain: the same nodes, linked the other way round. */
  method ReverseChain(root: Node?, ghost nodes: seq<Node>) returns (last: Node?)
    requires IsList(root, nodes)
    modifies nodes
    ensures IsList(last, Reversed(nodes))
  {
    last := null;
    var node := root;
    ghost var i := 0;
    while node != null
      invariant 0 <= i <= |nodes|
      invariant node == NodeAt(nodes, i) && last == NodeAt(nodes, i - 1)
      invariant forall k :: 0 <= k < i ==> nodes[k].next == NodeAt(nodes, k - 1)
      invariant forall k :: i <= k < |nodes| ==> nodes[k].next == NodeAt(nodes, k + 1)
      decreases |nodes| - i
    {
      assert node == nodes[i];
      var temp := node.next;
      node.next := last;
      last := node;
      node := temp;
      i := i + 1;
    }
    ghost var r := Reversed(nodes);
    forall k | 0 <= k < |r|
      ensures r[k].next == NodeAt(r, k + 1)
    {
      assert r[k] == nodes[|nodes| - 1 - k];
      assert NodeAt(r, k + 1) == NodeAt(nodes, |nodes| - 1 - k - 1);
    }
  }

  lemma {:induction false} ReversedTwice(nodes: seq<Node>)
    ensures Reversed(Reversed(nodes)) == nodes
  {
    var r := Reversed(Reversed(nodes));
    forall i | 0 <= i < |nodes|
      ensures r[i] == nodes[i]
    {
      assert r[i] == Reversed(nodes)[|nodes| - 1 - i];
    }
  }

  lemma SameNodes(nodes: seq<Node>)
    ensures (set n | n in Reversed(nodes)) == (set n | n in nodes)
  {
    var r := Reversed(nodes);
    forall n | n in nodes ensures n in r {
      var i :| 0 <= i < |nodes| && nodes[i] == n;
      assert r[|nodes| - 1 - i] == n;
    }
  }

  /** The loop of AJ_X509ChainMarshal: one certificate after another, until one cannot be marshalled. */
  method MarshalNodes(head: Node?, ghost nodes: seq<Node>, room: nat) returns (sent: seq<Certificate>, ok: bool)
    requires IsList(head, nodes)
    ensures ok <==> |nodes| <= room
    ensures sent == Certificates(nodes)[..if ok then |nodes| else room]
  {
    sent, ok := [], true;
    var node := head;
    while node != null
      invariant |sent| <= |nodes| && |sent| <= room && node == NodeAt(nodes, |sent|)
      invariant sent == Certificates(nodes)[..|sent|]
      decreases |nodes| - |sent|
    {
      if |sent| == room {
        return sent, false;
      }
      assert node == nodes[|sent|];
      sent := sent + [node.certificate];
      node := node.next;
    }
  }

  /**
   * AJ_X509ChainMarshal: the certificates go out from the end entity to the root, and the list
   * is as it was before, whether all of them could be marshalled or not.
   */
  method ChainMarshal(root: Node?, ghost nodes: seq<Node>, room: nat) returns (sent: seq<Certificate>, ok: bool)
    requires IsList(root, nodes)
    modifies nodes
    ensures IsList(root, nodes)
    ensures ok <==> |nodes| <= room
    ensures sent == Certificates(Reversed(nodes))[..if ok then |nodes| else room]
  {
    hide IsList, Certificates;
    ListHead(root, nodes);
    SameNodes(nodes);
    var head := ReverseChain(root, nodes);
    sent, ok := MarshalNodes(head, Reversed(nodes), room);
    ReversedTwice(nodes);
    head := ReverseChain(head, Reversed(nodes));
    ListHead(head, nodes);
  }

  lemma ListHead(head: Node?, nodes: seq<Node>)
    requires IsList(head, nodes)
    ensures head == NodeAt(nodes, 0)
  {
  }
}
