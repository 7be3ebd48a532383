/**
 * Access control: rules of a policy and of manifests fill one byte of permission bits for
 * every member and peer, and a message is let through when the bits say so.
 */
module AccessControl {
  // ---------------------------------------------------------------- rules and members

  /** A character string of C: no character of it is the terminator. */
  type CString = s: string | '\0' !in s witness ""

  datatype PermissionMember = PermissionMember(mbr: CString, kind: nat, action: bv8)

  datatype PermissionRule = PermissionRule(obj: CString, ifn: CString, members: seq<PermissionMember>)

  type PublicKey = seq<bv8>

  datatype PermissionPeer = PermissionPeer(kind: nat, pub: PublicKey, group: seq<bv8>)

  datatype PermissionACL = PermissionACL(peers: seq<PermissionPeer>, rules: seq<PermissionRule>)

  /** AccessControlMember: allow and deny have one entry for each peer. */
  datatype AccessMember = AccessMember(id: nat, obj: CString, ifn: CString, mbr: CString, deny: seq<bool>, allow: seq<bv8>)

  const NAME_MAP_GUID_SIZE: nat := 4

  const MEMBER_TYPE_ANY: nat := 0
  const MEMBER_TYPE_METHOD: nat := 1
  const MEMBER_TYPE_SIGNAL: nat := 2
  const MEMBER_TYPE_PROPERTY: nat := 3

  const ACTION_PROVIDE: bv8 := 0x1
  const ACTION_OBSERVE: bv8 := 0x2
  const ACTION_MODIFY: bv8 := 0x4

  const PEER_TYPE_ALL: nat := 0
  const PEER_TYPE_ANY_TRUSTED: nat := 1
  const PEER_TYPE_FROM_CA: nat := 2
  const PEER_TYPE_WITH_PUBLIC_KEY: nat := 3
  const PEER_TYPE_WITH_MEMBERSHIP: nat := 4

  /** The permission bits a policy sets; a manifest sets the same bits four places higher. */
  const METHOD_INCOMING: bv8 := 0x01
  const METHOD_OUTGOING: bv8 := 0x02
  const PRPSET_INCOMING: bv8 := 0x04
  const PRPSET_OUTGOING: bv8 := 0x08

  /** MEMBER_TYPE of the first character of a member description. */
  const SIGNAL: int := 0
  const METHOD: int := 1
  const PROPERTY: int := 2

  function CharAt(s: CString, i: nat): char {
    if i < |s| then s[i] else '\0'
  }

  function Skip(s: CString, annotations: set<char>): CString {
    if s != "" && s[0] in annotations then s[1..] else s
  }

  /** What a rule is matched against: the descriptions without their annotations, and the member type. */
  datatype Target = Target(obj: CString, ifn: CString, mbr: CString, kind: int)

  predicate WellFormed(m: AccessMember) {
    m.mbr != "" && |m.deny| == |m.allow| == NAME_MAP_GUID_SIZE
  }

  function TargetOf(m: AccessMember): Target
    requires WellFormed(m)
  {
    Target(m.obj, Skip(m.ifn, {'$', '#'}), Skip(m.mbr[1..], {'&'}), m.mbr[0] as int / 16 - 2)
  }

  // ---------------------------------------------------------------- matching a name

  /** The name in a description ends where the rest of it begins. */
  predicate NameEnds(desc: CString, i: nat, kind: int) {
    if kind == PROPERTY then CharAt(desc, i) in {'<', '=', '>'} else CharAt(desc, i) in {'\0', ' '}
  }

  /** A pattern matches by its text before a wildcard, or as the whole name. */
  ghost predicate Matches(name: CString, desc: CString, kind: int) {
    || (exists k :: 0 <= k < |name| && name[k] == '*' && name[..k] <= desc)
    || ('*' !in name && name <= desc && NameEnds(desc, |name|, kind))
  }

  /** AJ_CommonPath */
  method CommonPath(name: CString, desc: CString, kind: int) returns (common: bool)
    ensures common == Matches(name, desc, kind)
  {
    var i := 0;
    while i < |name|
      invariant 0 <= i <= |name| && i <= |desc|
      invariant name[..i] == desc[..i] && '*' !in name[..i]
    {
      if name[i] == '*' {
        return true;
      }
      if name[i] != CharAt(desc, i) {
        assert forall k :: 0 <= k < i ==> name[k] == name[..i][k];
        NoMatch(name, desc, i, kind);
        return false;
      }
      i := i + 1;
    }
    assert name[..i] == name;
    return NameEnds(desc, i, kind);
  }

  lemma NoMatch(name: CString, desc: CString, i: nat, kind: int)
    requires i < |name| && i <= |desc| && name[i] != '*' && name[i] != CharAt(desc, i)
    requires forall k :: 0 <= k < i ==> name[k] != '*'
    ensures !Matches(name, desc, kind)
  {
    forall k | 0 <= k < |name| && name[k] == '*'
      ensures !(name[..k] <= desc)
    {
      assert k > i;
      assert name[..k][i] == name[i];
    }
  }

  /** MemberType */
  predicate KindMatches(a: nat, b: int) {
    a == MEMBER_TYPE_ANY || (a == MEMBER_TYPE_SIGNAL && b == SIGNAL) ||
    (a == MEMBER_TYPE_METHOD && b == METHOD) || (a == MEMBER_TYPE_PROPERTY && b == PROPERTY)
  }

  ghost predicate MemberMatches(m: PermissionMember, t: Target) {
    Matches(m.mbr, t.mbr, t.kind) && KindMatches(m.kind, t.kind)
  }

  ghost predicate RuleMatches(r: PermissionRule, t: Target) {
    Matches(r.obj, t.obj, 0) && Matches(r.ifn, t.ifn, 0)
  }

  // ---------------------------------------------------------------- permission bits

  predicate Has(bits: bv8, mask: bv8) {
    bits & mask != 0
  }

  function Or(a: bv8, b: bv8): bv8 {
    a | b
  }

  /** A permission in the place where manifests put it. */
  function Upper(bits: bv8): bv8 {
    bits << 4
  }

  predicate LowNibble(bits: bv8) {
    bits & 0xF0 == 0
  }

  /** The bits one member of a rule adds. */
  function GrantBits(kind: int, action: bv8): bv8 {
    if kind == SIGNAL then
      Or(if Has(action, ACTION_OBSERVE) then METHOD_OUTGOING else 0, if Has(action, ACTION_PROVIDE) then METHOD_INCOMING else 0)
    else if kind == METHOD then
      Or(if Has(action, ACTION_PROVIDE) then METHOD_OUTGOING else 0, if Has(action, ACTION_MODIFY) then METHOD_INCOMING else 0)
    else if kind == PROPERTY then
      Or(Or(if Has(action, ACTION_PROVIDE) then Or(PRPSET_OUTGOING, METHOD_OUTGOING) else 0,
            if Has(action, ACTION_MODIFY) then PRPSET_INCOMING else 0),
         if Has(action, ACTION_OBSERVE) then METHOD_INCOMING else 0)
    else 0
  }

  predicate Permission(bit: bv8) {
    bit == METHOD_INCOMING || bit == METHOD_OUTGOING || bit == PRPSET_INCOMING || bit == PRPSET_OUTGOING
  }

  // ---------------------------------------------------------------- names without and with wildcards

  /** Characters that end a name in a description. */
  const SPACE: set<char> := {' '}
  const ACCESS: set<char> := {'<', '=', '>'}

  /** A name: none of the characters that end one, and no wildcard. */
  predicate Word(name: CString) {
    forall c <- name :: c !in SPACE && c !in ACCESS && c != '*'
  }

  /** What follows the name of a method or signal in its description: nothing, or arguments behind a space. */
  predicate Arguments(rest: CString) {
    rest == "" || rest[0] in SPACE
  }

  /** What follows the name of a property: how it may be accessed. */
  predicate Access(rest: CString) {
    rest != "" && rest[0] in ACCESS
  }

  lemma Concatenated(a: CString, b: CString)
    ensures '\0' !in a + b
  {
  }

  /** A rule without a wildcard matches a description exactly if it is the name there, not a part of it. */
  lemma WordExact(rule: CString, name: CString, rest: CString, kind: int)
    requires Word(rule) && Word(name) && if kind == PROPERTY then Access(rest) else Arguments(rest)
    ensures '\0' !in name + rest
    ensures Matches(rule, name + rest, kind) <==> rule == name
  {
    Concatenated(name, rest);
    var desc: CString := name + rest;
    NoWildcard(rule);
    if rule == name {
      assert CharAt(desc, |rule|) == CharAt(rest, 0);
    } else if rule <= desc {
      WordsStop(rule, name, rest);
      assert CharAt(desc, |rule|) == name[|rule|] && name[|rule|] in name;
    }
  }

  /** A word at the beginning of a description does not reach beyond the name. */
  lemma WordsStop(rule: CString, name: CString, rest: CString)
    requires Word(rule) && rule <= name + rest && (Arguments(rest) || Access(rest))
    ensures rule <= name
  {
    if |name| < |rule| {
      FirstBehind(rule, name, rest);
      assert false;
    }
    assert rule == name[..|rule|];
  }

  lemma FirstBehind(s: string, name: string, rest: string)
    requires s <= name + rest && |name| < |s|
    ensures rest != "" && rest[0] in s
  {
    assert s[|name|] == rest[0];
  }

  lemma NoWildcard(rule: CString)
    requires Word(rule)
    ensures '*' !in rule && forall k :: 0 <= k < |rule| ==> rule[k] != '*'
  {
    forall k | 0 <= k < |rule| ensures rule[k] != '*' {
      assert rule[k] in rule;
    }
  }

  /** With a wildcard behind a word it matches whatever begins with the word. */
  lemma WildcardExact(prefix: CString, more: CString, desc: CString, kind: int)
    requires Word(prefix)
    ensures '\0' !in prefix + "*" + more
    ensures Matches(prefix + "*" + more, desc, kind) <==> prefix <= desc
  {
    var rule := prefix + "*" + more;
    NoWildcard(prefix);
    assert rule[|prefix|] == '*' && rule[..|prefix|] == prefix;
    if k :| 0 <= k < |rule| && rule[k] == '*' && rule[..k] <= desc {
      assert |prefix| <= k;
      assert rule[..k][..|prefix|] == prefix;
    }
  }

  /** The first character of the description of a member tells what it is. */
  predicate Describes(m: AccessMember, mark: char, annotation: CString, name: CString, rest: CString) {
    && m.mbr == [mark] + annotation + name + rest && annotation in {"", "&"}
    && Word(name) && (name != "" ==> name[0] != '&')
    && (mark == '?' || mark == '!' || mark == '@')
    && if mark == '@' then Access(rest) else Arguments(rest)
  }

  /**
   * A rule member without a wildcard applies to a method, signal or property exactly if it names it
   * and is for its kind of member or for any.
   */
  lemma MemberExact(m: AccessMember, mark: char, annotation: CString, name: CString, rest: CString, rule: PermissionMember)
    requires WellFormed(m) && Describes(m, mark, annotation, name, rest) && Word(rule.mbr)
    ensures MemberMatches(rule, TargetOf(m)) <==>
              && rule.mbr == name
              && (rule.kind == 0 || rule.kind == if mark == '!' then 2 else if mark == '?' then 1 else 3)
  {
    hide Matches, TargetOf, Word, Arguments, Access;
    MemberTarget(m, mark, annotation, name, rest);
    WordExact(rule.mbr, name, rest, TargetOf(m).kind);
  }

  lemma MemberTarget(m: AccessMember, mark: char, annotation: CString, name: CString, rest: CString)
    requires WellFormed(m) && Describes(m, mark, annotation, name, rest)
    ensures TargetOf(m).mbr == name + rest
    ensures TargetOf(m).kind == if mark == '!' then 0 else if mark == '?' then 1 else 2
  {
    assert m.mbr[1..] == annotation + (name + rest);
    if annotation == "&" {
      assert (annotation + (name + rest))[1..] == name + rest;
    } else {
      assert annotation + (name + rest) == name + rest;
    }
  }

  /** Objects and interfaces are matched by their whole names, the marks of an interface aside. */
  lemma RuleExact(m: AccessMember, obj: CString, mark: CString, ifn: CString, rule: PermissionRule)
    requires WellFormed(m) && Word(obj) && Word(ifn) && Word(rule.obj) && Word(rule.ifn)
    requires m.obj == obj && m.ifn == mark + ifn && mark in {"", "$", "#"} && (ifn != "" ==> ifn[0] !in {'$', '#'})
    ensures RuleMatches(rule, TargetOf(m)) <==> rule.obj == obj && rule.ifn == ifn
  {
    hide Matches;
    var t := TargetOf(m);
    assert t.ifn == ifn;
    WordExact(rule.obj, obj, "", 0);
    WordExact(rule.ifn, ifn, "", 0);
    assert obj + "" == obj && ifn + "" == ifn;
  }

  /** Which action lets a member of a kind do what. */
  predicate Grants(kind: int, action: bv8, bit: bv8) {
    if kind == SIGNAL then
      (bit == METHOD_OUTGOING && Has(action, ACTION_OBSERVE)) || (bit == METHOD_INCOMING && Has(action, ACTION_PROVIDE))
    else if kind == METHOD then
      (bit == METHOD_OUTGOING && Has(action, ACTION_PROVIDE)) || (bit == METHOD_INCOMING && Has(action, ACTION_MODIFY))
    else if kind == PROPERTY then
      ((bit == METHOD_OUTGOING || bit == PRPSET_OUTGOING) && Has(action, ACTION_PROVIDE)) ||
      (bit == PRPSET_INCOMING && Has(action, ACTION_MODIFY)) || (bit == METHOD_INCOMING && Has(action, ACTION_OBSERVE))
    else false
  }

  lemma OrHas(a: bv8, b: bv8, mask: bv8)
    ensures Has(Or(a, b), mask) <==> Has(a, mask) || Has(b, mask)
  {
  }

  lemma OrLow(a: bv8, b: bv8)
    requires LowNibble(a) && LowNibble(b)
    ensures LowNibble(Or(a, b))
  {
  }

  lemma NothingHas(mask: bv8)
    ensures !Has(0, mask) && LowNibble(0)
  {
  }

  lemma GrantsExact(kind: int, action: bv8, bit: bv8)
    requires Permission(bit)
    ensures Has(GrantBits(kind, action), bit) <==> Grants(kind, action, bit)
    ensures LowNibble(GrantBits(kind, action))
  {
  }

  // ---------------------------------------------------------------- rules on one member

  ghost function MembersBits(members: seq<PermissionMember>, t: Target): bv8 {
    if members == [] then 0
    else
      var m := members[|members| - 1];
      Or(MembersBits(members[..|members| - 1], t), if MemberMatches(m, t) then GrantBits(t.kind, m.action) else 0)
  }

  ghost function RulesBits(rules: seq<PermissionRule>, t: Target): bv8 {
    if rules == [] then 0
    else
      var r := rules[|rules| - 1];
      Or(RulesBits(rules[..|rules| - 1], t), if RuleMatches(r, t) then MembersBits(r.members, t) else 0)
  }

  /** A member that takes everything away: all wildcards and no action. */
  ghost predicate Denies(r: PermissionRule, m: PermissionMember, t: Target) {
    && RuleMatches(r, t) && MemberMatches(m, t) && m.action == 0
    && CharAt(r.obj, 0) == '*' && CharAt(r.ifn, 0) == '*' && CharAt(m.mbr, 0) == '*'
  }

  ghost predicate MembersDeny(r: PermissionRule, members: seq<PermissionMember>, t: Target) {
    exists j :: 0 <= j < |members| && Denies(r, members[j], t)
  }

  ghost predicate RulesDeny(rules: seq<PermissionRule>, t: Target) {
    exists i :: 0 <= i < |rules| && MembersDeny(rules[i], rules[i].members, t)
  }

  /** Some member of some rule grants the permission. */
  ghost predicate RulesGrant(rules: seq<PermissionRule>, t: Target, bit: bv8) {
    exists r, m :: r in rules && m in r.members && RuleMatches(r, t) && MemberMatches(m, t) && Grants(t.kind, m.action, bit)
  }

  lemma {:induction false} MembersBitsExact(members: seq<PermissionMember>, t: Target, bit: bv8)
    requires Permission(bit)
    ensures Has(MembersBits(members, t), bit) <==> exists m :: m in members && MemberMatches(m, t) && Grants(t.kind, m.action, bit)
    ensures LowNibble(MembersBits(members, t))
  {
    hide Has, Or, LowNibble, GrantBits, Grants, MemberMatches, Permission;
    NothingHas(bit);
    if members != [] {
      var init, m := members[..|members| - 1], members[|members| - 1];
      var more := if MemberMatches(m, t) then GrantBits(t.kind, m.action) else 0;
      MembersBitsExact(init, t, bit);
      GrantsExact(t.kind, m.action, bit);
      OrHas(MembersBits(init, t), more, bit);
      OrLow(MembersBits(init, t), more);
      assert members == init + [m];
    }
  }

  /** The bits collected over all rules are the union of what their matching members grant. */
  lemma {:induction false} RulesBitsExact(rules: seq<PermissionRule>, t: Target, bit: bv8)
    requires Permission(bit)
    ensures Has(RulesBits(rules, t), bit) <==> RulesGrant(rules, t, bit)
    ensures LowNibble(RulesBits(rules, t))
  {
    hide Has, Or, LowNibble, Grants, MemberMatches, RuleMatches, MembersBits, Permission;
    NothingHas(bit);
    if rules != [] {
      var init, r := rules[..|rules| - 1], rules[|rules| - 1];
      var more := if RuleMatches(r, t) then MembersBits(r.members, t) else 0;
      RulesBitsExact(init, t, bit);
      MembersBitsExact(r.members, t, bit);
      OrHas(RulesBits(init, t), more, bit);
      OrLow(RulesBits(init, t), more);
      assert rules == init + [r];
    }
  }

  // ---------------------------------------------------------------- the table

  datatype Suite = EcdheNull | EcdhePsk | EcdheSpeke | EcdheEcdsa

  /** AJ_AuthenticationContext: for ECDSA the subject's key and then the issuers' keys. */
  datatype Context = Context(suite: Suite, keys: seq<PublicKey>)

  ghost predicate PeerMatches(p: PermissionPeer, kind: nat, pub: PublicKey, group: seq<bv8>) {
    p.kind == kind &&
    (kind == PEER_TYPE_ALL || kind == PEER_TYPE_ANY_TRUSTED ||
     (p.pub == pub && (kind == PEER_TYPE_WITH_MEMBERSHIP ==> p.group == group)))
  }

  /** PermissionPeerFind */
  method PermissionPeerFind(peers: seq<PermissionPeer>, kind: nat, pub: PublicKey, group: seq<bv8>) returns (found: bool)
    ensures found == exists i :: 0 <= i < |peers| && PeerMatches(peers[i], kind, pub, group)
  {
    for i := 0 to |peers|
      invariant forall k :: 0 <= k < i ==> !PeerMatches(peers[k], kind, pub, group)
    {
      var head := peers[i];
      if kind == head.kind {
        if kind == PEER_TYPE_ALL || kind == PEER_TYPE_ANY_TRUSTED {
          return true;
        } else if pub == head.pub {
          if kind == PEER_TYPE_WITH_MEMBERSHIP {
            if group == head.group {
              return true;
            }
          } else {
            return true;
          }
        }
      }
    }
    return false;
  }

  ghost predicate Lists(acl: PermissionACL, kind: nat, pub: PublicKey) {
    exists i :: 0 <= i < |acl.peers| && PeerMatches(acl.peers[i], kind, pub, [])
  }

  /** The ACL names the peer by its own public key. */
  ghost predicate ByKey(acl: PermissionACL, ctx: Context) {
    ctx.suite == EcdheEcdsa && ctx.keys != [] && Lists(acl, PEER_TYPE_WITH_PUBLIC_KEY, ctx.keys[0])
  }

  /** The ACL covers the peer: by name, by an issuer, or along with everyone. */
  ghost predicate Covers(acl: PermissionACL, ctx: Context) {
    || Lists(acl, PEER_TYPE_ALL, [])
    || (ctx.suite != EcdheNull && Lists(acl, PEER_TYPE_ANY_TRUSTED, []))
    || ByKey(acl, ctx)
    || (ctx.suite == EcdheEcdsa && exists i :: 1 <= i < |ctx.keys| && Lists(acl, PEER_TYPE_FROM_CA, ctx.keys[i]))
  }

  // ---------------------------------------------------------------- whom an ACL covers

  predicate OfKind(p: PermissionPeer, kind: nat) {
    p.kind == kind
  }

  predicate OfKey(p: PermissionPeer, kind: nat, pub: PublicKey) {
    p.kind == kind && p.pub == pub
  }

  predicate NamesKey(acl: PermissionACL, kind: nat, pub: PublicKey) {
    exists p :: p in acl.peers && OfKey(p, kind, pub)
  }

  /** An ACL lists everyone or any trusted peer by an entry of that kind, and a key by an entry of the kind with that key. */
  lemma ListsExact(acl: PermissionACL, kind: nat, pub: PublicKey)
    ensures kind == 0 || kind == 1 ==> (Lists(acl, kind, pub) <==> exists p :: p in acl.peers && OfKind(p, kind))
    ensures kind == 2 || kind == 3 ==> (Lists(acl, kind, pub) <==> NamesKey(acl, kind, pub))
  {
    SomePeerMatches(acl, kind, pub);
    forall p
      ensures kind == 0 || kind == 1 ==> PeerMatches(p, kind, pub, []) == OfKind(p, kind)
      ensures kind == 2 || kind == 3 ==> PeerMatches(p, kind, pub, []) == OfKey(p, kind, pub)
    {
    }
  }

  /**
   * A peer is covered by an entry for all; unless it is anonymous, by one for any trusted peer; and,
   * with ECDSA, by one for its own key, the first of its keys, or for an issuer, any of the others.
   */
  lemma CoversExact(acl: PermissionACL, ctx: Context)
    ensures ByKey(acl, ctx) <==>
              ctx.suite == EcdheEcdsa && ctx.keys != [] && NamesKey(acl, 3, ctx.keys[0])
    ensures Covers(acl, ctx) <==>
              || (exists p :: p in acl.peers && OfKind(p, 0))
              || (ctx.suite != EcdheNull && exists p :: p in acl.peers && OfKind(p, 1))
              || (ctx.suite == EcdheEcdsa && exists k :: 0 <= k < |ctx.keys| && NamesKey(acl, if k == 0 then 3 else 2, ctx.keys[k]))
  {
    hide Lists, OfKind, NamesKey;
    ListsExact(acl, 0, []);
    ListsExact(acl, 1, []);
    forall k | 0 <= k < |ctx.keys|
      ensures var kind := if k == 0 then 3 else 2;
              Lists(acl, kind, ctx.keys[k]) <==> NamesKey(acl, kind, ctx.keys[k])
    {
      ListsExact(acl, if k == 0 then 3 else 2, ctx.keys[k]);
    }
  }

  predicate Starred(s: CString) {
    s != "" && s[0] == '*'
  }

  /** A member of a rule that stands for everything and allows nothing. */
  predicate TakesAll(r: PermissionRule, m: PermissionMember, kind: int) {
    && Starred(r.obj) && Starred(r.ifn) && Starred(m.mbr) && m.action == 0
    && (m.kind == 0 || (m.kind == 1 && kind == METHOD) || (m.kind == 2 && kind == SIGNAL) || (m.kind == 3 && kind == PROPERTY))
  }

  /** Rules deny a member exactly if one of them stands for everything of its kind and allows nothing, whatever its names. */
  lemma DenialExact(rules: seq<PermissionRule>, t: Target)
    ensures RulesDeny(rules, t) <==> exists r, m :: r in rules && m in r.members && TakesAll(r, m, t.kind)
  {
    if RulesDeny(rules, t) {
      var i :| 0 <= i < |rules| && MembersDeny(rules[i], rules[i].members, t);
      var j :| 0 <= j < |rules[i].members| && Denies(rules[i], rules[i].members[j], t);
      assert rules[i] in rules && rules[i].members[j] in rules[i].members;
      assert TakesAll(rules[i], rules[i].members[j], t.kind);
    }
    if r, m :| r in rules && m in r.members && TakesAll(r, m, t.kind) {
      var i :| 0 <= i < |rules| && rules[i] == r;
      var j :| 0 <= j < |r.members| && r.members[j] == m;
      StarMatches(r.obj, t.obj, 0);
      StarMatches(r.ifn, t.ifn, 0);
      StarMatches(m.mbr, t.mbr, t.kind);
      assert Denies(r, rules[i].members[j], t);
    }
  }

  lemma StarMatches(name: CString, desc: CString, kind: int)
    requires Starred(name)
    ensures Matches(name, desc, kind)
  {
    assert name[0] == '*' && name[..0] <= desc;
  }

  /** What the table holds for one member and one peer. */
  datatype Cell = Cell(deny: bool, allow: bv8)

  ghost predicate AclDenies(acl: PermissionACL, ctx: Context, t: Target) {
    ByKey(acl, ctx) && RulesDeny(acl.rules, t)
  }

  /** The bits an ACL adds; a peer without manifests gets the manifest bits along with the policy bits. */
  ghost function AclBits(acl: PermissionACL, ctx: Context, t: Target): bv8 {
    var acc := RulesBits(acl.rules, t);
    if ctx.suite != EcdheEcdsa then Or(acc, Upper(acc)) else acc
  }

  ghost function AclApplied(c: Cell, acl: PermissionACL, ctx: Context, t: Target): Cell {
    if Covers(acl, ctx) then Cell(c.deny || AclDenies(acl, ctx, t), Or(c.allow, AclBits(acl, ctx, t))) else c
  }

  ghost function PolicyApplied(c: Cell, acls: seq<PermissionACL>, ctx: Context, t: Target): Cell {
    if acls == [] then c
    else AclApplied(PolicyApplied(c, acls[..|acls| - 1], ctx, t), acls[|acls| - 1], ctx, t)
  }

  ghost function ManifestApplied(c: Cell, rules: seq<PermissionRule>, t: Target): Cell {
    c.(allow := Or(c.allow, Upper(RulesBits(rules, t))))
  }

  /** A manifest as received; verifies tells whether its thumbprint and signature stood up. */
  datatype Manifest = Manifest(rules: seq<PermissionRule>, verifies: bool)

  /** Manifests that do not verify are passed over. */
  ghost function ManifestsApplied(c: Cell, manifests: seq<Manifest>, t: Target): Cell {
    if manifests == [] then c
    else
      var before, m := ManifestsApplied(c, manifests[..|manifests| - 1], t), manifests[|manifests| - 1];
      if m.verifies then ManifestApplied(before, m.rules, t) else before
  }

  function CellOf(m: AccessMember, peer: nat): Cell
    requires WellFormed(m) && peer < NAME_MAP_GUID_SIZE
  {
    Cell(m.deny[peer], m.allow[peer])
  }

  function WithCell(m: AccessMember, peer: nat, c: Cell): AccessMember
    requires WellFormed(m) && peer < NAME_MAP_GUID_SIZE
  {
    m.(deny := m.deny[peer := c.deny], allow := m.allow[peer := c.allow])
  }

  predicate AllWell(members: seq<AccessMember>) {
    forall k :: 0 <= k < |members| ==> WellFormed(members[k])
  }

  /** Only the cell of the peer changes, by the ACL, the policy or the manifest. */
  ghost predicate AclEffect(before: seq<AccessMember>, after: seq<AccessMember>, peer: nat, acl: PermissionACL, ctx: Context)
    requires AllWell(before) && peer < NAME_MAP_GUID_SIZE
  {
    |after| == |before| && forall k :: 0 <= k < |before| ==>
      after[k] == WithCell(before[k], peer, AclApplied(CellOf(before[k], peer), acl, ctx, TargetOf(before[k])))
  }

  ghost predicate PolicyEffect(before: seq<AccessMember>, after: seq<AccessMember>, peer: nat, acls: seq<PermissionACL>, ctx: Context)
    requires AllWell(before) && peer < NAME_MAP_GUID_SIZE
  {
    |after| == |before| && forall k :: 0 <= k < |before| ==>
      after[k] == WithCell(before[k], peer, PolicyApplied(CellOf(before[k], peer), acls, ctx, TargetOf(before[k])))
  }

  ghost predicate ManifestEffect(before: seq<AccessMember>, after: seq<AccessMember>, peer: nat, rules: seq<PermissionRule>)
    requires AllWell(before) && peer < NAME_MAP_GUID_SIZE
  {
    |after| == |before| && forall k :: 0 <= k < |before| ==>
      after[k] == WithCell(before[k], peer, ManifestApplied(CellOf(before[k], peer), rules, TargetOf(before[k])))
  }

  ghost predicate ManifestsEffect(before: seq<AccessMember>, after: seq<AccessMember>, peer: nat, manifests: seq<Manifest>)
    requires AllWell(before) && peer < NAME_MAP_GUID_SIZE
  {
    |after| == |before| && forall k :: 0 <= k < |before| ==>
      after[k] == WithCell(before[k], peer, ManifestsApplied(CellOf(before[k], peer), manifests, TargetOf(before[k])))
  }

  ghost predicate ResetEffect(before: seq<AccessMember>, after: seq<AccessMember>, peer: nat)
    requires AllWell(before) && peer < NAME_MAP_GUID_SIZE
  {
    |after| == |before| && forall k :: 0 <= k < |before| ==> after[k] == WithCell(before[k], peer, Cell(false, 0))
  }

  datatype Status = Ok | ErrAccess

  datatype Direction = Incoming | Outgoing

  datatype PropertyCall = Get | GetAll | Set

  predicate Passes(c: Cell, bit: bv8) {
    !c.deny && Has(c.allow, bit) && Has(c.allow, Upper(bit))
  }

  class AccessTable {
    /** g_access */
    var members: seq<AccessMember>

    predicate Valid()
      reads this
    {
      AllWell(members)
    }

    /** AJ_AccessControlReset */
    method Reset(peer: nat)
      requires Valid() && peer < NAME_MAP_GUID_SIZE
      modifies this
      ensures Valid() && ResetEffect(old(members), members, peer)
    {
      var n := 0;
      while n < |members|
        invariant 0 <= n <= |members| == |old(members)| && Valid()
        invariant forall k :: 0 <= k < n ==> members[k] == WithCell(old(members)[k], peer, Cell(false, 0))
        invariant forall k :: n <= k < |members| ==> members[k] == old(members)[k]
      {
        members := members[n := WithCell(members[n], peer, Cell(false, 0))];
        n := n + 1;
      }
    }

    /** PermissionRuleAccess for the n-th member: the bits the rules give, and an explicit denial recorded on the way. */
    method RuleAccess(rules: seq<PermissionRule>, n: nat, peer: nat, withPublicKey: bool) returns (acc: bv8)
      requires Valid() && n < |members| && peer < NAME_MAP_GUID_SIZE
      modifies this
      ensures Valid() && acc == RulesBits(rules, TargetOf(old(members)[n]))
      ensures members == old(members)[n := Denied(old(members)[n], peer, withPublicKey && RulesDeny(rules, TargetOf(old(members)[n])))]
    {
      hide Or, GrantBits, Matches, Denied, MembersDeny, RulesDeny, MembersBits, RulesBits;
      var t := TargetOf(members[n]);
      ghost var was, denied := members[n], false;
      acc := 0;
      DeniedLaws(was, peer);
      NoRules(t);
      var i := 0;
      while i < |rules|
        invariant 0 <= i <= |rules| && Valid()
        invariant acc == RulesBits(rules[..i], t)
        invariant denied == (withPublicKey && RulesDeny(rules[..i], t))
        invariant members == old(members)[n := Denied(was, peer, denied)]
      {
        var rule := rules[i];
        RulesStep(rules, i, t);
        var objMatches := CommonPath(rule.obj, t.obj, 0);
        var ifnMatches := CommonPath(rule.ifn, t.ifn, 0);
        if objMatches && ifnMatches {
          ghost var deniedBefore := denied;
          NoMembers(rule, acc, t);
          var j := 0;
          while j < |rule.members|
            invariant 0 <= j <= |rule.members| && Valid()
            invariant acc == Or(RulesBits(rules[..i], t), MembersBits(rule.members[..j], t))
            invariant denied == (deniedBefore || (withPublicKey && MembersDeny(rule, rule.members[..j], t)))
            invariant members == old(members)[n := Denied(was, peer, denied)]
          {
            var member := rule.members[j];
            MembersStep(rule, rule.members, j, RulesBits(rules[..i], t), t);
            var mbrMatches := CommonPath(member.mbr, t.mbr, t.kind);
            if mbrMatches && KindMatches(member.kind, t.kind) {
              acc := Or(acc, GrantBits(t.kind, member.action));
              if withPublicKey && CharAt(rule.obj, 0) == '*' && CharAt(rule.ifn, 0) == '*'
                 && CharAt(member.mbr, 0) == '*' && member.action == 0 {
                members := members[n := Denied(members[n], peer, true)];
                denied := true;
              }
            }
            j := j + 1;
          }
          assert rule.members[..j] == rule.members;
        }
        i := i + 1;
      }
      assert rules[..i] == rules;
      assert members[n := members[n]] == members;
    }

    /** The loop of AJ_PolicyApply over the members, for one ACL that covers the peer. */
    method ApplyAcl(acl: PermissionACL, ctx: Context, peer: nat, byKey: bool)
      requires Valid() && peer < NAME_MAP_GUID_SIZE
      requires byKey == ByKey(acl, ctx) && Covers(acl, ctx)
      modifies this
      ensures Valid() && AclEffect(old(members), members, peer, acl, ctx)
    {
      hide Or, Upper, Denied, RulesDeny, RulesBits, Covers, ByKey;
      var n := 0;
      while n < |members|
        invariant 0 <= n <= |members| == |old(members)| && Valid()
        invariant forall k :: 0 <= k < n ==>
          members[k] == WithCell(old(members)[k], peer, AclApplied(CellOf(old(members)[k], peer), acl, ctx, TargetOf(old(members)[k])))
        invariant forall k :: n <= k < |members| ==> members[k] == old(members)[k]
      {
        ghost var m := members[n];
        ghost var t := TargetOf(m);
        var acc := RuleAccess(acl.rules, n, peer, byKey);
        if ctx.suite != EcdheEcdsa {
          acc := Or(acc, Upper(acc));
        }
        DeniedCell(m, peer, byKey && RulesDeny(acl.rules, t), acc);
        members := members[n := WithAllow(members[n], peer, acc)];
        n := n + 1;
      }
    }

    /** The search of AJ_PolicyApply through the peers of one ACL. */
    static method FindPeer(acl: PermissionACL, ctx: Context) returns (found: bool, byKey: bool)
      requires ctx.suite == EcdheEcdsa ==> ctx.keys != []
      ensures found == Covers(acl, ctx) && byKey == ByKey(acl, ctx)
    {
      hide PeerMatches;
      byKey := false;
      found := PermissionPeerFind(acl.peers, PEER_TYPE_ALL, [], []);
      if ctx.suite != EcdheNull {
        var trusted := PermissionPeerFind(acl.peers, PEER_TYPE_ANY_TRUSTED, [], []);
        found := found || trusted;
      }
      if ctx.suite == EcdheEcdsa {
        byKey := PermissionPeerFind(acl.peers, PEER_TYPE_WITH_PUBLIC_KEY, ctx.keys[0], []);
        found := found || byKey;
        var i := 1;
        while i < |ctx.keys| && !found
          invariant 1 <= i <= |ctx.keys|
          invariant found ==> Covers(acl, ctx)
          invariant Lists(acl, PEER_TYPE_ALL, []) || Lists(acl, PEER_TYPE_ANY_TRUSTED, []) || byKey ==> found
          invariant !found ==> forall k :: 1 <= k < i ==> !Lists(acl, PEER_TYPE_FROM_CA, ctx.keys[k])
        {
          found := PermissionPeerFind(acl.peers, PEER_TYPE_FROM_CA, ctx.keys[i], []);
          i := i + 1;
        }
      }
    }

    /** AJ_PolicyApply with a policy loaded. */
    method PolicyApply(acls: seq<PermissionACL>, ctx: Context, peer: nat)
      requires Valid() && peer < NAME_MAP_GUID_SIZE
      requires ctx.suite == EcdheEcdsa ==> ctx.keys != []
      modifies this
      ensures Valid() && PolicyEffect(old(members), members, peer, acls, ctx)
    {
      hide PolicyEffect, AclEffect, Covers, ByKey, AllWell;
      PolicyStarts(members, acls, ctx, peer);
      var a := 0;
      while a < |acls|
        invariant 0 <= a <= |acls| && Valid()
        invariant PolicyEffect(old(members), members, peer, acls[..a], ctx)
      {
        ghost var was := members;
        var found, byKey := FindPeer(acls[a], ctx);
        if found {
          ApplyAcl(acls[a], ctx, peer, byKey);
        }
        PolicyContinues(old(members), was, members, acls, a, ctx, peer);
        a := a + 1;
      }
      assert acls[..a] == acls;
    }

    /** The loop of AJ_ManifestApply over the members. */
    method ManifestApply(rules: seq<PermissionRule>, peer: nat)
      requires Valid() && peer < NAME_MAP_GUID_SIZE
      modifies this
      ensures Valid() && ManifestEffect(old(members), members, peer, rules)
    {
      hide Or, Upper, Denied, RulesDeny, RulesBits;
      var n := 0;
      while n < |members|
        invariant 0 <= n <= |members| == |old(members)| && Valid()
        invariant forall k :: 0 <= k < n ==>
          members[k] == WithCell(old(members)[k], peer, ManifestApplied(CellOf(old(members)[k], peer), rules, TargetOf(old(members)[k])))
        invariant forall k :: n <= k < |members| ==> members[k] == old(members)[k]
      {
        ghost var m := members[n];
        var acc := RuleAccess(rules, n, peer, false);
        acc := Upper(acc);
        DeniedCell(m, peer, false, acc);
        members := members[n := WithAllow(members[n], peer, acc)];
        n := n + 1;
      }
    }

    /** AJ_ManifestArrayApply */
    method ManifestArrayApply(manifests: seq<Manifest>, peer: nat)
      requires Valid() && peer < NAME_MAP_GUID_SIZE
      modifies this
      ensures Valid() && ManifestsEffect(old(members), members, peer, manifests)
    {
      hide ManifestsEffect, ManifestEffect, AllWell;
      ManifestsStart(members, manifests, peer);
      var i := 0;
      while i < |manifests|
        invariant 0 <= i <= |manifests| && Valid()
        invariant ManifestsEffect(old(members), members, peer, manifests[..i])
      {
        ghost var was := members;
        if manifests[i].verifies {
          ManifestApply(manifests[i].rules, peer);
        }
        ManifestsContinue(old(members), was, members, manifests, i, peer);
        i := i + 1;
      }
      assert manifests[..i] == manifests;
    }

    /** FindAccessControlMember: the first member with the id. */
    method Find(id: nat) returns (n: nat)
      ensures n <= |members|
      ensures n < |members| ==> members[n].id == id
      ensures forall k :: 0 <= k < n ==> members[k].id != id
    {
      n := 0;
      while n < |members| && id != members[n].id
        invariant n <= |members|
        invariant forall k :: 0 <= k < n ==> members[k].id != id
      {
        n := n + 1;
      }
    }

    /** AJ_AccessControlCheckMessage for a message on an ordinary interface. */
    method CheckMessage(id: nat, peer: nat, direction: Direction) returns (status: Status)
      requires Valid() && peer < NAME_MAP_GUID_SIZE
      ensures status == Ok <==> MemberPasses(members, id, peer, MessageBit(direction))
    {
      hide Has;
      var n := Find(id);
      if n == |members| {
        return ErrAccess;
      }
      var acc := if members[n].deny[peer] then 0 else members[n].allow[peer];
      status := ErrAccess;
      NothingPasses();
      assert FirstWith(members, id, n);
      match direction {
        case Incoming =>
          if Has(acc, METHOD_INCOMING) && Has(acc, Upper(METHOD_INCOMING)) {
            status := Ok;
          }
        case Outgoing =>
          if Has(acc, METHOD_OUTGOING) && Has(acc, Upper(METHOD_OUTGOING)) {
            status := Ok;
          }
      }
    }

    /** AJ_AccessControlCheckProperty */
    method CheckProperty(call: PropertyCall, id: nat, peer: nat, direction: Direction) returns (status: Status)
      requires Valid() && peer < NAME_MAP_GUID_SIZE
      ensures status == Ok <==> MemberPasses(members, id, peer, PropertyBit(call, direction))
    {
      hide Has;
      var n := Find(id);
      if n == |members| {
        return ErrAccess;
      }
      var acc := if members[n].deny[peer] then 0 else members[n].allow[peer];
      status := ErrAccess;
      NothingPasses();
      assert FirstWith(members, id, n);
      match direction {
        case Incoming =>
          match call {
            case Set =>
              if Has(acc, PRPSET_INCOMING) && Has(acc, Upper(PRPSET_INCOMING)) {
                status := Ok;
              }
            case _ =>
              if Has(acc, METHOD_INCOMING) && Has(acc, Upper(METHOD_INCOMING)) {
                status := Ok;
              }
          }
        case Outgoing =>
          match call {
            case Set =>
              if Has(acc, PRPSET_OUTGOING) && Has(acc, Upper(PRPSET_OUTGOING)) {
                status := Ok;
              }
            case _ =>
              if Has(acc, METHOD_OUTGOING) && Has(acc, Upper(METHOD_OUTGOING)) {
                status := Ok;
              }
          }
      }
    }
  }

  function MessageBit(direction: Direction): bv8 {
    if direction == Incoming then METHOD_INCOMING else METHOD_OUTGOING
  }

  function PropertyBit(call: PropertyCall, direction: Direction): bv8 {
    if call != Set then MessageBit(direction)
    else if direction == Incoming then PRPSET_INCOMING else PRPSET_OUTGOING
  }

  predicate Provides(action: bv8) {
    action & 1 != 0
  }

  predicate Observes(action: bv8) {
    action & 2 != 0
  }

  predicate Modifies(action: bv8) {
    action & 4 != 0
  }

  /**
   * What an action lets pass: signals go out to be observed and come in to be provided, calls go out
   * to be provided and come in to modify, and a property is provided outwards and inwards observed or
   * modified.
   */
  lemma ActionsExact(action: bv8)
    ensures Grants(SIGNAL, action, MessageBit(Outgoing)) == Observes(action)
    ensures Grants(SIGNAL, action, MessageBit(Incoming)) == Provides(action)
    ensures Grants(METHOD, action, MessageBit(Outgoing)) == Provides(action)
    ensures Grants(METHOD, action, MessageBit(Incoming)) == Modifies(action)
    ensures forall call :: Grants(PROPERTY, action, PropertyBit(call, Outgoing)) == Provides(action)
    ensures Grants(PROPERTY, action, PropertyBit(Set, Incoming)) == Modifies(action)
    ensures Grants(PROPERTY, action, PropertyBit(Get, Incoming)) == Observes(action)
    ensures Grants(PROPERTY, action, PropertyBit(GetAll, Incoming)) == Observes(action)
  {
  }

  ghost predicate FirstWith(members: seq<AccessMember>, id: nat, n: nat)
    requires n < |members|
  {
    members[n].id == id && forall k :: 0 <= k < n ==> members[k].id != id
  }

  /** There is a member with the id, and the first one lets the peer through. */
  ghost predicate MemberPasses(members: seq<AccessMember>, id: nat, peer: nat, bit: bv8)
    requires AllWell(members) && peer < NAME_MAP_GUID_SIZE
  {
    exists n :: 0 <= n < |members| && FirstWith(members, id, n) && Passes(CellOf(members[n], peer), bit)
  }

  lemma NothingPasses()
    ensures forall mask :: !Has(0, mask)
  {
    forall mask
      ensures !Has(0, mask)
    {
      NothingHas(mask);
    }
  }

  function WithAllow(m: AccessMember, peer: nat, acc: bv8): AccessMember
    requires WellFormed(m) && peer < NAME_MAP_GUID_SIZE
  {
    m.(allow := m.allow[peer := Or(m.allow[peer], acc)])
  }

  lemma DeniedCell(m: AccessMember, peer: nat, deny: bool, acc: bv8)
    requires WellFormed(m) && peer < NAME_MAP_GUID_SIZE
    ensures WellFormed(Denied(m, peer, deny))
    ensures WithAllow(Denied(m, peer, deny), peer, acc) == WithCell(m, peer, Cell(m.deny[peer] || deny, Or(m.allow[peer], acc)))
    ensures WithAllow(m, peer, acc) == WithCell(m, peer, Cell(m.deny[peer], Or(m.allow[peer], acc)))
  {
    hide Or;
    assert m.deny[peer := m.deny[peer]] == m.deny;
  }

  lemma PolicyStarts(members: seq<AccessMember>, acls: seq<PermissionACL>, ctx: Context, peer: nat)
    requires peer < NAME_MAP_GUID_SIZE && AllWell(members)
    ensures PolicyEffect(members, members, peer, acls[..0], ctx)
  {
    forall k | 0 <= k < |members|
      ensures members[k] == WithCell(members[k], peer, PolicyApplied(CellOf(members[k], peer), acls[..0], ctx, TargetOf(members[k])))
    {
      var m := members[k];
      assert m.deny[peer := m.deny[peer]] == m.deny && m.allow[peer := m.allow[peer]] == m.allow;
    }
  }

  /** One more ACL, applied where it covers the peer, in terms of the members before the policy. */
  lemma PolicyContinues(first: seq<AccessMember>, was: seq<AccessMember>, now: seq<AccessMember>,
                        acls: seq<PermissionACL>, a: nat, ctx: Context, peer: nat)
    requires peer < NAME_MAP_GUID_SIZE && a < |acls| && AllWell(first) && AllWell(was)
    requires PolicyEffect(first, was, peer, acls[..a], ctx)
    requires if Covers(acls[a], ctx) then AclEffect(was, now, peer, acls[a], ctx) else now == was
    ensures PolicyEffect(first, now, peer, acls[..a + 1], ctx)
  {
    hide Or, Covers, AclBits, AclDenies, WithCell, CellOf, TargetOf;
    assert acls[..a + 1][..a] == acls[..a] && acls[..a + 1][a] == acls[a];
    forall k | 0 <= k < |first|
      ensures now[k] == WithCell(first[k], peer, PolicyApplied(CellOf(first[k], peer), acls[..a + 1], ctx, TargetOf(first[k])))
    {
      var t := TargetOf(first[k]);
      var before := PolicyApplied(CellOf(first[k], peer), acls[..a], ctx, t);
      WithCellTwice(first[k], peer, before, AclApplied(before, acls[a], ctx, t));
    }
  }

  lemma ManifestsStart(members: seq<AccessMember>, manifests: seq<Manifest>, peer: nat)
    requires peer < NAME_MAP_GUID_SIZE && AllWell(members)
    ensures ManifestsEffect(members, members, peer, manifests[..0])
  {
    forall k | 0 <= k < |members|
      ensures members[k] == WithCell(members[k], peer, ManifestsApplied(CellOf(members[k], peer), manifests[..0], TargetOf(members[k])))
    {
      var m := members[k];
      assert m.deny[peer := m.deny[peer]] == m.deny && m.allow[peer := m.allow[peer]] == m.allow;
    }
  }

  lemma ManifestsContinue(first: seq<AccessMember>, was: seq<AccessMember>, now: seq<AccessMember>,
                          manifests: seq<Manifest>, i: nat, peer: nat)
    requires peer < NAME_MAP_GUID_SIZE && i < |manifests| && AllWell(first) && AllWell(was)
    requires ManifestsEffect(first, was, peer, manifests[..i])
    requires if manifests[i].verifies then ManifestEffect(was, now, peer, manifests[i].rules) else now == was
    ensures ManifestsEffect(first, now, peer, manifests[..i + 1])
  {
    hide Or, WithCell, CellOf, TargetOf, ManifestApplied;
    assert manifests[..i + 1][..i] == manifests[..i] && manifests[..i + 1][i] == manifests[i];
    forall k | 0 <= k < |first|
      ensures now[k] == WithCell(first[k], peer, ManifestsApplied(CellOf(first[k], peer), manifests[..i + 1], TargetOf(first[k])))
    {
      var t := TargetOf(first[k]);
      var before := ManifestsApplied(CellOf(first[k], peer), manifests[..i], t);
      WithCellTwice(first[k], peer, before, ManifestApplied(before, manifests[i].rules, t));
    }
  }

  lemma WithCellTwice(m: AccessMember, peer: nat, c: Cell, d: Cell)
    requires WellFormed(m) && peer < NAME_MAP_GUID_SIZE
    ensures var n := WithCell(m, peer, c);
            WellFormed(n) && CellOf(n, peer) == c && TargetOf(n) == TargetOf(m) && WithCell(n, peer, d) == WithCell(m, peer, d)
  {
    assert m.deny[peer := c.deny][peer := d.deny] == m.deny[peer := d.deny];
    assert m.allow[peer := c.allow][peer := d.allow] == m.allow[peer := d.allow];
  }

  /** The member with an explicit denial for the peer, if there is one. */
  function Denied(m: AccessMember, peer: nat, deny: bool): AccessMember
    requires WellFormed(m) && peer < NAME_MAP_GUID_SIZE
  {
    if deny then m.(deny := m.deny[peer := true]) else m
  }

  lemma DeniedLaws(m: AccessMember, peer: nat)
    requires WellFormed(m) && peer < NAME_MAP_GUID_SIZE
    ensures Denied(m, peer, false) == m
    ensures forall d :: WellFormed(Denied(m, peer, d)) && Denied(Denied(m, peer, d), peer, true) == Denied(m, peer, true)
  {
    forall d
      ensures WellFormed(Denied(m, peer, d)) && Denied(Denied(m, peer, d), peer, true) == Denied(m, peer, true)
    {
      assert m.deny[peer := true][peer := true] == m.deny[peer := true];
    }
  }

  lemma OrNothing(a: bv8)
    ensures Or(a, 0) == a
  {
  }

  lemma OrAssociative(a: bv8, b: bv8, c: bv8)
    ensures Or(Or(a, b), c) == Or(a, Or(b, c))
  {
  }

  lemma NoRules(t: Target)
    ensures RulesBits([], t) == 0 && !RulesDeny([], t)
  {
  }

  lemma NoMembers(r: PermissionRule, acc: bv8, t: Target)
    ensures Or(acc, MembersBits(r.members[..0], t)) == acc && !MembersDeny(r, r.members[..0], t)
  {
    OrNothing(acc);
  }

  lemma MembersStep(r: PermissionRule, members: seq<PermissionMember>, j: nat, acc: bv8, t: Target)
    requires j < |members| && RuleMatches(r, t)
    ensures Or(acc, MembersBits(members[..j + 1], t)) ==
            if MemberMatches(members[j], t) then Or(Or(acc, MembersBits(members[..j], t)), GrantBits(t.kind, members[j].action))
            else Or(acc, MembersBits(members[..j], t))
    ensures MembersDeny(r, members[..j + 1], t) <==> MembersDeny(r, members[..j], t) || Denies(r, members[j], t)
  {
    hide Or, GrantBits, MemberMatches, Denies;
    var b := MembersBits(members[..j], t);
    assert members[..j + 1][..j] == members[..j];
    OrNothing(b);
    OrAssociative(acc, b, GrantBits(t.kind, members[j].action));
    assert members[..j + 1][j] == members[j];
    assert forall k :: 0 <= k < j ==> members[..j + 1][k] == members[..j][k];
  }

  lemma RulesStep(rules: seq<PermissionRule>, i: nat, t: Target)
    requires i < |rules|
    ensures RulesBits(rules[..i + 1], t) ==
            if RuleMatches(rules[i], t) then Or(RulesBits(rules[..i], t), MembersBits(rules[i].members, t)) else RulesBits(rules[..i], t)
    ensures RulesDeny(rules[..i + 1], t) <==> RulesDeny(rules[..i], t) || MembersDeny(rules[i], rules[i].members, t)
    ensures !RuleMatches(rules[i], t) ==> !MembersDeny(rules[i], rules[i].members, t)
  {
    hide Or, MembersBits, RuleMatches, MemberMatches, MembersDeny;
    assert rules[..i + 1][..i] == rules[..i];
    OrNothing(RulesBits(rules[..i], t));
    assert rules[..i + 1][i] == rules[i];
    assert forall k :: 0 <= k < i ==> rules[..i + 1][k] == rules[..i][k];
    UnmatchedDenies(rules[i], rules[i].members, t);
  }

  lemma UnmatchedDenies(r: PermissionRule, members: seq<PermissionMember>, t: Target)
    ensures !RuleMatches(r, t) ==> !MembersDeny(r, members, t)
  {
  }

  // ---------------------------------------------------------------- what a decision means

  /** The peer is named by its key in an ACL that takes everything away from the member. */
  ghost predicate ExplicitlyDenied(acls: seq<PermissionACL>, ctx: Context, t: Target) {
    exists acl :: acl in acls && AclDenies(acl, ctx, t)
  }

  ghost predicate PolicyGrants(acls: seq<PermissionACL>, ctx: Context, t: Target, bit: bv8) {
    exists acl :: acl in acls && Covers(acl, ctx) && RulesGrant(acl.rules, t, bit)
  }

  ghost predicate ManifestsGrant(manifests: seq<Manifest>, t: Target, bit: bv8) {
    exists m :: m in manifests && m.verifies && RulesGrant(m.rules, t, bit)
  }

  /** The declarative reading of policy and manifests. */
  ghost predicate Permitted(acls: seq<PermissionACL>, manifests: seq<Manifest>, ctx: Context, t: Target, bit: bv8) {
    && !ExplicitlyDenied(acls, ctx, t)
    && PolicyGrants(acls, ctx, t, bit)
    && (ctx.suite == EcdheEcdsa ==> ManifestsGrant(manifests, t, bit))
  }

  lemma UpperHas(bits: bv8, bit: bv8)
    requires LowNibble(bits) && Permission(bit)
    ensures !Has(bits, Upper(bit)) && !Has(Upper(bits), bit)
    ensures Has(Upper(bits), Upper(bit)) <==> Has(bits, bit)
  {
  }

  lemma AclBitsExact(acl: PermissionACL, ctx: Context, t: Target, bit: bv8)
    requires Permission(bit)
    ensures Has(AclBits(acl, ctx, t), bit) <==> RulesGrant(acl.rules, t, bit)
    ensures Has(AclBits(acl, ctx, t), Upper(bit)) <==> ctx.suite != EcdheEcdsa && RulesGrant(acl.rules, t, bit)
  {
    hide Has, Or, Upper, LowNibble, Permission, RulesBits, RulesGrant;
    var acc := RulesBits(acl.rules, t);
    RulesBitsExact(acl.rules, t, bit);
    UpperHas(acc, bit);
    OrHas(acc, Upper(acc), bit);
    OrHas(acc, Upper(acc), Upper(bit));
  }

  lemma {:induction false} PolicyExact(acls: seq<PermissionACL>, ctx: Context, t: Target, bit: bv8)
    requires Permission(bit)
    ensures var c := PolicyApplied(Cell(false, 0), acls, ctx, t);
            && (c.deny <==> ExplicitlyDenied(acls, ctx, t))
            && (Has(c.allow, bit) <==> PolicyGrants(acls, ctx, t, bit))
            && (Has(c.allow, Upper(bit)) <==> ctx.suite != EcdheEcdsa && PolicyGrants(acls, ctx, t, bit))
  {
    hide Has, Or, Upper, Permission, AclBits, RulesGrant, RulesDeny, Lists;
    NothingHas(bit);
    NothingHas(Upper(bit));
    if acls != [] {
      var init, acl := acls[..|acls| - 1], acls[|acls| - 1];
      PolicyExact(init, ctx, t, bit);
      AclBitsExact(acl, ctx, t, bit);
      var before := PolicyApplied(Cell(false, 0), init, ctx, t);
      OrHas(before.allow, AclBits(acl, ctx, t), bit);
      OrHas(before.allow, AclBits(acl, ctx, t), Upper(bit));
      assert acls == init + [acl];
    }
  }

  lemma {:induction false} ManifestsExact(c: Cell, manifests: seq<Manifest>, t: Target, bit: bv8)
    requires Permission(bit)
    ensures var d := ManifestsApplied(c, manifests, t);
            && d.deny == c.deny
            && (Has(d.allow, bit) <==> Has(c.allow, bit))
            && (Has(d.allow, Upper(bit)) <==> Has(c.allow, Upper(bit)) || ManifestsGrant(manifests, t, bit))
  {
    hide Has, Or, Upper, LowNibble, Permission, RulesBits, RulesGrant;
    if manifests != [] {
      var init, m := manifests[..|manifests| - 1], manifests[|manifests| - 1];
      ManifestsExact(c, init, t, bit);
      var before, bits := ManifestsApplied(c, init, t), RulesBits(m.rules, t);
      RulesBitsExact(m.rules, t, bit);
      UpperHas(bits, bit);
      OrHas(before.allow, Upper(bits), bit);
      OrHas(before.allow, Upper(bits), Upper(bit));
      assert manifests == init + [m];
    }
  }

  /** The bits say exactly what the declarative reading says. */
  lemma DecisionExact(acls: seq<PermissionACL>, manifests: seq<Manifest>, ctx: Context, t: Target, bit: bv8)
    requires Permission(bit)
    ensures var policy := PolicyApplied(Cell(false, 0), acls, ctx, t);
            Passes(ManifestsApplied(policy, manifests, t), bit) <==> Permitted(acls, manifests, ctx, t, bit)
  {
    hide Has, Or, Upper, Permission, PolicyGrants, ManifestsGrant, ExplicitlyDenied;
    PolicyExact(acls, ctx, t, bit);
    ManifestsExact(PolicyApplied(Cell(false, 0), acls, ctx, t), manifests, t, bit);
  }

  /** After a reset, a policy and manifests, a check succeeds exactly on the first member with the id that is permitted. */
  lemma TableDecides(m0: seq<AccessMember>, m1: seq<AccessMember>, m2: seq<AccessMember>, m3: seq<AccessMember>,
                     peer: nat, acls: seq<PermissionACL>, manifests: seq<Manifest>, ctx: Context, id: nat, bit: bv8)
    requires peer < NAME_MAP_GUID_SIZE && Permission(bit) && AllWell(m0) && AllWell(m1) && AllWell(m2) && AllWell(m3)
    requires ResetEffect(m0, m1, peer) && PolicyEffect(m1, m2, peer, acls, ctx) && ManifestsEffect(m2, m3, peer, manifests)
    ensures MemberPasses(m3, id, peer, bit) <==>
            exists n :: 0 <= n < |m0| && FirstWith(m0, id, n) && Permitted(acls, manifests, ctx, TargetOf(m0[n]), bit)
  {
    hide Has, Or, Upper, Permission, Permitted, PolicyApplied, ManifestsApplied, Passes;
    forall n | 0 <= n < |m0|
      ensures m3[n].id == m0[n].id
      ensures Passes(CellOf(m3[n], peer), bit) <==> Permitted(acls, manifests, ctx, TargetOf(m0[n]), bit)
    {
      var t := TargetOf(m0[n]);
      var c := PolicyApplied(Cell(false, 0), acls, ctx, t);
      WithCellTwice(m0[n], peer, Cell(false, 0), c);
      WithCellTwice(m1[n], peer, c, ManifestsApplied(c, manifests, t));
      WithCellTwice(m2[n], peer, ManifestsApplied(c, manifests, t), c);
      DecisionExact(acls, manifests, ctx, t, bit);
    }
    SameFirst(m0, m3, id);
  }

  lemma SameFirst(a: seq<AccessMember>, b: seq<AccessMember>, id: nat)
    requires |a| == |b| && forall n :: 0 <= n < |a| ==> b[n].id == a[n].id
    ensures forall n :: 0 <= n < |a| ==> FirstWith(a, id, n) == FirstWith(b, id, n)
  {
  }

  /** No other peer's entries change, nor any answer about it. */
  lemma OthersUntouched(m0: seq<AccessMember>, m1: seq<AccessMember>, peer: nat, other: nat,
                        acls: seq<PermissionACL>, ctx: Context, manifests: seq<Manifest>, id: nat, bit: bv8)
    requires peer < NAME_MAP_GUID_SIZE && other < NAME_MAP_GUID_SIZE && other != peer && AllWell(m0) && AllWell(m1)
    requires ResetEffect(m0, m1, peer) || PolicyEffect(m0, m1, peer, acls, ctx) || ManifestsEffect(m0, m1, peer, manifests)
    ensures |m1| == |m0| && forall k :: 0 <= k < |m0| ==> CellOf(m1[k], other) == CellOf(m0[k], other)
    ensures MemberPasses(m1, id, other, bit) <==> MemberPasses(m0, id, other, bit)
  {
    hide PolicyApplied, ManifestsApplied, Passes, FirstWith;
    forall k | 0 <= k < |m0| ensures m1[k].id == m0[k].id && CellOf(m1[k], other) == CellOf(m0[k], other) {
    }
    SameFirst(m0, m1, id);
  }

  // ---------------------------------------------------------------- order and repetition

  /** The same rule but for the order and repetition of its members. */
  ghost predicate SameRule(r: PermissionRule, s: PermissionRule) {
    r.obj == s.obj && r.ifn == s.ifn && forall m :: m in r.members <==> m in s.members
  }

  ghost predicate RulesWithin(rules: seq<PermissionRule>, rules': seq<PermissionRule>) {
    forall r :: r in rules ==> exists s :: s in rules' && SameRule(r, s)
  }

  /** The same rules but for their order and repetition, and that of their members. */
  ghost predicate SameRules(rules: seq<PermissionRule>, rules': seq<PermissionRule>) {
    RulesWithin(rules, rules') && RulesWithin(rules', rules)
  }

  ghost predicate SameAcl(a: PermissionACL, b: PermissionACL) {
    (forall p :: p in a.peers <==> p in b.peers) && SameRules(a.rules, b.rules)
  }

  ghost predicate AclsWithin(acls: seq<PermissionACL>, acls': seq<PermissionACL>) {
    forall a :: a in acls ==> exists b :: b in acls' && SameAcl(a, b)
  }

  ghost predicate SameManifest(m: Manifest, n: Manifest) {
    m.verifies == n.verifies && SameRules(m.rules, n.rules)
  }

  ghost predicate ManifestsWithin(manifests: seq<Manifest>, manifests': seq<Manifest>) {
    forall m :: m in manifests ==> exists n :: n in manifests' && SameManifest(m, n)
  }

  /** Policy and manifests with everything in any order, and repeated at will. */
  ghost predicate SameSources(acls: seq<PermissionACL>, acls': seq<PermissionACL>,
                              manifests: seq<Manifest>, manifests': seq<Manifest>) {
    && AclsWithin(acls, acls') && AclsWithin(acls', acls)
    && ManifestsWithin(manifests, manifests') && ManifestsWithin(manifests', manifests)
  }

  lemma SameRuleDenies(r: PermissionRule, s: PermissionRule, t: Target)
    requires SameRule(r, s) && MembersDeny(r, r.members, t)
    ensures MembersDeny(s, s.members, t)
  {
    hide RuleMatches, MemberMatches;
    var j :| 0 <= j < |r.members| && Denies(r, r.members[j], t);
    var m := r.members[j];
    assert m in s.members;
    var k :| 0 <= k < |s.members| && s.members[k] == m;
    assert RuleMatches(s, t) by { SameRuleMatches(r, s, t); }
    assert Denies(s, s.members[k], t);
  }

  lemma SameRuleMatches(r: PermissionRule, s: PermissionRule, t: Target)
    requires SameRule(r, s)
    ensures RuleMatches(r, t) <==> RuleMatches(s, t)
  {
  }

  lemma GrantCarries(rules: seq<PermissionRule>, rules': seq<PermissionRule>, t: Target, bit: bv8)
    requires RulesWithin(rules, rules') && RulesGrant(rules, t, bit)
    ensures RulesGrant(rules', t, bit)
  {
    hide RuleMatches, MemberMatches, Grants;
    var r, m :| r in rules && m in r.members && RuleMatches(r, t) && MemberMatches(m, t) && Grants(t.kind, m.action, bit);
    var s :| s in rules' && SameRule(r, s);
    SameRuleMatches(r, s, t);
    assert m in s.members;
  }

  lemma DenialCarries(rules: seq<PermissionRule>, rules': seq<PermissionRule>, t: Target)
    requires RulesWithin(rules, rules') && RulesDeny(rules, t)
    ensures RulesDeny(rules', t)
  {
    hide MembersDeny, SameRule;
    SomeRuleDenies(rules, t);
    SomeRuleDenies(rules', t);
    var r :| r in rules && MembersDeny(r, r.members, t);
    var s :| s in rules' && SameRule(r, s);
    SameRuleDenies(r, s, t);
  }

  lemma SomeRuleDenies(rules: seq<PermissionRule>, t: Target)
    ensures RulesDeny(rules, t) <==> exists r :: r in rules && MembersDeny(r, r.members, t)
  {
    hide MembersDeny;
    if r :| r in rules && MembersDeny(r, r.members, t) {
      var i :| 0 <= i < |rules| && rules[i] == r;
    }
  }

  /** What rules grant and deny does not depend on the order or repetition of the rules or of their members. */
  lemma RuleOrderIrrelevant(rules: seq<PermissionRule>, rules': seq<PermissionRule>, t: Target, bit: bv8)
    requires SameRules(rules, rules')
    ensures RulesGrant(rules, t, bit) <==> RulesGrant(rules', t, bit)
    ensures RulesDeny(rules, t) <==> RulesDeny(rules', t)
  {
    hide RulesGrant, RulesDeny, RulesWithin;
    if RulesGrant(rules, t, bit) { GrantCarries(rules, rules', t, bit); }
    if RulesGrant(rules', t, bit) { GrantCarries(rules', rules, t, bit); }
    if RulesDeny(rules, t) { DenialCarries(rules, rules', t); }
    if RulesDeny(rules', t) { DenialCarries(rules', rules, t); }
  }

  lemma ListingCarries(a: PermissionACL, b: PermissionACL, kind: nat, pub: PublicKey)
    requires SameAcl(a, b)
    ensures Lists(a, kind, pub) <==> Lists(b, kind, pub)
  {
    hide PeerMatches, SameRules;
    SomePeerMatches(a, kind, pub);
    SomePeerMatches(b, kind, pub);
  }

  lemma SomePeerMatches(acl: PermissionACL, kind: nat, pub: PublicKey)
    ensures Lists(acl, kind, pub) <==> exists p :: p in acl.peers && PeerMatches(p, kind, pub, [])
  {
    hide PeerMatches;
    if p :| p in acl.peers && PeerMatches(p, kind, pub, []) {
      var i :| 0 <= i < |acl.peers| && acl.peers[i] == p;
    }
  }

  lemma SameAclCovers(a: PermissionACL, b: PermissionACL, ctx: Context)
    requires SameAcl(a, b)
    ensures Covers(a, ctx) <==> Covers(b, ctx)
    ensures ByKey(a, ctx) <==> ByKey(b, ctx)
  {
    hide Lists, SameAcl;
    forall kind, pub ensures Lists(a, kind, pub) <==> Lists(b, kind, pub) {
      ListingCarries(a, b, kind, pub);
    }
  }

  lemma SameAclDecides(a: PermissionACL, b: PermissionACL, ctx: Context, t: Target, bit: bv8)
    requires SameAcl(a, b)
    ensures AclDenies(a, ctx, t) <==> AclDenies(b, ctx, t)
    ensures Covers(a, ctx) && RulesGrant(a.rules, t, bit) <==> Covers(b, ctx) && RulesGrant(b.rules, t, bit)
  {
    hide Covers, ByKey, RulesGrant, RulesDeny, SameRules;
    SameAclCovers(a, b, ctx);
    RuleOrderIrrelevant(a.rules, b.rules, t, bit);
  }

  lemma AclDenialCarries(acls: seq<PermissionACL>, acls': seq<PermissionACL>, ctx: Context, t: Target)
    requires AclsWithin(acls, acls') && ExplicitlyDenied(acls, ctx, t)
    ensures ExplicitlyDenied(acls', ctx, t)
  {
    hide SameAcl, AclDenies;
    var a :| a in acls && AclDenies(a, ctx, t);
    var b :| b in acls' && SameAcl(a, b);
    SameAclDecides(a, b, ctx, t, METHOD_INCOMING);
  }

  lemma AclGrantCarries(acls: seq<PermissionACL>, acls': seq<PermissionACL>, ctx: Context, t: Target, bit: bv8)
    requires AclsWithin(acls, acls') && PolicyGrants(acls, ctx, t, bit)
    ensures PolicyGrants(acls', ctx, t, bit)
  {
    hide SameAcl, Covers, RulesGrant;
    var a :| a in acls && Covers(a, ctx) && RulesGrant(a.rules, t, bit);
    var b :| b in acls' && SameAcl(a, b);
    SameAclDecides(a, b, ctx, t, bit);
  }

  lemma ManifestGrantCarries(manifests: seq<Manifest>, manifests': seq<Manifest>, t: Target, bit: bv8)
    requires ManifestsWithin(manifests, manifests') && ManifestsGrant(manifests, t, bit)
    ensures ManifestsGrant(manifests', t, bit)
  {
    hide SameRules, RulesGrant;
    var m :| m in manifests && m.verifies && RulesGrant(m.rules, t, bit);
    var n :| n in manifests' && SameManifest(m, n);
    RuleOrderIrrelevant(m.rules, n.rules, t, bit);
  }

  lemma PermissionCarries(acls: seq<PermissionACL>, acls': seq<PermissionACL>, manifests: seq<Manifest>, manifests': seq<Manifest>,
                          ctx: Context, t: Target, bit: bv8)
    requires SameSources(acls, acls', manifests, manifests') && Permitted(acls, manifests, ctx, t, bit)
    ensures Permitted(acls', manifests', ctx, t, bit)
  {
    hide AclsWithin, ManifestsWithin, ExplicitlyDenied, PolicyGrants, ManifestsGrant;
    if ExplicitlyDenied(acls', ctx, t) {
      AclDenialCarries(acls', acls, ctx, t);
    }
    AclGrantCarries(acls, acls', ctx, t, bit);
    if ctx.suite == EcdheEcdsa {
      ManifestGrantCarries(manifests, manifests', t, bit);
    }
  }

  /**
   * The answers of the table depend on which ACLs, manifests, peers, rules and members there are,
   * not on the order in which any of them come or on repetition.
   */
  lemma OrderIrrelevant(m0: seq<AccessMember>, m1: seq<AccessMember>, m2: seq<AccessMember>, m3: seq<AccessMember>,
                        m2': seq<AccessMember>, m3': seq<AccessMember>, peer: nat,
                        acls: seq<PermissionACL>, acls': seq<PermissionACL>,
                        manifests: seq<Manifest>, manifests': seq<Manifest>, ctx: Context, id: nat, bit: bv8)
    requires peer < NAME_MAP_GUID_SIZE && Permission(bit) && SameSources(acls, acls', manifests, manifests')
    requires AllWell(m0) && AllWell(m1) && AllWell(m2) && AllWell(m3) && AllWell(m2') && AllWell(m3')
    requires ResetEffect(m0, m1, peer)
    requires PolicyEffect(m1, m2, peer, acls, ctx) && ManifestsEffect(m2, m3, peer, manifests)
    requires PolicyEffect(m1, m2', peer, acls', ctx) && ManifestsEffect(m2', m3', peer, manifests')
    ensures MemberPasses(m3, id, peer, bit) <==> MemberPasses(m3', id, peer, bit)
  {
    hide AllWell, ResetEffect, PolicyEffect, ManifestsEffect, MemberPasses, Permitted, SameSources, FirstWith, Permission;
    TableDecides(m0, m1, m2, m3, peer, acls, manifests, ctx, id, bit);
    TableDecides(m0, m1, m2', m3', peer, acls', manifests', ctx, id, bit);
    SourcesMirror(acls, acls', manifests, manifests');
    forall t ensures Permitted(acls, manifests, ctx, t, bit) <==> Permitted(acls', manifests', ctx, t, bit) {
      if Permitted(acls, manifests, ctx, t, bit) {
        PermissionCarries(acls, acls', manifests, manifests', ctx, t, bit);
      }
      if Permitted(acls', manifests', ctx, t, bit) {
        PermissionCarries(acls', acls, manifests', manifests, ctx, t, bit);
      }
    }
  }

  lemma SourcesMirror(acls: seq<PermissionACL>, acls': seq<PermissionACL>, manifests: seq<Manifest>, manifests': seq<Manifest>)
    requires SameSources(acls, acls', manifests, manifests')
    ensures SameSources(acls', acls, manifests', manifests)
  {
    hide AclsWithin, ManifestsWithin;
  }
}
