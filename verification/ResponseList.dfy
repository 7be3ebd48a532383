/**
 * The routing nodes heard from: a list of fixed length that keeps the best ones, and the
 * order in which they are tried.
 */
module ResponseList {
  /** AJ_Service, as far as routing node selection uses it. */
  datatype Service = Service(ipv4: nat, ipv4port: nat, ipv4Udp: nat, ipv4portUdp: nat, addrTypes: nat, pv: nat, priority: nat)

  const NOBODY := Service(0, 0, 0, 0, 0, 0, 0)

  /** A slot is in use when it has an address. */
  predicate Occupied(s: Service) {
    s.ipv4 != 0 || s.ipv4Udp != 0
  }

  /** The entry is for the service: they share a TCP or a UDP address. */
  predicate Same(e: Service, s: Service) {
    || (e.ipv4 != 0 && e.ipv4 == s.ipv4 && e.ipv4port == s.ipv4port)
    || (e.ipv4Udp != 0 && e.ipv4Udp == s.ipv4Udp && e.ipv4portUdp == s.ipv4portUdp)
  }

  /** A higher protocol version is better, and then a lower priority value. */
  predicate Better(a: Service, b: Service) {
    a.pv > b.pv || (a.pv == b.pv && a.priority < b.priority)
  }

  /** An entry after another response of its service. */
  function Updated(e: Service, s: Service): Service {
    if e.pv < s.pv then e.(pv := s.pv, priority := s.priority)
    else if e.pv == s.pv then e.(priority := s.priority)
    else e
  }

  /** A response never lowers the version, brings its priority along unless its version is older, and never moves an address. */
  lemma UpdatedExact(e: Service, s: Service)
    ensures var u := Updated(e, s);
            && u.pv == (if e.pv < s.pv then s.pv else e.pv)
            && u.priority == (if s.pv < e.pv then e.priority else s.priority)
            && u == e.(pv := u.pv, priority := u.priority)
  {
  }

  /** The first entry for the service, or the length of the list. */
  ghost predicate FirstMatch(list: seq<Service>, s: Service, m: nat) {
    && m <= |list| && (m < |list| ==> Same(list[m], s))
    && forall i :: 0 <= i < m ==> !Same(list[i], s)
  }

  /** No entry is worse than this one. */
  ghost predicate Worst(list: seq<Service>, c: int) {
    0 <= c < |list| && forall i :: 0 <= i < |list| ==> !Better(list[c], list[i])
  }

  /** AJ_AddRoutingNodeToResponseList, as a relation between the lists before and after. */
  ghost predicate Adds(before: seq<Service>, s: Service, after: seq<Service>, size: nat) {
    exists m :: FirstMatch(before, s, m) && AddsAt(before, s, after, size, m)
  }

  ghost predicate AddsAt(before: seq<Service>, s: Service, after: seq<Service>, size: nat, m: nat) {
    if m < |before| then after == before[m := Updated(before[m], s)]
    else if |before| < size then after == before + [s]
    else exists c :: Worst(before, c) && after == if Better(s, before[c]) then before[c := s] else before
  }

  /** The same TCP address and port, or the same UDP address and port. */
  predicate SharesAddress(a: Service, b: Service) {
    || (a.ipv4 == b.ipv4 != 0 && a.ipv4port == b.ipv4port)
    || (a.ipv4Udp == b.ipv4Udp != 0 && a.ipv4portUdp == b.ipv4portUdp)
  }

  predicate Unlisted(list: seq<Service>, s: Service) {
    forall e <- list :: !SharesAddress(e, s)
  }

  /** A response from a listed service only updates the first entry that shares an address with it. */
  lemma KnownServiceUpdates(before: seq<Service>, s: Service, after: seq<Service>, size: nat, m: nat)
    requires Adds(before, s, after, size) && m < |before|
    requires SharesAddress(before[m], s) && Unlisted(before[..m], s)
    ensures |after| == |before| && forall i :: 0 <= i < |before| && i != m ==> after[i] == before[i]
    ensures after[m].pv == (if before[m].pv < s.pv then s.pv else before[m].pv)
    ensures after[m].priority == (if s.pv < before[m].pv then before[m].priority else s.priority)
    ensures after[m] == before[m].(pv := after[m].pv, priority := after[m].priority)
  {
    forall i | 0 <= i < m ensures !Same(before[i], s) {
      assert before[i] in before[..m];
    }
    var k: nat :| FirstMatch(before, s, k) && AddsAt(before, s, after, size, k);
    UpdatedExact(before[m], s);
  }

  /**
   * A response from any other service is added while there is room, and afterwards takes the place of
   * an entry that none is worse than, exactly if that has an older version, or the same and a higher
   * priority value.
   */
  lemma NewServiceAdds(before: seq<Service>, s: Service, after: seq<Service>, size: nat) returns (c: nat)
    requires Adds(before, s, after, size) && Unlisted(before, s) && |before| <= size && size > 0
    ensures |before| < size ==> after == before + [s]
    ensures |before| == size ==>
              && c < size
              && (forall i :: 0 <= i < size ==>
                    before[c].pv < before[i].pv || (before[c].pv == before[i].pv && before[i].priority <= before[c].priority))
              && after == if before[c].pv < s.pv || (before[c].pv == s.pv && s.priority < before[c].priority)
                          then before[c := s] else before
  {
    forall i | 0 <= i < |before| ensures !Same(before[i], s) {
      assert before[i] in before;
    }
    var k: nat :| FirstMatch(before, s, k) && AddsAt(before, s, after, size, k);
    c := 0;
    if |before| == size {
      c :| Worst(before, c) && after == if Better(s, before[c]) then before[c := s] else before;
      forall i | 0 <= i < size
        ensures before[c].pv < before[i].pv || (before[c].pv == before[i].pv && before[i].priority <= before[c].priority)
      {
        assert !Better(before[c], before[i]);
      }
    }
  }

  datatype Status = Ok | ErrTimeout | ErrEndOfData

  /** The entry may be tried next: it was not tried before and none of those not tried is better. */
  ghost predicate BestLeft(list: seq<Service>, tried: seq<bool>, i: int) {
    && 0 <= i < |list| <= |tried| && !tried[i]
    && forall j :: 0 <= j < |list| && !tried[j] ==> !Better(list[j], list[i])
  }

  class RoutingNodes {
    const list: array<Service>
    const attempts: array<bool>
    var count: nat

    ghost predicate Valid()
      reads this, list, attempts
    {
      && list.Length == attempts.Length > 0 && count <= list.Length
      && forall i :: 0 <= i < list.Length ==> (Occupied(list[i]) <==> i < count)
    }

    /** An empty list; AJ_ROUTING_NODE_RESPONSELIST_SIZE is three in the source. */
    constructor (size: nat)
      requires size > 0
      ensures Valid() && fresh(list) && fresh(attempts) && count == 0 && list.Length == size
      ensures forall i :: 0 <= i < size ==> !attempts[i]
    {
      list := new Service[size](i => NOBODY);
      attempts := new bool[size](i => false);
      count := 0;
    }

    ghost function Entries(): seq<Service>
      requires Valid()
      reads this, list, attempts
    {
      list[..count]
    }

    /** AJ_InitRoutingNodeResponselist */
    method Init()
      requires Valid()
      modifies this`count, list, attempts
      ensures Valid() && Entries() == [] && forall i :: 0 <= i < attempts.Length ==> !attempts[i]
    {
      for i := 0 to list.Length
        invariant forall k :: 0 <= k < i ==> list[k] == NOBODY && !attempts[k]
      {
        list[i] := NOBODY;
        attempts[i] := false;
      }
      count := 0;
    }

    /** AJ_AddRoutingNodeToResponseList */
    method Add(service: Service)
      requires Valid() && (service.ipv4 != 0 || service.ipv4Udp != 0)
      modifies this`count, list
      ensures Valid() && Adds(old(Entries()), service, Entries(), list.Length)
    {
      hide Better, Updated, Same;
      var candidate: nat := 0;
      if count < list.Length {
        candidate := count;
      }
      ghost var before := Entries();
      var i := 0;
      while i < list.Length
        invariant 0 <= i <= count && count == old(count) && Valid()
        invariant list[..] == old(list[..])
        invariant forall k :: 0 <= k < i ==> !Same(list[k], service)
        invariant count < list.Length ==> candidate == count
        invariant count == list.Length ==> candidate < list.Length && forall k :: 0 <= k < i ==> !Better(list[candidate], list[k])
      {
        if !Occupied(list[i]) {
          break;
        }
        if Same(list[i], service) {
          Update(i, service);
          assert FirstMatch(before, service, i) && AddsAt(before, service, Entries(), list.Length, i);
          return;
        }
        if count == list.Length {
          BetterOrder(list[candidate], list[i]);
          if Better(list[candidate], list[i]) {
            forall k | 0 <= k <= i
              ensures !Better(list[i], list[k])
            {
              if k < i {
                BetterChain(list[i], list[candidate], list[k]);
              } else {
                BetterOrder(list[i], list[i]);
              }
            }
            candidate := i;
          }
        }
        i := i + 1;
      }
      assert FirstMatch(before, service, count);
      if count == list.Length {
        assert Worst(before, candidate);
        if !Better(service, list[candidate]) {
          assert AddsAt(before, service, Entries(), list.Length, count);
          return;
        }
      }
      list[candidate] := service;
      if count < list.Length {
        count := count + 1;
        assert Entries() == before + [service];
      } else {
        assert Entries() == before[candidate := service];
      }
      assert AddsAt(before, service, Entries(), list.Length, |before|);
    }

    method Update(i: nat, service: Service)
      requires Valid() && i < count
      modifies list
      ensures Valid() && Entries() == old(Entries())[i := Updated(old(Entries())[i], service)]
    {
      if list[i].pv < service.pv {
        list[i] := list[i].(pv := service.pv, priority := service.priority);
      } else if list[i].pv == service.pv {
        list[i] := list[i].(priority := service.priority);
      }
      assert Entries()[i] == Updated(old(Entries())[i], service);
    }

    /** AJ_SelectRoutingNodeFromResponseList: of equals, one at random. */
    method Select() returns (status: Status, service: Service)
      requires Valid()
      modifies this`count, list, attempts
      ensures Valid()
      ensures Entries() == old(Entries())
      ensures status == ErrTimeout <==> old(count) == 0
      ensures status == ErrEndOfData <==> old(count) > 0 && forall i :: 0 <= i < old(count) ==> old(attempts[i])
      ensures status == Ok ==> exists i ::
        BestLeft(old(Entries()), old(attempts[..]), i) && service == old(Entries())[i] && attempts[..] == old(attempts[..])[i := true]
      ensures status == ErrEndOfData ==> attempts[..] == old(attempts[..])
    {
      hide Better;
      service := NOBODY;
      if !Occupied(list[0]) {
        Init();
        return ErrTimeout, service;
      }
      service := list[0];
      var runningSum: nat := service.priority;
      var skip := attempts[0];
      var selected: nat := 0;
      BetterOrder(list[0], list[0]);
      var i := 1;
      while i < list.Length
        invariant 1 <= i <= count && Valid() && count == old(count)
        invariant list[..] == old(list[..]) && attempts[..] == old(attempts[..])
        invariant skip ==> forall k :: 0 <= k < i ==> attempts[k]
        invariant !skip ==> selected < i && !attempts[selected] && service == list[selected] &&
                            forall k :: 0 <= k < i && !attempts[k] ==> !Better(list[k], service)
      {
        if !Occupied(list[i]) {
          break;
        }
        BetterOrder(list[i], service);
        BetterOrder(list[i], list[i]);
        if !attempts[i] {
          var e := list[i];
          if skip {
            service, selected, runningSum, skip := e, i, e.priority, false;
          } else if Better(e, service) {
            Displace(i, service);
            service, selected, runningSum := e, i, e.priority;
          } else if SameRank(e, service) {
            var rand32: nat := *;
            var sum := runningSum;
            runningSum := runningSum + e.priority;
            if rand32 % (runningSum + 1) > sum {
              Displace(i, service);
              service, selected := e, i;
            }
          }
        }
        i := i + 1;
      }
      if skip {
        return ErrEndOfData, service;
      }
      assert BestLeft(Entries(), attempts[..], selected);
      attempts[selected] := true;
      assert attempts[..] == old(attempts[..])[selected := true];
      return Ok, service;
    }

    /** An entry no worse than the selection is as good as all that the selection is as good as. */
    lemma Displace(i: nat, service: Service)
      requires i < list.Length && attempts.Length == list.Length && !Better(service, list[i])
      ensures forall k :: 0 <= k < i && !Better(list[k], service) ==> !Better(list[k], list[i])
    {
      forall k | 0 <= k < i && !Better(list[k], service)
        ensures !Better(list[k], list[i])
      {
        BetterChain(list[k], service, list[i]);
      }
    }
  }

  predicate SameRank(a: Service, b: Service) {
    a.pv == b.pv && a.priority == b.priority
  }

  lemma BetterOrder(a: Service, b: Service)
    ensures Better(a, b) ==> !Better(b, a)
    ensures !Better(a, a)
    ensures SameRank(a, b) <==> !Better(a, b) && !Better(b, a)
  {
  }

  /** Being no better is transitive. */
  lemma BetterChain(a: Service, b: Service, c: Service)
    requires !Better(a, b) && !Better(b, c)
    ensures !Better(a, c)
  {
  }

  // ---------------------------------------------------------------- any sequence of responses

  /** The lists after each of a sequence of responses, starting from the empty one. */
  ghost predicate Run(heard: seq<Service>, lists: seq<seq<Service>>, size: nat) {
    && |lists| == |heard| + 1 && lists[0] == []
    && forall i :: 0 <= i < |heard| ==> Adds(lists[i], heard[i], lists[i + 1], size)
  }

  /** Every service keeps one rank: responses that count as from the same service agree on it. */
  ghost predicate FixedRanks(heard: seq<Service>) {
    && (forall a, b :: a in heard && b in heard && Same(a, b) ==> SameRank(a, b))
    && (forall a :: a in heard ==> Occupied(a))
  }

  /** A service that is not listed is no better than anything that is. */
  ghost predicate Represented(list: seq<Service>, s: Service, size: nat) {
    || (exists e :: e in list && Same(e, s))
    || (|list| == size && forall e :: e in list ==> !Better(s, e))
  }

  ghost predicate Best(list: seq<Service>, heard: seq<Service>, size: nat) {
    && |list| <= size
    && (forall e :: e in list ==> e in heard)
    && (forall s :: s in heard ==> Represented(list, s, size))
  }

  lemma SameSelf(s: Service)
    requires Occupied(s)
    ensures Same(s, s)
  {
  }

  /** An update by a service of the same rank changes nothing. */
  lemma UpdateSameRank(e: Service, s: Service)
    requires SameRank(e, s)
    ensures Updated(e, s) == e
  {
  }

  lemma AddKeepsBest(list: seq<Service>, heard: seq<Service>, s: Service, next: seq<Service>, size: nat)
    requires size > 0 && Best(list, heard, size) && FixedRanks(heard + [s]) && Adds(list, s, next, size)
    ensures Best(next, heard + [s], size)
  {
    hide Better, Same, SameRank, Updated, Occupied;
    var m: nat :| FirstMatch(list, s, m) && AddsAt(list, s, next, size, m);
    var all := heard + [s];
    assert s in all && forall h :: h in heard ==> h in all;
    if m < |list| {
      assert list[m] in list;
      UpdateSameRank(list[m], s);
      assert next == list;
    } else if |list| < size {
      SameSelf(s);
      assert s in next && forall e :: e in list ==> e in next;
    } else {
      var c: nat :| Worst(list, c) && next == if Better(s, list[c]) then list[c := s] else list;
      if Better(s, list[c]) {
        Replaced(list, heard, s, c, size);
      } else {
        NotBetterThanAny(list, s, c);
      }
    }
  }

  lemma NotBetterThanAny(list: seq<Service>, s: Service, c: nat)
    requires Worst(list, c) && !Better(s, list[c])
    ensures forall e :: e in list ==> !Better(s, e)
  {
    hide Better;
    forall e | e in list
      ensures !Better(s, e)
    {
      var k :| 0 <= k < |list| && list[k] == e;
      BetterChain(s, list[c], list[k]);
    }
  }

  /** Replacing the worst entry by something better. */
  lemma Replaced(list: seq<Service>, heard: seq<Service>, s: Service, c: nat, size: nat)
    requires Best(list, heard, size) && FixedRanks(heard + [s]) && |list| == size && Worst(list, c) && Better(s, list[c])
    ensures Best(list[c := s], heard + [s], size)
  {
    hide Better, Same, SameRank, Occupied;
    var next := list[c := s];
    assert next[c] == s && s in next;
    SameSelf(s);
    BetterOrder(s, list[c]);
    forall e | e in next
      ensures e in heard + [s] && !Better(list[c], e)
    {
      var k :| 0 <= k < |next| && next[k] == e;
      if k != c {
        assert list[k] in list && list[k] == e;
      }
    }
    forall h | h in heard
      ensures Represented(next, h, size)
    {
      if e :| e in list && Same(e, h) {
        var k :| 0 <= k < |list| && list[k] == e;
        if k == c {
          assert e in heard + [s] && h in heard + [s];
          BetterOrder(list[c], h);
          forall f | f in next
            ensures !Better(h, f)
          {
            BetterChain(h, list[c], f);
          }
        } else {
          assert next[k] == e;
        }
      } else {
        assert list[c] in list;
        forall f | f in next
          ensures !Better(h, f)
        {
          BetterChain(h, list[c], f);
        }
      }
    }
  }

  /** After any sequence of responses, every service heard from is listed or no better than every listed one. */
  lemma {:induction false} ListHoldsBest(heard: seq<Service>, lists: seq<seq<Service>>, size: nat, n: nat)
    requires size > 0 && n <= |heard| && Run(heard, lists, size) && FixedRanks(heard)
    ensures Best(lists[n], heard[..n], size)
    decreases n
  {
    hide Best, Adds, Same, SameRank, Occupied;
    if n == 0 {
      NothingHeard(size);
    } else {
      ListHoldsBest(heard, lists, size, n - 1);
      assert heard[..n] == heard[..n - 1] + [heard[n - 1]];
      PrefixRanks(heard, n);
      assert Adds(lists[n - 1], heard[n - 1], lists[n - 1 + 1], size);
      AddKeepsBest(lists[n - 1], heard[..n - 1], heard[n - 1], lists[n], size);
    }
  }

  lemma NothingHeard(size: nat)
    ensures Best([], [], size)
  {
  }

  lemma PrefixRanks(heard: seq<Service>, n: nat)
    requires n <= |heard| && FixedRanks(heard)
    ensures FixedRanks(heard[..n])
  {
    hide Same, SameRank, Occupied;
  }

  // ---------------------------------------------------------------- the order of trial

  function Tried(picks: seq<nat>, n: nat): (r: seq<bool>)
    ensures |r| == n
  {
    seq(n, i => i in picks)
  }

  /** Indices in the order in which repeated selection returns them. */
  ghost predicate Selection(list: seq<Service>, picks: seq<nat>) {
    forall k :: 0 <= k < |picks| ==> BestLeft(list, Tried(picks[..k], |list|), picks[k])
  }

  /** A selection that Select makes with the attempt marks of the earlier ones continues them, and so do its marks. */
  lemma SelectionExtends(list: seq<Service>, picks: seq<nat>, attempts: seq<bool>, i: nat)
    requires Selection(list, picks) && attempts == Tried(picks, |attempts|) && BestLeft(list, attempts, i)
    ensures Selection(list, picks + [i])
    ensures attempts[i := true] == Tried(picks + [i], |attempts|)
  {
    hide Better;
    var more := picks + [i];
    forall k | 0 <= k < |more| ensures BestLeft(list, Tried(more[..k], |list|), more[k]) {
      if k < |picks| {
        assert more[..k] == picks[..k];
      } else {
        assert more[..k] == picks;
        forall j | 0 <= j < |list| ensures Tried(picks, |list|)[j] == attempts[j] {
        }
      }
    }
  }

  /** A selected entry was not tried before, and those left have no newer version, and none of the same a lower priority value. */
  lemma SelectedIsBest(list: seq<Service>, tried: seq<bool>, i: nat, j: nat)
    requires BestLeft(list, tried, i) && j < |list| && !tried[j]
    ensures !tried[i]
    ensures list[j].pv < list[i].pv || (list[j].pv == list[i].pv && list[i].priority <= list[j].priority)
  {
    assert !Better(list[j], list[i]);
  }

  /** Select's marks after init are those of no selection, and its end of data is a selection without any left. */
  lemma SelectionEnds(list: seq<Service>, picks: seq<nat>, attempts: seq<bool>)
    requires |list| <= |attempts|
    ensures (forall i :: 0 <= i < |attempts| ==> !attempts[i]) ==> Selection(list, []) && attempts == Tried([], |attempts|)
    ensures Selection(list, picks) && attempts == Tried(picks, |attempts|) && (forall i :: 0 <= i < |list| ==> attempts[i]) ==>
              |picks| == |list| && forall i :: 0 <= i < |list| ==> i in picks
  {
    hide Better;
    if Selection(list, picks) && attempts == Tried(picks, |attempts|) && forall i :: 0 <= i < |list| ==> attempts[i] {
      forall i | 0 <= i < |list| ensures Tried(picks, |list|)[i] {
        assert attempts[i];
      }
      SelectionIsComplete(list, picks);
    }
  }

  /** Selection never returns an entry twice, and never a better one after a worse one. */
  lemma SelectionDescends(list: seq<Service>, picks: seq<nat>, k: nat, l: nat)
    requires Selection(list, picks) && k < l < |picks|
    ensures picks[k] != picks[l] && !Better(list[picks[l]], list[picks[k]])
  {
    hide Better;
    assert BestLeft(list, Tried(picks[..k], |list|), picks[k]);
    assert BestLeft(list, Tried(picks[..l], |list|), picks[l]);
    assert picks[..l][k] == picks[k];
    assert picks[..l] == picks[..k] + picks[k..l];
  }

  /** When nothing is left to select, every entry has been selected exactly once. */
  lemma SelectionIsComplete(list: seq<Service>, picks: seq<nat>)
    requires Selection(list, picks) && forall i :: 0 <= i < |list| ==> Tried(picks, |list|)[i]
    ensures |picks| == |list|
    ensures forall i :: 0 <= i < |list| ==> i in picks
  {
    hide Better;
    forall k, l | 0 <= k < l < |picks|
      ensures picks[k] != picks[l]
    {
      SelectionDescends(list, picks, k, l);
    }
    forall k | 0 <= k < |picks|
      ensures picks[k] < |list|
    {
      assert BestLeft(list, Tried(picks[..k], |list|), picks[k]);
    }
    assert forall i :: 0 <= i < |list| ==> Tried(picks, |list|)[i] ==> i in picks;
    Counted(picks, |list|);
  }

  lemma SomePick(picks: seq<nat>, n: nat)
    requires n > 0 && forall i :: 0 <= i < n ==> i in picks
    ensures picks != []
  {
    assert 0 in picks;
  }

  lemma {:induction false} Counted(picks: seq<nat>, n: nat)
    requires forall k, l :: 0 <= k < l < |picks| ==> picks[k] != picks[l]
    requires forall k :: 0 <= k < |picks| ==> picks[k] < n
    requires forall i :: 0 <= i < n ==> i in picks
    ensures |picks| == n
    decreases n
  {
    if n > 0 {
      SomePick(picks, n);
    }
    if picks != [] {
      var first := picks[0];
      assert first < n;
      assert n - 1 in picks;
      var k :| 0 <= k < |picks| && picks[k] == n - 1;
      var rest := picks[..k] + picks[k + 1..];
      forall i | 0 <= i < n - 1
        ensures i in rest
      {
        assert i in picks;
        var j :| 0 <= j < |picks| && picks[j] == i;
        assert rest[if j < k then j else j - 1] == i;
      }
      Counted(rest, n - 1);
    }
  }
}
