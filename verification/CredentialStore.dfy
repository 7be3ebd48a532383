/**
 * The credential store: an array of NVRAM slots that behaves as a map from type and id to
 * expiration and data, and makes room by dropping the generic credential that expires first.
 */
module CredentialStore {
  import opened Wrappers

  const MAX_CREDS: nat := 40
  const NV_ID_BEGIN: nat := 2
  const NV_ID_END: nat := NV_ID_BEGIN + MAX_CREDS
  const TYPE_GENERIC: nat := 1
  const ENTRY_HEADER_SIZE: nat := 4

  type Octets = seq<nat>

  datatype Key = Key(kind: nat, id: Octets)

  datatype Value = Value(expiration: nat, data: Octets)

  datatype Slot = Empty | Stored(key: Key, value: Value)

  datatype Status = Ok | ErrFailure | ErrUnknown

  /** Generic credentials, of exactly the basic type, may be dropped. */
  predicate Generic(s: Slot) {
    s.Stored? && s.key.kind == TYPE_GENERIC
  }

  /** CredentialSize, before it is aligned. */
  function Size(key: Key, value: Value): nat {
    10 + |key.id| + |value.data|
  }

  function WordAlign(n: nat): nat {
    (n + 3) / 4 * 4
  }

  /** What a slot takes of the NVRAM: its header and its aligned capacity. */
  function Cost(s: Slot): nat {
    match s
    case Empty => 0
    case Stored(key, value) => ENTRY_HEADER_SIZE + WordAlign(Size(key, value))
  }

  /** The least multiple of four that holds a header of four octets, ten of numbers, the id and the data. */
  lemma CostExact(key: Key, value: Value)
    ensures var n := 14 + |key.id| + |value.data|;
            Cost(Stored(key, value)) % 4 == 0 && n <= Cost(Stored(key, value)) < n + 4
    ensures Cost(Empty) == 0
  {
  }

  function Used(slots: seq<Slot>): nat {
    if slots == [] then 0 else Used(slots[..|slots| - 1]) + Cost(slots[|slots| - 1])
  }

  /** What would remain in use if every generic credential were dropped. */
  function UsedForGood(slots: seq<Slot>): nat {
    if slots == [] then 0
    else
      var s := slots[|slots| - 1];
      UsedForGood(slots[..|slots| - 1]) + if Generic(s) then 0 else Cost(s)
  }

  function Generics(slots: seq<Slot>): nat {
    if slots == [] then 0 else Generics(slots[..|slots| - 1]) + if Generic(slots[|slots| - 1]) then 1 else 0
  }

  ghost predicate Unique(slots: seq<Slot>) {
    forall i, j :: 0 <= i < j < |slots| && slots[i].Stored? && slots[j].Stored? ==> slots[i].key != slots[j].key
  }

  /** The slots as a map. */
  ghost function View(slots: seq<Slot>): map<Key, Value> {
    if slots == [] then map[]
    else
      var rest, s := View(slots[..|slots| - 1]), slots[|slots| - 1];
      if s.Stored? then rest[s.key := s.value] else rest
  }

  /** Which slot a key is in. */
  ghost predicate At(slots: seq<Slot>, i: int, k: Key) {
    0 <= i < |slots| && slots[i].Stored? && slots[i].key == k
  }

  lemma {:induction false} ViewExact(slots: seq<Slot>)
    requires Unique(slots)
    ensures forall k :: k in View(slots) <==> exists i :: At(slots, i, k)
    ensures forall i :: 0 <= i < |slots| && slots[i].Stored? ==>
              slots[i].key in View(slots) && View(slots)[slots[i].key] == slots[i].value
  {
    if slots != [] {
      var n := |slots| - 1;
      var init, s := slots[..n], slots[n];
      ViewExact(init);
      forall k
        ensures k in View(slots) <==> exists i :: At(slots, i, k)
      {
        if i :| At(init, i, k) {
          assert At(slots, i, k);
        }
        if i :| At(slots, i, k) {
          assert i < n ==> At(init, i, k);
        }
        if s.Stored? && s.key == k {
          assert At(slots, n, k);
        }
      }
      forall i | 0 <= i < |slots| && slots[i].Stored?
        ensures slots[i].key in View(slots) && View(slots)[slots[i].key] == slots[i].value
      {
        if i < n {
          assert init[i] == slots[i];
        }
      }
    }
  }

  /** The map after one slot is written. */
  lemma ViewUpdates(slots: seq<Slot>, i: nat, s: Slot)
    requires i < |slots| && Unique(slots) && Unique(slots[i := s])
    ensures View(slots[i := s]) ==
            var without := if slots[i].Stored? then View(slots) - {slots[i].key} else View(slots);
            if s.Stored? then without[s.key := s.value] else without
  {
    var next := slots[i := s];
    var without := if slots[i].Stored? then View(slots) - {slots[i].key} else View(slots);
    var m := if s.Stored? then without[s.key := s.value] else without;
    ViewExact(slots);
    ViewExact(next);
    forall k
      ensures k in View(next) <==> k in m
      ensures k in m ==> View(next)[k] == m[k]
    {
      if j :| At(next, j, k) {
        assert j != i ==> At(slots, j, k);
        assert next[j].key == k;
      }
      if j :| At(slots, j, k) {
        assert j != i ==> At(next, j, k);
        assert slots[j].key == k;
      }
      if s.Stored? && s.key == k {
        assert At(next, i, k);
      }
    }
    assert View(next) == m;
  }

  lemma {:induction false} SumsUpdate(slots: seq<Slot>, i: nat, s: Slot)
    requires i < |slots|
    ensures Used(slots[i := s]) + Cost(slots[i]) == Used(slots) + Cost(s)
    ensures UsedForGood(slots[i := s]) + (if Generic(slots[i]) then 0 else Cost(slots[i]))
         == UsedForGood(slots) + if Generic(s) then 0 else Cost(s)
    ensures Generics(slots[i := s]) + (if Generic(slots[i]) then 1 else 0) == Generics(slots) + if Generic(s) then 1 else 0
  {
    hide Cost, Generic;
    var n := |slots| - 1;
    var next := slots[i := s];
    if i < n {
      SumsUpdate(slots[..n], i, s);
      assert next[..n] == slots[..n][i := s];
    } else {
      assert next[..n] == slots[..n];
    }
  }

  lemma {:induction false} SumsOrder(slots: seq<Slot>)
    ensures UsedForGood(slots) <= Used(slots)
    ensures (forall i :: 0 <= i < |slots| ==> !Generic(slots[i])) ==> UsedForGood(slots) == Used(slots)
    ensures Generics(slots) == 0 <==> forall i :: 0 <= i < |slots| ==> !Generic(slots[i])
  {
    hide Cost, Generic;
    if slots != [] {
      SumsOrder(slots[..|slots| - 1]);
      assert forall i :: 0 <= i < |slots| - 1 ==> slots[..|slots| - 1][i] == slots[i];
    }
  }

  // ---------------------------------------------------------------- the store

  const MAX_EXPIRATION: nat := 0xFFFF_FFFF

  predicate SlotOk(s: Slot) {
    s.Stored? ==> s.value.expiration <= MAX_EXPIRATION && Size(s.key, s.value) < 0x1_0000
  }

  ghost predicate StoreOk(slots: seq<Slot>, space: nat) {
    && |slots| == MAX_CREDS && space % 4 == 0 && Used(slots) <= space && Unique(slots)
    && forall i :: 0 <= i < |slots| ==> SlotOk(slots[i])
  }

  /** Nothing but the key was added or changed, and what went was generic and expired no later than any generic left. */
  ghost predicate OnlyEvicts(before: map<Key, Value>, after: map<Key, Value>, key: Key) {
    && (forall k :: k in after && k != key ==> k in before && after[k] == before[k])
    && (forall k :: k in before && k !in after && k != key ==> k.kind == TYPE_GENERIC)
    && (forall k, g :: k in before && k !in after && k != key && g in after && g != key && g.kind == TYPE_GENERIC ==>
          before[k].expiration <= after[g].expiration)
  }

  ghost predicate HasEmpty(slots: seq<Slot>) {
    exists i :: 0 <= i < |slots| && slots[i] == Empty
  }

  lemma EmptyingKeeps(slots: seq<Slot>, space: nat, i: nat)
    requires StoreOk(slots, space) && i < |slots|
    ensures StoreOk(slots[i := Empty], space)
    ensures Used(slots[i := Empty]) == Used(slots) - Cost(slots[i])
  {
    hide Used, UsedForGood, Generics, Cost, SlotOk;
    SumsUpdate(slots, i, Empty);
    NoCost();
    assert SlotOk(Empty) by { EmptyOk(); }
  }

  lemma NoCost()
    ensures Cost(Empty) == 0 && !Generic(Empty)
  {
  }

  lemma EmptyOk()
    ensures SlotOk(Empty)
  {
  }

  lemma StoringKeeps(slots: seq<Slot>, space: nat, i: nat, key: Key, value: Value)
    requires StoreOk(slots, space) && i < |slots| && slots[i] == Empty && SlotOk(Stored(key, value))
    requires forall k :: 0 <= k < |slots| && slots[k].Stored? ==> slots[k].key != key
    requires Used(slots) + Cost(Stored(key, value)) <= space
    ensures StoreOk(slots[i := Stored(key, value)], space)
  {
    hide Used, UsedForGood, Generics, Cost, SlotOk;
    SumsUpdate(slots, i, Stored(key, value));
    NoCost();
  }

  class Store {
    var slots: seq<Slot>
    /** The bytes of NVRAM that no other entry uses. */
    const space: nat

    ghost predicate Valid()
      reads this
    {
      StoreOk(slots, space)
    }

    /** An empty store. */
    constructor (space: nat)
      requires space % 4 == 0
      ensures Valid() && this.space == space && View(slots) == map[]
    {
      this.space := space;
      slots := seq(MAX_CREDS, i => Empty);
      new;
      NothingStored(slots);
    }

    /** AJ_NVRAM_GetSizeRemaining */
    function Remaining(): nat
      requires Valid()
      reads this
    {
      space - Used(slots)
    }

    /** FindCredsEmptySlot: the number of the first empty slot, or zero. */
    method FindEmptySlot() returns (slot: nat)
      requires Valid()
      ensures slot == 0 <==> !HasEmpty(slots)
      ensures slot != 0 ==> NV_ID_BEGIN <= slot < NV_ID_END && slots[slot - NV_ID_BEGIN] == Empty
    {
      hide Used;
      slot := NV_ID_BEGIN;
      while slot < NV_ID_END
        invariant NV_ID_BEGIN <= slot <= NV_ID_END
        invariant forall i :: 0 <= i < slot - NV_ID_BEGIN ==> slots[i] != Empty
      {
        if slots[slot - NV_ID_BEGIN] == Empty {
          return;
        }
        slot := slot + 1;
      }
      slot := 0;
    }

    /** CredentialFind for an id that is given, from the first slot: its slot, or zero. */
    method Find(key: Key) returns (slot: nat)
      requires Valid()
      ensures slot == 0 <==> key !in View(slots)
      ensures slot != 0 ==>
                && NV_ID_BEGIN <= slot < NV_ID_END && At(slots, slot - NV_ID_BEGIN, key)
                && View(slots)[key] == slots[slot - NV_ID_BEGIN].value
    {
      hide Used, View;
      ViewExact(slots);
      slot := NV_ID_BEGIN;
      while slot < NV_ID_END
        invariant NV_ID_BEGIN <= slot <= NV_ID_END
        invariant forall i :: 0 <= i < slot - NV_ID_BEGIN ==> !At(slots, i, key)
      {
        var s := slots[slot - NV_ID_BEGIN];
        if s.Stored? && s.key.kind == key.kind {
          if s.key.id == key.id {
            assert At(slots, slot - NV_ID_BEGIN, key);
            return;
          }
        }
        slot := slot + 1;
      }
      slot := 0;
    }

    /** CredentialWrite: the old entry goes first, then the new one is created if it fits. */
    method Write(key: Key, value: Value, slot: nat) returns (status: Status)
      requires Valid() && NV_ID_BEGIN <= slot < NV_ID_END && SlotOk(Stored(key, value))
      requires forall k :: 0 <= k < |slots| && k != slot - NV_ID_BEGIN && slots[k].Stored? ==> slots[k].key != key
      modifies this`slots
      ensures Valid()
      ensures status == Ok <==> Used(old(slots)) - Cost(old(slots)[slot - NV_ID_BEGIN]) + Cost(Stored(key, value)) <= space
      ensures status == Ok ==> slots == old(slots)[slot - NV_ID_BEGIN := Stored(key, value)]
      ensures status != Ok ==> status == ErrFailure && slots == old(slots)[slot - NV_ID_BEGIN := Empty]
    {
      hide Used, Cost, Size, SlotOk, StoreOk, Unique;
      var i := slot - NV_ID_BEGIN;
      StoreSize(slots, space);
      EmptyingKeeps(slots, space, i);
      slots := slots[i := Empty];
      if Cost(Stored(key, value)) > Remaining() {
        return ErrFailure;
      }
      StoringKeeps(slots, space, i, key, value);
      slots := slots[i := Stored(key, value)];
      return Ok;
    }

    /** DeleteOldestCredential: of the generic credentials the one that expires first, the last such slot. */
    method DeleteOldest() returns (status: Status, deleted: nat)
      requires Valid()
      modifies this`slots
      ensures Valid()
      ensures status == Ok <==> Generics(old(slots)) > 0
      ensures status != Ok ==> slots == old(slots)
      ensures status == Ok ==>
                && NV_ID_BEGIN <= deleted < NV_ID_END && Oldest(old(slots), deleted - NV_ID_BEGIN)
                && slots == old(slots)[deleted - NV_ID_BEGIN := Empty]
    {
      hide Used, Generics, Cost, Size;
      SumsOrder(slots);
      var slot := NV_ID_BEGIN;
      var oldestSlot := 0;
      var oldestExp := MAX_EXPIRATION;
      while slot < NV_ID_END
        invariant NV_ID_BEGIN <= slot <= NV_ID_END
        invariant oldestSlot == 0 ==> oldestExp == MAX_EXPIRATION && forall i :: 0 <= i < slot - NV_ID_BEGIN ==> !Generic(slots[i])
        invariant oldestSlot != 0 ==> NV_ID_BEGIN <= oldestSlot < slot && Generic(slots[oldestSlot - NV_ID_BEGIN]) &&
                                      slots[oldestSlot - NV_ID_BEGIN].value.expiration == oldestExp
        invariant forall i :: 0 <= i < slot - NV_ID_BEGIN && Generic(slots[i]) ==> oldestExp <= slots[i].value.expiration
      {
        var s := slots[slot - NV_ID_BEGIN];
        if s.Stored? && s.key.kind == TYPE_GENERIC {
          assert SlotOk(s);
          if s.value.expiration <= oldestExp {
            oldestExp := s.value.expiration;
            oldestSlot := slot;
          }
        }
        slot := slot + 1;
      }
      if oldestSlot == 0 {
        return ErrUnknown, 0;
      }
      EmptyingKeeps(slots, space, oldestSlot - NV_ID_BEGIN);
      slots := slots[oldestSlot - NV_ID_BEGIN := Empty];
      return Ok, oldestSlot;
    }

    /** AJ_CredentialSet */
    method Set(key: Key, value: Value) returns (status: Status)
      requires Valid() && SlotOk(Stored(key, value))
      modifies this`slots
      ensures Valid()
      ensures OnlyEvicts(View(old(slots)), View(slots), key)
      ensures status == Ok ==> key in View(slots) && View(slots)[key] == value
      ensures status != Ok ==> key !in View(slots)
      ensures key in View(old(slots)) ==> View(slots) - {key} == View(old(slots)) - {key}
      ensures key !in View(old(slots)) ==> (status == Ok <==> CanFit(old(slots), key, value, space))
      ensures key in View(old(slots)) ==> (status == Ok <==> FitsInPlace(old(slots), key, value, space))
    {
      hide Used, UsedForGood, Generics, Cost, Size, View, SlotOk, StoreOk, Unique, OnlyEvicts;
      StoreSize(slots, space);
      status := Ok;
      var slot := Find(key);
      if slot != 0 {
        KeyOnly(View(slots), key, value);
        OneSlot(slots, space, slot - NV_ID_BEGIN, key);
        status := Overwrite(key, value, slot);
        return;
      }
      KeyAbsent(slots, space, key);
      var size := WordAlign(Size(key, value));
      slot := FindEmptySlot();
      NothingEvicted(View(slots), key);
      SumsOrder(slots);
      while status == Ok && (slot == 0 || size >= Remaining())
        invariant Valid() && |slots| == MAX_CREDS && key !in View(slots)
        invariant OnlyEvicts(View(old(slots)), View(slots), key)
        invariant UsedForGood(slots) == UsedForGood(old(slots)) <= Used(slots)
        invariant slot != 0 ==> NV_ID_BEGIN <= slot < NV_ID_END && slots[slot - NV_ID_BEGIN] == Empty
        invariant slot == 0 ==> slots == old(slots) && !HasEmpty(slots)
        invariant slot != 0 ==> HasEmpty(old(slots)) || Generics(old(slots)) > 0
        invariant status != Ok ==> Generics(slots) == 0 && (slot == 0 || size >= Remaining())
        decreases Generics(slots), status == Ok
      {
        ghost var was := slots;
        var deleted;
        status, deleted := DeleteOldest();
        if status == Ok {
          slot := deleted;
          EvictionStep(View(old(slots)), was, space, slot - NV_ID_BEGIN, key);
          SumsUpdate(was, slot - NV_ID_BEGIN, Empty);
          NoCost();
          SumsOrder(slots);
        }
      }
      SumsOrder(slots);
      if slot == 0 {
        return ErrFailure;
      }
      KeyAbsent(slots, space, key);
      FitsExact(slots, space, key, value);
      NoCost();
      ghost var was := slots;
      status := Write(key, value, slot);
      if status == Ok {
        AddedToView(View(old(slots)), was, space, slot - NV_ID_BEGIN, key, value);
      } else {
        assert slots == was;
      }
    }

    /** AJ_CredentialSet when the key has a slot: no room is made for it. */
    method Overwrite(key: Key, value: Value, slot: nat) returns (status: Status)
      requires Valid() && SlotOk(Stored(key, value)) && NV_ID_BEGIN <= slot < NV_ID_END && At(slots, slot - NV_ID_BEGIN, key)
      modifies this`slots
      ensures Valid()
      ensures View(slots) == if status == Ok then View(old(slots))[key := value] else View(old(slots)) - {key}
      ensures status == Ok <==> Used(old(slots)) - Cost(old(slots)[slot - NV_ID_BEGIN]) + Cost(Stored(key, value)) <= space
    {
      hide Used, Cost, Size, View, SlotOk;
      ghost var was := slots;
      status := Write(key, value, slot);
      ViewUpdates(was, slot - NV_ID_BEGIN, slots[slot - NV_ID_BEGIN]);
      assert status == Ok ==> View(slots) == (View(was) - {key})[key := value] == View(was)[key := value];
    }

    /** AJ_CredentialGet into a buffer of a given size, or into one allocated for it. */
    method Get(key: Key, room: Option<nat>) returns (result: Option<Value>)
      requires Valid()
      ensures result.Some? <==>
                && key in View(slots)
                && (room == None || View(slots)[key].data == [] || |View(slots)[key].data| <= room.value)
      ensures result.Some? ==> result.value == View(slots)[key]
    {
      hide View, Used, Unique;
      var slot := Find(key);
      if slot == 0 {
        return None;
      }
      var value := slots[slot - NV_ID_BEGIN].value;
      if !Readable(value.data, room) {
        return None;
      }
      return Some(value);
    }

    /** A credential that has been set is read back by any caller with room for it. */
    method SetThenGet(key: Key, value: Value, room: nat) returns (result: Option<Value>)
      requires Valid() && SlotOk(Stored(key, value)) && |value.data| <= room
      modifies this`slots
      ensures Valid()
      ensures result.Some? ==> result == Some(value)
      ensures key !in View(old(slots)) ==> (result.Some? <==> CanFit(old(slots), key, value, space))
      ensures key in View(old(slots)) ==> (result.Some? <==> FitsInPlace(old(slots), key, value, space))
    {
      hide View, Used, UsedForGood, Unique, Cost, SlotOk, OnlyEvicts, StoreOk, CanFit, FitsInPlace;
      var status := Set(key, value);
      result := Get(key, Some(room));
    }

    /** AJ_CredentialDelete */
    method Delete(key: Key) returns (status: Status)
      requires Valid()
      modifies this`slots
      ensures Valid() && View(slots) == View(old(slots)) - {key}
      ensures status == Ok <==> key in View(old(slots))
    {
      hide View, Used, Unique, Cost, SlotOk;
      var slot := Find(key);
      if slot == 0 {
        return ErrFailure;
      }
      var i := slot - NV_ID_BEGIN;
      EmptyingKeeps(slots, space, i);
      ViewUpdates(slots, i, Empty);
      slots := slots[i := Empty];
      return Ok;
    }

    /** AJ_ClearCredentials: every credential of a kind, or every one if the kind is zero. */
    method Clear(kind: nat)
      requires Valid()
      modifies this`slots
      ensures Valid()
      ensures View(slots) == map k | k in View(old(slots)) && kind != 0 && k.kind != kind :: View(old(slots))[k]
    {
      hide View, Used, Unique, Cost, SlotOk;
      ViewExact(slots);
      var slot := NV_ID_BEGIN;
      while slot < NV_ID_END
        invariant NV_ID_BEGIN <= slot <= NV_ID_END && Valid()
        invariant forall i :: 0 <= i < slot - NV_ID_BEGIN ==> slots[i] == if Cleared(old(slots)[i], kind) then Empty else old(slots)[i]
        invariant forall i :: slot - NV_ID_BEGIN <= i < MAX_CREDS ==> slots[i] == old(slots)[i]
      {
        var i := slot - NV_ID_BEGIN;
        if slots[i] != Empty && (kind == 0 || slots[i].key.kind == kind) {
          EmptyingKeeps(slots, space, i);
          slots := slots[i := Empty];
        }
        slot := slot + 1;
      }
      ClearedView(old(slots), slots, space, kind);
    }
  }

  predicate Cleared(s: Slot, kind: nat) {
    s.Stored? && (kind == 0 || s.key.kind == kind)
  }

  lemma ClearedView(was: seq<Slot>, now: seq<Slot>, space: nat, kind: nat)
    requires StoreOk(was, space) && StoreOk(now, space)
    requires forall i :: 0 <= i < MAX_CREDS ==> now[i] == if Cleared(was[i], kind) then Empty else was[i]
    ensures View(now) == map k | k in View(was) && kind != 0 && k.kind != kind :: View(was)[k]
  {
    hide View, Used, Cost, SlotOk;
    ViewExact(was);
    ViewExact(now);
    var m := map k | k in View(was) && kind != 0 && k.kind != kind :: View(was)[k];
    forall k
      ensures k in View(now) <==> k in m
      ensures k in m ==> View(now)[k] == m[k]
    {
      if i :| At(now, i, k) {
        assert At(was, i, k);
      }
      if i :| At(was, i, k) {
        assert now[i] == if Cleared(was[i], kind) then Empty else was[i];
        assert kind != 0 && k.kind != kind ==> At(now, i, k);
      }
    }
  }

  /** CredFieldRead: a field of size zero needs no buffer. */
  predicate Readable(data: Octets, room: Option<nat>) {
    data == [] || room == None || |data| <= room.value
  }

  lemma KeyAbsent(slots: seq<Slot>, space: nat, key: Key)
    requires StoreOk(slots, space) && key !in View(slots)
    ensures |slots| == MAX_CREDS
    ensures forall k :: 0 <= k < |slots| && slots[k].Stored? ==> slots[k].key != key
  {
    hide View, Used, Cost;
    ViewExact(slots);
  }

  lemma OneSlot(slots: seq<Slot>, space: nat, i: nat, key: Key)
    requires StoreOk(slots, space) && At(slots, i, key)
    ensures forall j :: At(slots, j, key) ==> j == i
  {
    hide Used, Cost, SlotOk;
  }

  lemma KeyOnly(m: map<Key, Value>, key: Key, value: Value)
    ensures OnlyEvicts(m, m[key := value], key) && OnlyEvicts(m, m - {key}, key)
  {
  }

  lemma NothingEvicted(m: map<Key, Value>, key: Key)
    ensures OnlyEvicts(m, m, key)
  {
  }

  lemma {:induction false} UsedAligned(slots: seq<Slot>)
    ensures Used(slots) % 4 == 0
  {
    if slots != [] {
      UsedAligned(slots[..|slots| - 1]);
    }
  }

  /** The test for room made before the header is counted is exact, because everything is aligned. */
  lemma FitsExact(slots: seq<Slot>, space: nat, key: Key, value: Value)
    requires StoreOk(slots, space)
    ensures WordAlign(Size(key, value)) < space - Used(slots) <==> Used(slots) + Cost(Stored(key, value)) <= space
  {
    hide Used, Size;
    UsedAligned(slots);
  }

  lemma EvictionStep(first: map<Key, Value>, was: seq<Slot>, space: nat, i: nat, key: Key)
    requires StoreOk(was, space) && i < |was| && Oldest(was, i) && StoreOk(was[i := Empty], space)
    requires OnlyEvicts(first, View(was), key) && key !in View(was)
    ensures OnlyEvicts(first, View(was[i := Empty]), key) && key !in View(was[i := Empty])
  {
    hide View, Used, Cost, SlotOk;
    ViewUpdates(was, i, Empty);
    ViewExact(was);
    var gone := was[i].key;
    forall g | g in View(was) && g != gone && g.kind == TYPE_GENERIC
      ensures View(was)[gone].expiration <= View(was)[g].expiration
    {
      var j :| At(was, j, g);
      assert Generic(was[j]);
    }
  }

  lemma AddedToView(first: map<Key, Value>, was: seq<Slot>, space: nat, i: nat, key: Key, value: Value)
    requires StoreOk(was, space) && i < |was| && was[i] == Empty && StoreOk(was[i := Stored(key, value)], space)
    requires OnlyEvicts(first, View(was), key) && key !in View(was)
    ensures OnlyEvicts(first, View(was[i := Stored(key, value)]), key)
    ensures key in View(was[i := Stored(key, value)]) && View(was[i := Stored(key, value)])[key] == value
  {
    hide View, Used, Cost, SlotOk;
    ViewUpdates(was, i, Stored(key, value));
  }

  lemma {:induction false} NothingStored(slots: seq<Slot>)
    requires forall i :: 0 <= i < |slots| ==> slots[i] == Empty
    ensures Used(slots) == 0 && View(slots) == map[]
  {
    if slots != [] {
      NothingStored(slots[..|slots| - 1]);
    }
  }

  lemma StoreSize(slots: seq<Slot>, space: nat)
    requires StoreOk(slots, space)
    ensures |slots| == MAX_CREDS && Used(slots) <= space
  {
  }

  /** A generic slot that expires no later than any other generic one. */
  ghost predicate Oldest(slots: seq<Slot>, i: int) {
    0 <= i < |slots| && Generic(slots[i]) &&
    forall j :: 0 <= j < |slots| && Generic(slots[j]) ==> slots[i].value.expiration <= slots[j].value.expiration
  }

  /** There is room once the slot of the key itself has been given up. */
  ghost predicate FitsInPlace(slots: seq<Slot>, key: Key, value: Value, space: nat) {
    exists i :: At(slots, i, key) && Used(slots) - Cost(slots[i]) + Cost(Stored(key, value)) <= space
  }

  /** There would be a slot and room for the credential if every generic one were dropped. */
  ghost predicate CanFit(slots: seq<Slot>, key: Key, value: Value, space: nat) {
    (HasEmpty(slots) || Generics(slots) > 0) && UsedForGood(slots) + Cost(Stored(key, value)) <= space
  }
}
