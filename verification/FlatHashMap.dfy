/** The slot table on arrays: one shard's memory storage. */
module FlatHashMaps {
  import opened SlotTable

  /** Where a write lands: on the key's live slot, on the tombstone its queue node still references, or on a slot
      no key holds. */
  datatype Place = Present(idx: nat) | Dormant(idx: nat) | Vacant(idx: nat)

  class FlatHashMap<K(==), V> {
    const slots: array<Slot<K, V>>
    const overflows: array<nat>

    constructor (n: nat)
      requires Sized(n)
      ensures fresh(slots) && fresh(overflows)
      ensures slots.Length == n && (forall i | 0 <= i < n :: slots[i] == Empty)
      ensures overflows.Length * GROUP == n && (forall g | 0 <= g < n / GROUP :: overflows[g] == 0)
    {
      SizedIsWholeGroups(n);
      slots := new Slot<K, V>[n](_ => Empty);
      overflows := new nat[n / GROUP](_ => 0);
    }

    /** The key settled at `pos`: count it if that is outside its home group. */
    method NoteDisplaced(home: nat, pos: nat)
      requires Group(home) < overflows.Length
      modifies overflows
      ensures overflows[..] == Noted(old(overflows[..]), home, pos)
    {
      if Group(home) != Group(pos) {
        overflows[Group(home)] := overflows[Group(home)] + 1;
      }
    }

    /** The key at `pos` died. */
    method ForgetDisplaced(home: nat, pos: nat)
      requires Group(home) < overflows.Length
      requires Group(home) != Group(pos) ==> overflows[Group(home)] > 0
      modifies overflows
      ensures overflows[..] == Forgotten(old(overflows[..]), home, pos)
    {
      if Group(home) != Group(pos) {
        overflows[Group(home)] := overflows[Group(home)] - 1;
      }
    }

    /** The live slot of `key`, or none: the probe stops at a never-occupied slot, or at the edge of the home group
        when nothing homed there lives past it. */
    method FindSlot(hash: K -> nat, key: K) returns (idx: nat, ok: bool)
      requires TableInv(slots[..], overflows[..], hash)
      ensures ok <==> key in Contents(slots[..])
      ensures ok ==> idx < slots.Length && slots[idx].Live? && slots[idx].key == key
    {
      ghost var s, over := slots[..], overflows[..];
      var n := slots.Length;
      var tagged, home := TagOf(hash(key)), Home(hash(key), n);
      var groupEnd := GROUP * (Group(home) + 1);
      SizedIsWholeGroups(n);
      var pos := home;
      while true
        invariant home <= pos < home + n
        invariant forall q | home <= q < pos :: Occupied(s, q) && !Match(s[Wrap(q, n)], key)
        decreases home + n - pos
      {
        StretchIsShort(s, home, pos - home);
        if pos == groupEnd && overflows[Group(home)] == 0 {
          NoMatchInGroup(s, over, hash, key, pos);
          return 0, false;
        }
        var slot := slots[Wrap(pos, n)];
        if slot.Empty? {
          NoMatchBeforeEmpty(s, over, hash, key, pos);
          return 0, false;
        }
        if slot.Live? && slot.tag == tagged && slot.key == key {
          ContentsAt(s, Wrap(pos, n));
          return Wrap(pos, n), true;
        }
        assert slot.Live? ==> Placed(s, hash, Wrap(pos, n));
        assert Occupied(s, pos);
        pos := pos + 1;
      }
    }

    /** The probe of a write: to the key's own slot, dead or alive, or to the first reusable slot on a walk that runs
        to a never-occupied slot. */
    method Locate(hash: K -> nat, key: K) returns (place: Place)
      requires TableInv(slots[..], overflows[..], hash)
      ensures place.idx < slots.Length
      ensures place.Present? ==> slots[place.idx].Live? && slots[place.idx].key == key
      ensures place.Dormant? ==> slots[place.idx].Tomb? && slots[place.idx].key == key
      ensures place.Vacant? ==>
                && (slots[place.idx].Empty? || slots[place.idx].Free?)
                && Reaches(slots[..], Home(hash(key), slots.Length), place.idx)
                && (forall i | 0 <= i < slots.Length && slots[i].Keyed() :: slots[i].key != key)
                && (forall q | Home(hash(key), slots.Length) <= q
                               < Home(hash(key), slots.Length)
                                 + Steps(Home(hash(key), slots.Length), place.idx, slots.Length)
                      :: !slots[Wrap(q, slots.Length)].Free?)
    {
      ghost var s, over := slots[..], overflows[..];
      var n := slots.Length;
      var tagged, home := TagOf(hash(key)), Home(hash(key), n);
      var reuse, hasReuse := 0, false;
      var pos := home;
      while true
        invariant home <= pos < home + n
        invariant forall q | home <= q < pos :: Occupied(s, q) && !Holds(s[Wrap(q, n)], key)
        invariant hasReuse ==> home <= reuse < pos && s[Wrap(reuse, n)].Free?
        invariant forall q | home <= q < (if hasReuse then reuse else pos) :: !s[Wrap(q, n)].Free?
        decreases home + n - pos
      {
        StretchIsShort(s, home, pos - home);
        var slot := slots[Wrap(pos, n)];
        assert slot.Keyed() ==> Placed(s, hash, Wrap(pos, n));
        if slot.Empty? {
          AbsentBeforeEmpty(s, over, hash, key, pos);
          var at := if hasReuse then reuse else pos;
          assert Steps(home, Wrap(at, n), n) == at - home;
          return Vacant(Wrap(at, n));
        }
        assert Occupied(s, pos);
        if slot.Dead() {
          if !slot.Free? && slot.tag == tagged && slot.key == key {
            return Dormant(Wrap(pos, n));
          }
          if !hasReuse && slot.Free? {
            reuse, hasReuse := pos, true;
          }
        } else if slot.tag == tagged && slot.key == key {
          return Present(Wrap(pos, n));
        }
        pos := pos + 1;
      }
    }

    /** Copies a live item into a table nobody reads yet, and returns its slot. */
    method InsertFresh(hash: K -> nat, src: Slot<K, V>) returns (idx: nat)
      requires TableInv(slots[..], overflows[..], hash)
      requires src.Live? && src.tag == TagOf(hash(src.key))
      requires forall i | 0 <= i < slots.Length && slots[i].Keyed() :: slots[i].key != src.key
      requires 4 * (|UsedSet(slots[..])| + 1) <= 3 * slots.Length
      modifies slots, overflows
      ensures TableInv(slots[..], overflows[..], hash)
      ensures idx < slots.Length && old(slots[idx].Empty?) && slots[..] == old(slots[..])[idx := src]
    {
      ghost var s, over := slots[..], overflows[..];
      var n := slots.Length;
      var home := Home(hash(src.key), n);
      var pos := home;
      while !slots[Wrap(pos, n)].Empty?
        invariant home <= pos < home + n
        invariant forall q | home <= q < pos :: Occupied(s, q)
        invariant slots[..] == s && overflows[..] == over
        decreases home + n - pos
      {
        assert Occupied(s, pos);
        StretchIsShort(s, home, pos + 1 - home);
        pos := pos + 1;
      }
      idx := Wrap(pos, n);
      assert Steps(home, idx, n) == pos - home;
      PublishKeepsTable(s, over, hash, idx, src.key, src.value, src.expireOff);
      slots[idx] := src;
      NoteDisplaced(home, idx);
    }
  }

  predicate Holds<K(==), V>(slot: Slot<K, V>, key: K) {
    slot.Keyed() && slot.key == key
  }

  lemma AbsentBeforeEmpty<K, V>(s: seq<Slot<K, V>>, over: seq<nat>, hash: K -> nat, key: K, pos: nat)
    requires TableInv(s, over, hash)
    requires var home := Home(hash(key), |s|);
             && home <= pos < home + |s| && !Occupied(s, pos)
             && forall q | home <= q < pos :: !Holds(s[Wrap(q, |s|)], key)
    ensures forall i | 0 <= i < |s| && s[i].Keyed() :: s[i].key != key
  {
    forall i | 0 <= i < |s| && s[i].Keyed() ensures s[i].key != key {
      if s[i].key == key {
        EmptyEndsProbe(s, over, hash, pos, i);
        assert false;
      }
    }
  }

  predicate Match<K(==), V>(slot: Slot<K, V>, key: K) {
    slot.Live? && slot.key == key
  }

  lemma NoMatchBeforeEmpty<K, V>(s: seq<Slot<K, V>>, over: seq<nat>, hash: K -> nat, key: K, pos: nat)
    requires TableInv(s, over, hash)
    requires var home := Home(hash(key), |s|);
             && home <= pos < home + |s| && !Occupied(s, pos)
             && forall q | home <= q < pos :: !Match(s[Wrap(q, |s|)], key)
    ensures key !in Contents(s)
  {
    if key in Contents(s) {
      var i := SlotFor(s, key);
      EmptyEndsProbe(s, over, hash, pos, i);
      assert false;
    }
  }

  lemma NoMatchInGroup<K, V>(s: seq<Slot<K, V>>, over: seq<nat>, hash: K -> nat, key: K, pos: nat)
    requires TableInv(s, over, hash)
    requires var home := Home(hash(key), |s|);
             && Group(home) < |over| && over[Group(home)] == 0 && pos == GROUP * (Group(home) + 1)
             && forall q | home <= q < pos :: !Match(s[Wrap(q, |s|)], key)
    ensures key !in Contents(s)
  {
    if key in Contents(s) {
      var i := SlotFor(s, key);
      ZeroCounterEndsProbe(s, over, hash, i);
      assert false;
    }
  }
}
