/**
 S3-FIFO's memory of keys recently evicted from small: 32-bit fingerprints in two-slot buckets, stamped with a wrapping
 push counter. An entry older than the window counts as absent.
 */
module GhostTables {
  const U32: nat := 0x1_0000_0000

  /** A fingerprint is never 0 in an occupied slot. */
  datatype GhostSlot = GhostSlot(mark: nat, stamp: nat)

  datatype Bucket = Bucket(a: GhostSlot, b: GhostSlot)

  datatype Memory = Memory(clock: nat, slots: seq<GhostSlot>)

  /** The difference of two 32-bit counters. */
  function Age(clock: nat, stamp: nat): (age: nat)
    ensures age < U32
  {
    (clock - stamp) % U32
  }

  function NextClock(clock: nat): (next: nat)
    ensures next < U32
  {
    (clock + 1) % U32
  }

  ghost predicate Sound(p: Bucket) {
    p.a.stamp < U32 && p.b.stamp < U32 && (p.a.mark != 0 ==> p.a.mark != p.b.mark)
  }

  /** The fingerprint is in the bucket, pushed less than `window` pushes ago. */
  ghost predicate Holds(p: Bucket, mark: nat, clock: nat, window: nat)
    requires Sound(p) && clock < U32
  {
    || (p.a.mark == mark && Age(clock, p.a.stamp) < window)
    || (p.b.mark == mark && Age(clock, p.b.stamp) < window)
  }

  /** The bucket after a push stamped `clock`: an entry of the same fingerprint is refreshed, else the older one
      replaced. */
  function Pushed(p: Bucket, mark: nat, clock: nat): Bucket {
    var entry := GhostSlot(mark, clock);
    if p.a.mark == mark then p.(a := entry)
    else if p.b.mark == mark || Age(clock, p.b.stamp) > Age(clock, p.a.stamp) then p.(b := entry)
    else p.(a := entry)
  }

  lemma PushedIs(p: Bucket, mark: nat, clock: nat)
    ensures var entry := GhostSlot(mark, clock);
            Pushed(p, mark, clock)
            == if p.a.mark != mark && (p.b.mark == mark || Age(clock, p.b.stamp) > Age(clock, p.a.stamp))
               then p.(b := entry)
               else p.(a := entry)
  {
  }

  lemma ConsumedIs(p: Bucket, mark: nat, clock: nat, window: nat)
    requires Sound(p) && clock < U32
    ensures p.a.mark == mark && Age(clock, p.a.stamp) < window ==>
              Holds(p, mark, clock, window) && Consumed(p, mark, clock, window) == p.(a := GhostSlot(0, 0))
    ensures !(p.a.mark == mark && Age(clock, p.a.stamp) < window) && p.b.mark == mark
            && Age(clock, p.b.stamp) < window ==>
              Holds(p, mark, clock, window) && Consumed(p, mark, clock, window) == p.(b := GhostSlot(0, 0))
    ensures !(p.a.mark == mark && Age(clock, p.a.stamp) < window)
            && !(p.b.mark == mark && Age(clock, p.b.stamp) < window) ==>
              !Holds(p, mark, clock, window)
  {
  }

  lemma SoundIs(p: Bucket)
    requires Sound(p)
    ensures p.a.stamp < U32 && p.b.stamp < U32
  {
  }

  /** The bucket after a hit: the entry is consumed. */
  function Consumed(p: Bucket, mark: nat, clock: nat, window: nat): Bucket {
    if p.a.mark == mark && Age(clock, p.a.stamp) < window then p.(a := GhostSlot(0, 0))
    else if p.b.mark == mark && Age(clock, p.b.stamp) < window then p.(b := GhostSlot(0, 0))
    else p
  }

  lemma PushedIsSound(p: Bucket, mark: nat, clock: nat, window: nat)
    requires Sound(p) && clock < U32 && mark != 0 && window > 0
    ensures Sound(Pushed(p, mark, clock)) && Holds(Pushed(p, mark, clock), mark, clock, window)
  {
  }

  /** A hit consumes the only entry of the fingerprint: asking again right away misses. */
  lemma ConsumedIsGone(p: Bucket, mark: nat, clock: nat, window: nat)
    requires Sound(p) && clock < U32 && mark != 0
    ensures Sound(Consumed(p, mark, clock, window)) && !Holds(Consumed(p, mark, clock, window), mark, clock, window)
    ensures !Holds(p, mark, clock, window) ==> Consumed(p, mark, clock, window) == p
  {
  }

  /** The entry pushed last survives the push of another fingerprint into its bucket exactly when the neighbour is that
      fingerprint's, or looks older: a neighbour looks as young only after 2^32 - 1 pushes that left it alone. */
  lemma NewestSurvives(p: Bucket, mark: nat, other: nat, clock: nat, window: nat)
    requires Sound(p) && clock < U32 && mark != 0 && other != 0 && other != mark && window > 1
    ensures p.a == GhostSlot(mark, clock) ==>
              (Holds(Pushed(p, other, NextClock(clock)), mark, NextClock(clock), window) <==>
                 p.b.mark == other || Age(NextClock(clock), p.b.stamp) > 1)
    ensures p.b == GhostSlot(mark, clock) ==>
              (Holds(Pushed(p, other, NextClock(clock)), mark, NextClock(clock), window) <==>
                 p.a.mark == other || Age(NextClock(clock), p.a.stamp) > 0)
  {
    assert Age(NextClock(clock), clock) == 1;
  }

  class GhostTable {
    /** The table's own hash of a key, apart from the one that picks shards. */
    const rehash: bv64 -> nat
    const slots: array<GhostSlot>
    var clock: nat

    /** `capacity` slots rounded up to a power of two, at least one bucket; none disables the table. */
    constructor (rehash: bv64 -> nat, capacity: nat)
      ensures this.rehash == rehash && fresh(slots) && Valid() && capacity <= slots.Length
      ensures capacity == 0 <==> slots.Length == 0
      ensures slots.Length <= 2 || slots.Length < 2 * capacity
      ensures forall key: bv64 :: !Remembers(key)
    {
      var n := if capacity == 0 then 0 else 2;
      while n < capacity
        invariant n % 2 == 0 && (capacity == 0 ==> n == 0) && (capacity > 0 ==> n >= 2) && (n <= 2 || n < 2 * capacity)
      {
        n := 2 * n;
      }
      this.rehash, clock := rehash, 0;
      slots := new GhostSlot[n](_ => GhostSlot(0, 0));
    }

    ghost predicate Valid()
      reads this, slots
    {
      && slots.Length % 2 == 0 && clock < U32
      && forall i: nat | 2 * i + 1 < slots.Length :: Sound(At(i))
    }

    function Mark(key: bv64): (mark: nat)
      ensures mark != 0
    {
      var mark := rehash(key) / U32;
      if mark == 0 then 1 else mark
    }

    function BucketOf(key: bv64): (i: nat)
      requires slots.Length >= 2
      ensures 2 * i + 1 < slots.Length
    {
      (rehash(key) % U32) % (slots.Length / 2)
    }

    ghost function At(i: nat): Bucket
      requires 2 * i + 1 < slots.Length
      reads slots
    {
      Bucket(slots[2 * i], slots[2 * i + 1])
    }

    /** The key, or one sharing its bucket and fingerprint, was pushed within the window and not consumed since. */
    ghost predicate Remembers(key: bv64)
      requires Valid()
      reads this, slots
    {
      slots.Length > 0 && Holds(At(BucketOf(key)), Mark(key), clock, slots.Length)
    }

    ghost function Now(): Memory
      reads this, slots
    {
      Memory(clock, slots[..])
    }

    /** The memory with the bucket of `key` replaced. */
    ghost function With(m: Memory, clock: nat, key: bv64, p: Bucket): Memory
      requires |m.slots| == slots.Length >= 2
    {
      Memory(clock, m.slots[2 * BucketOf(key) := p.a][2 * BucketOf(key) + 1 := p.b])
    }

    /** The memory after a push of the key: its bucket alone changes. */
    ghost function AfterPush(m: Memory, key: bv64): Memory
      requires |m.slots| == slots.Length
    {
      if slots.Length < 2 then m
      else
        var i, next := BucketOf(key), NextClock(m.clock);
        With(m, next, key, Pushed(Bucket(m.slots[2 * i], m.slots[2 * i + 1]), Mark(key), next))
    }

    /** The memory after asking for the key: an entry of it is gone, and nothing else. */
    ghost function AfterHit(m: Memory, key: bv64): Memory
      requires |m.slots| == slots.Length
    {
      if slots.Length < 2 then m
      else
        var i := BucketOf(key);
        With(m, m.clock, key, Consumed(Bucket(m.slots[2 * i], m.slots[2 * i + 1]), Mark(key), m.clock, slots.Length))
    }

    /** Records the key; no other bucket changes. */
    method Push(key: bv64)
      requires Valid()
      modifies this`clock, slots
      ensures Valid() && (slots.Length > 0 ==> Remembers(key))
      ensures Now() == AfterPush(old(Now()), key)
    {
      hide Age, Pushed, BucketOf, Mark, Holds, Sound;
      if slots.Length == 0 {
        return;
      }
      var i, mark := BucketOf(key), Mark(key);
      clock := (clock + 1) % U32;
      ghost var bucket := At(i);
      PushedIsSound(bucket, mark, clock, slots.Length);
      SoundIs(bucket);
      PushedIs(bucket, mark, clock);
      var a, b := slots[2 * i], slots[2 * i + 1];
      var target := 2 * i;
      if a.mark != mark && (b.mark == mark || Age(clock, b.stamp) > Age(clock, a.stamp)) {
        target := 2 * i + 1;
      }
      slots[target] := GhostSlot(mark, clock);
      assert At(i) == Pushed(bucket, mark, clock);
      assert forall j: nat | 2 * j + 1 < slots.Length && j != i :: At(j) == old(At(j));
    }

    /** Whether the key is remembered; a remembered one is consumed. */
    method Hit(key: bv64) returns (hit: bool)
      requires Valid()
      modifies slots
      ensures Valid() && (hit <==> old(Remembers(key))) && !Remembers(key)
      ensures Now() == AfterHit(old(Now()), key)
    {
      hide Age, Consumed, BucketOf, Mark, Holds, Sound;
      if slots.Length == 0 {
        return false;
      }
      var i, mark := BucketOf(key), Mark(key);
      ghost var bucket := At(i);
      ConsumedIsGone(bucket, mark, clock, slots.Length);
      SoundIs(bucket);
      ConsumedIs(bucket, mark, clock, slots.Length);
      var k := 2 * i;
      while k < 2 * i + 2
        invariant 2 * i <= k <= 2 * i + 2 && slots[..] == old(slots[..]) && At(i) == bucket
        invariant k > 2 * i ==> !(bucket.a.mark == mark && Age(clock, bucket.a.stamp) < slots.Length)
        invariant k > 2 * i + 1 ==> !(bucket.b.mark == mark && Age(clock, bucket.b.stamp) < slots.Length)
      {
        if slots[k].mark == mark && Age(clock, slots[k].stamp) < slots.Length {
          slots[k] := GhostSlot(0, 0);
          assert At(i) == Consumed(bucket, mark, clock, slots.Length);
          assert forall j: nat | 2 * j + 1 < slots.Length && j != i :: At(j) == old(At(j));
          return true;
        }
        k := k + 1;
      }
      assert forall j: nat | 2 * j + 1 < slots.Length :: At(j) == old(At(j));
      return false;
    }
  }
}
