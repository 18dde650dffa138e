/** One bucket of the in-flight registry: eight inline slots under a bitmap, and a spill map for the overflow. */
module FlightRegistry {

  const SLOTS: nat := 8
  const SPILLED: nat := 0xFF

  function Mask(i: nat): (m: bv8)
    requires i < SLOTS
  {
    if i == 0 then 1 else if i == 1 then 2 else if i == 2 then 4 else if i == 3 then 8
    else if i == 4 then 16 else if i == 5 then 32 else if i == 6 then 64 else 128
  }

  predicate Bit(m: bv8, i: nat)
    requires i < SLOTS
  {
    m & Mask(i) != 0
  }

  /** bits.TrailingZeros8: the lowest set bit, 8 when there is none. */
  function TrailingZeros(m: bv8): (i: nat)
    ensures i <= SLOTS && (i == SLOTS <==> m == 0)
    ensures i < SLOTS ==> Bit(m, i)
    ensures forall j: nat | j < i :: !Bit(m, j)
  {
    if m & 1 != 0 then 0 else if m & 2 != 0 then 1 else if m & 4 != 0 then 2 else if m & 8 != 0 then 3
    else if m & 16 != 0 then 4 else if m & 32 != 0 then 5 else if m & 64 != 0 then 6 else if m & 128 != 0 then 7 else 8
  }

  /** m & (m - 1) drops exactly the lowest set bit. */
  lemma DropsLowest(m: bv8, i: nat)
    requires m != 0 && i < SLOTS
    ensures m & (m - 1) < m
    ensures Bit(m & (m - 1), i) <==> Bit(m, i) && i != TrailingZeros(m)
  {
  }

  function WithBit(m: bv8, k: nat): (r: bv8)
    requires k < SLOTS
    ensures forall i: nat | i < SLOTS :: Bit(r, i) <==> Bit(m, i) || i == k
  {
    m | Mask(k)
  }

  function WithoutBit(m: bv8, k: nat): (r: bv8)
    requires k < SLOTS
    ensures forall i: nat | i < SLOTS :: Bit(r, i) <==> Bit(m, i) && i != k
  {
    m & !Mask(k)
  }

  lemma FreeSlot(m: bv8)
    ensures TrailingZeros(!m) < SLOTS ==> !Bit(m, TrailingZeros(!m))
    ensures TrailingZeros(!m) == SLOTS ==> forall i: nat | i < SLOTS :: Bit(m, i)
  {
  }

  /** The two halves of a flight's 16-bit address: the bucket in the high byte, the slot in the low one. */
  datatype Berth = Berth(bucket: nat, slot: nat)

  function Packed(b: Berth): (at: nat)
    requires b.bucket < 128 && b.slot < 0x100
    ensures at < 0x1_0000 && Berth(at / 0x100, at % 0x100) == b
  {
    0x100 * b.bucket + b.slot
  }

  /** One flight. `at` is where the registry parked it. */
  class FlightCall<K(0), V(0)> {
    var key: K
    var val: V
    var ok: bool
    var failed: bool
    var joined: bool
    var at: Berth
  }

  class Bucket<K(==, 0), V(0)> {
    const number: nat
    const hash: K -> nat
    var live: bv8
    const call: array<FlightCall?<K, V>>
    const hashes: array<nat>
    var spill: map<K, FlightCall<K, V>>
    /** The flight running for each key: at most one, wherever it is parked. */
    ghost var running: map<K, FlightCall<K, V>>
    /** Every flight ever registered here. */
    ghost var flights: set<FlightCall<K, V>>

    constructor (number: nat, hash: K -> nat)
      requires number < 128
      ensures Valid() && running == map[] && flights == {} && fresh(call) && fresh(hashes)
      ensures this.hash == hash && this.number == number
    {
      this.number, this.hash, live, spill, running, flights := number, hash, 0, map[], map[], {};
      call := new FlightCall?<K, V>[SLOTS](_ => null);
      hashes := new nat[SLOTS](_ => 0);
    }

    /** Flight `c` of key `k` is where its `at` says, and nowhere else. */
    ghost predicate Parked(k: K, c: FlightCall<K, V>)
      reads this, call, hashes, c`key, c`at
      requires call.Length == hashes.Length == SLOTS
    {
      && c.key == k && c.at.bucket == number
      && var slot := c.at.slot;
         if slot == SPILLED then k in spill && spill[k] == c
         else slot < SLOTS && Bit(live, slot) && call[slot] == c && hashes[slot] == hash(k)
    }

    /** A slot whose bit is set holds the flight of some running key. */
    ghost predicate Taken(i: nat)
      reads this, call, hashes, flights`key, flights`at
      requires call.Length == hashes.Length == SLOTS && i < SLOTS
    {
      && call[i] != null && call[i] in flights && call[i].at == Berth(number, i)
      && call[i].key in running && running[call[i].key] == call[i]
    }

    ghost predicate Valid()
      reads this, call, hashes, flights`key, flights`at
    {
      && call.Length == hashes.Length == SLOTS && number < 128 && call as object != hashes
      && (forall k | k in running :: running[k] in flights && Parked(k, running[k]))
      && (forall i | 0 <= i < SLOTS && Bit(live, i) :: Taken(i))
      && (forall i | 0 <= i < SLOTS && !Bit(live, i) :: call[i] == null)
      && (forall k | k in spill :: k in running && running[k] == spill[k] && spill[k].at == Berth(number, SPILLED))
    }

    /** The scan over the bitmap: the slot running `key`, or 8. */
    method FindSlot(keyHash: nat, key: K) returns (slot: nat)
      requires Valid() && keyHash == hash(key)
      ensures slot <= SLOTS
      ensures slot < SLOTS ==> key in running && call[slot] == running[key]
      ensures slot == SLOTS ==> key in running ==> key in spill
    {
      hide Mask, TrailingZeros;
      var m := live;
      while m != 0
        invariant forall i | 0 <= i < SLOTS && Bit(m, i) :: Bit(live, i)
        invariant forall i | 0 <= i < SLOTS && Bit(live, i) && !Bit(m, i) && call[i] != null :: call[i].key != key
        decreases m
      {
        var i := TrailingZeros(m);
        if hashes[i] == keyHash && call[i].key == key {
          return i;
        }
        forall j | 0 <= j < SLOTS { DropsLowest(m, j); }
        m := m & (m - 1);
      }
      return SLOTS;
    }

    /** Registers `c` for `key`, or hands back the flight already running for it, marked joined. */
    method Claim(keyHash: nat, key: K, c: FlightCall<K, V>) returns (winner: FlightCall<K, V>, joins: bool)
      requires Valid() && keyHash == hash(key) && c !in flights
      modifies this`live, this`spill, this`running, this`flights, call, hashes, c`key, c`at, flights`joined
      ensures Valid()
      ensures joins <==> key in old(running)
      ensures joins ==>
              winner == old(running)[key] && winner.joined && running == old(running) && flights == old(flights)
      ensures joins ==> c.key == old(c.key) && forall o | o in old(flights) && o != winner :: o.joined == old(o.joined)
      ensures !joins ==> winner == c && running == old(running)[key := c] && flights == old(flights) + {c}
      ensures !joins ==> forall o | o in old(flights) :: o.joined == old(o.joined)
    {
      hide Bit, Mask, TrailingZeros, WithoutBit;
      var slot := FindSlot(keyHash, key);
      if slot < SLOTS {
        winner := call[slot];
        winner.joined := true;
        return winner, true;
      }
      if key in spill {
        winner := spill[key];
        winner.joined := true;
        return winner, true;
      }
      Register(keyHash, key, c);
      return c, false;
    }

    /** Parks a flight for a key nobody is loading: in the first free slot, or in the spill map. */
    method Register(keyHash: nat, key: K, c: FlightCall<K, V>)
      requires Valid() && keyHash == hash(key) && c !in flights && key !in running
      modifies this`live, this`spill, this`running, this`flights, call, hashes, c`key, c`at
      ensures Valid() && running == old(running)[key := c] && flights == old(flights) + {c}
      ensures c.at.slot == SPILLED <==> forall i: nat | i < SLOTS :: Bit(old(live), i)
    {
      c.key := key;
      FreeSlot(live);
      var free := TrailingZeros(!live);
      if free == SLOTS {
        Spill(key, c);
      } else {
        Settle(keyHash, key, c, free);
      }
    }

    method Spill(key: K, c: FlightCall<K, V>)
      requires Valid() && c !in flights && key !in running && c.key == key
      modifies this`spill, this`running, this`flights, c`at
      ensures Valid() && running == old(running)[key := c] && flights == old(flights) + {c} && c.at.slot == SPILLED
    {
      hide Bit;
      spill := spill[key := c];
      c.at := Berth(number, SPILLED);
      running, flights := running[key := c], flights + {c};
      forall k | k in running ensures Parked(k, running[k]) {
        if k != key {
          assert running[k] in old(flights);
          assert old(Parked(k, running[k]));
        }
      }
      forall i | 0 <= i < SLOTS && Bit(live, i) ensures Taken(i) {
        if call[i] != c {
          assert old(Taken(i));
          assert running[call[i].key] == call[i];
        }
      }
    }

    method Settle(keyHash: nat, key: K, c: FlightCall<K, V>, free: nat)
      requires Valid() && keyHash == hash(key) && c !in flights && key !in running && c.key == key
      requires free < SLOTS && !Bit(live, free)
      modifies this`live, this`running, this`flights, call, hashes, c`at
      ensures Valid() && running == old(running)[key := c] && flights == old(flights) + {c} && c.at.slot == free
    {
      hide Bit, Mask, WithBit;
      hashes[free] := keyHash;
      call[free] := c;
      live := WithBit(live, free);
      c.at := Berth(number, free);
      running, flights := running[key := c], flights + {c};
      forall k | k in running ensures Parked(k, running[k]) {
        if k != key {
          assert running[k] in old(flights);
          assert old(Parked(k, running[k]));
        }
      }
      forall i | 0 <= i < SLOTS && Bit(live, i) ensures Taken(i) {
        if i != free {
          assert old(Bit(live, i));
          assert old(Taken(i));
          assert running[call[i].key] == call[i];
        }
      }
    }

    /** Drops the flight; tells whether anybody may be waiting on it. */
    method Release(c: FlightCall<K, V>) returns (joined: bool)
      requires Valid() && c.key in running && running[c.key] == c
      modifies this`live, this`spill, this`running, call
      ensures Valid()
      ensures running == old(running) - {c.key} && joined == c.joined
    {
      hide Bit, Mask, TrailingZeros, WithoutBit;
      var slot := c.at.slot;
      if slot != SPILLED {
        live := WithoutBit(live, slot);
        call[slot] := null;
      } else {
        spill := spill - {c.key};
      }
      running := running - {c.key};
      joined := c.joined;
      forall k | k in running ensures Parked(k, running[k]) {
        assert old(Parked(k, running[k]));
      }
      forall i | 0 <= i < SLOTS && Bit(live, i) ensures Taken(i) {
        assert old(Taken(i));
        assert call[i].key != c.key;
        assert running[call[i].key] == call[i];
      }
    }
  }
}
