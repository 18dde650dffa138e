/**
 The wrapping 18-bit expiration scale. Offsets count clock units modulo 2^18; 0 is reserved for "no TTL"; a
 lifetime may reach at most half the scale, so that "behind now" stays unambiguous.
 */
module ExpiryScale {

  const WRAP: nat := 0x4_0000
  const EXPIRE_MAX: nat := 0x1_FFFF

  /** The offset stamped on an item that should outlive clock value `now` by `units` clock units. */
  function Stamp(now: nat, units: nat): (off: nat)
    ensures 0 < off < WRAP
  {
    var off := (now + units + 1) % WRAP;
    if off == 0 then 1 else off
  }

  /** Offset 0 is no deadline: such an item never expires. */
  predicate Expired(off: nat, now: nat)
    ensures off == 0 ==> !Expired(off, now)
  {
    off != 0 &&
    var diff := (off - now) % WRAP;
    diff == 0 || diff > EXPIRE_MAX
  }

  /** The stamp's sum lands on the reserved value and is moved one unit up. */
  predicate LandsOnZero(now: nat, units: nat) {
    (now + units + 1) % WRAP == 0
  }

  /** How many units after stamping the item first counts as past its deadline. */
  function Deadline(now: nat, units: nat): (d: nat)
    ensures units + 1 <= d <= units + 2
  {
    if LandsOnZero(now, units) then units + 2 else units + 1
  }

  /** The one stamp that is behind the clock the moment it is made: the longest lifetime, landing on 0. */
  predicate BornExpired(now: nat, units: nat) {
    units == EXPIRE_MAX - 1 && LandsOnZero(now, units)
  }

  /** Does an item stamped at `now` read as expired when the clock has advanced by `elapsed`? */
  predicate ReadsExpired(now: nat, units: nat, elapsed: nat) {
    Expired(Stamp(now, units), (now + elapsed) % WRAP)
  }

  /** The whole cycle of the scale: exactly when an item stamped at `now` reads as expired `elapsed` units on. */
  lemma ExpiredExactly(now: nat, units: nat, elapsed: nat)
    requires now < WRAP && units <= EXPIRE_MAX - 1 && elapsed < WRAP
    ensures ReadsExpired(now, units, elapsed)
      <==> || Deadline(now, units) <= elapsed <= Deadline(now, units) + EXPIRE_MAX + 1
           || (elapsed == 0 && BornExpired(now, units))
  {
    var d := Deadline(now, units);
    assert Stamp(now, units) == (now + d) % WRAP;
    Distance(now, d, elapsed);
  }

  lemma Distance(now: nat, d: nat, elapsed: nat)
    requires now < WRAP && d < WRAP && elapsed < WRAP
    ensures ((now + d) % WRAP - (now + elapsed) % WRAP) % WRAP
         == if elapsed <= d then d - elapsed else d + WRAP - elapsed
  {
  }

  /** An item lives at least its units whenever it is read - unless it was born expired - and it is gone two
      units later at the latest, for as long as half the scale. */
  lemma LivesItsUnits(now: nat, units: nat)
    requires now < WRAP && 1 <= units <= EXPIRE_MAX - 1
    ensures (forall e | 0 <= e <= units :: !ReadsExpired(now, units, e)) <==> !BornExpired(now, units)
    ensures forall e | units + 2 <= e <= units + 2 + EXPIRE_MAX :: ReadsExpired(now, units, e)
  {
    forall e | 0 <= e < WRAP
      ensures ReadsExpired(now, units, e)
        <==> || Deadline(now, units) <= e <= Deadline(now, units) + EXPIRE_MAX + 1
             || (e == 0 && BornExpired(now, units))
    {
      ExpiredExactly(now, units, e);
    }
    assert BornExpired(now, units) ==> ReadsExpired(now, units, 0);
  }

  /** A deadline left unreclaimed for more than half the scale reads as unexpired again. */
  lemma ForgottenDeadline(now: nat, units: nat, elapsed: nat)
    requires now < WRAP && 1 <= units <= EXPIRE_MAX - 2
    requires Deadline(now, units) + EXPIRE_MAX + 2 <= elapsed < WRAP
    ensures !ReadsExpired(now, units, elapsed)
  {
    ExpiredExactly(now, units, elapsed);
  }

  /** Concretely: stamped at the clock value 2^17 + 1 for the longest lifetime, the item is expired at once. */
  lemma BornExpiredHappens()
    ensures BornExpired(0x2_0001, EXPIRE_MAX - 1)
    ensures ReadsExpired(0x2_0001, EXPIRE_MAX - 1, 0)
  {
  }

  // ---- The configured TTL ----

  function CeilDiv(a: nat, b: nat): (q: nat)
    requires b > 0
  {
    (a + b - 1) / b
  }

  /** Seconds per clock unit: the smallest unit that fits the TTL into half the scale. */
  function UnitSeconds(ttl: nat): (unit: nat)
    ensures unit >= 1
  {
    var unit := CeilDiv(ttl, EXPIRE_MAX);
    if unit < 1 then 1 else unit
  }

  /** The configured lifetime in clock units, capped one short of half the scale. */
  function TtlUnits(ttl: nat): (units: nat) {
    var units := CeilDiv(ttl, UnitSeconds(ttl));
    if units <= EXPIRE_MAX - 1 then units else EXPIRE_MAX - 1
  }

  lemma CeilDivCovers(a: nat, b: nat)
    requires b > 0
    ensures CeilDiv(a, b) * b >= a
  {
    var q, r := (a + b - 1) / b, (a + b - 1) % b;
    assert a + b - 1 == q * b + r;
  }

  lemma Monotone(a: nat, b: nat, c: nat)
    requires a <= b
    ensures a * c <= b * c
  {
  }

  /** It is the smallest unit of whole seconds in which the TTL takes at most half the scale. */
  lemma UnitIsLeast(ttl: nat)
    ensures CeilDiv(ttl, UnitSeconds(ttl)) <= EXPIRE_MAX
    ensures forall m: nat | 0 < m < UnitSeconds(ttl) :: CeilDiv(ttl, m) > EXPIRE_MAX
  {
    CeilDivCovers(ttl, EXPIRE_MAX);
    var unit := UnitSeconds(ttl);
    CeilDivBound(ttl, unit, EXPIRE_MAX);
    forall m: nat | 0 < m < unit ensures CeilDiv(ttl, m) > EXPIRE_MAX {
      CeilDivBound(ttl, m, EXPIRE_MAX);
      CeilDivBound(ttl, EXPIRE_MAX, m);
    }
  }

  /** A quotient rounded up is at most `q` exactly if `q` of the divisor are enough. */
  lemma CeilDivBound(a: nat, b: nat, q: nat)
    requires b > 0
    ensures CeilDiv(a, b) <= q <==> a <= q * b
  {
    hide CeilDiv;
    CeilDivCovers(a, b);
    CeilDivTight(a, b);
    var c := CeilDiv(a, b);
    if c <= q {
      Monotone(c, q, b);
    } else {
      Monotone(q, c - 1, b);
      assert (c - 1) * b == c * b - b;
    }
  }

  lemma CeilDivTight(a: nat, b: nat)
    requires b > 0
    ensures CeilDiv(a, b) * b < a + b
  {
    var q, r := (a + b - 1) / b, (a + b - 1) % b;
    assert a + b - 1 == q * b + r;
  }

  /** The clock units cover the configured TTL exactly when the cap does not bite. */
  lemma ConfiguredTtlCovered(ttl: nat)
    requires ttl > 0
    ensures TtlUnits(ttl) >= 1
    ensures TtlUnits(ttl) * UnitSeconds(ttl) >= ttl <==> (EXPIRE_MAX - 1) * UnitSeconds(ttl) >= ttl
  {
    var unit := UnitSeconds(ttl);
    CeilDivCovers(ttl, unit);
    Monotone(TtlUnits(ttl), EXPIRE_MAX - 1, unit);
  }

  /** With one-second units the shortfall needs the full 131071 seconds. */
  lemma ShortfallHappens()
    ensures UnitSeconds(EXPIRE_MAX) == 1 && TtlUnits(EXPIRE_MAX) == EXPIRE_MAX - 1
  {
  }

  // ---- Lives in real time ----

  // The clock is refreshed once per tick, and a clock unit is `m` whole ticks. A write or a read that happens between
  // tick `n` and the next sees the clock of tick `n`.

  function Units(n: nat, m: nat): nat
    requires m > 0
  {
    n / m
  }

  function Ticks(q: nat, m: nat): nat { q * m }

  lemma TicksAdd(a: nat, b: nat, m: nat)
    ensures Ticks(a + b, m) == Ticks(a, m) + Ticks(b, m) && Ticks(1, m) == m
  {
  }

  lemma TicksGrow(a: nat, b: nat, m: nat)
    requires a <= b
    ensures Ticks(a, m) <= Ticks(b, m)
  {
  }

  lemma Split(n: nat, m: nat)
    requires m > 0
    ensures Ticks(Units(n, m), m) <= n < Ticks(Units(n, m), m) + m
  {
    assert n == n / m * m + n % m;
  }

  /** A tick is before a unit begins exactly if it falls in an earlier one. */
  lemma Before(k: nat, q: nat, m: nat)
    requires m > 0
    ensures k < Ticks(q, m) <==> Units(k, m) < q
  {
    hide Units, Ticks;
    Split(k, m);
    TicksAdd(Units(k, m), 1, m);
    if Units(k, m) < q {
      TicksGrow(Units(k, m) + 1, q, m);
    } else {
      TicksGrow(q, Units(k, m), m);
    }
  }

  lemma UnitsGrow(a: nat, b: nat, m: nat)
    requires m > 0 && a <= b
    ensures Units(a, m) <= Units(b, m)
  {
    hide Units, Ticks;
    Before(a, Units(a, m), m);
    Before(b, Units(a, m), m);
  }

  function Clock(n: nat, m: nat): (c: nat)
    requires m > 0
    ensures c < WRAP
  {
    Units(n, m) % WRAP
  }

  /** Stamped between ticks `n` and `n + 1`, the item is alive to every read up to tick `n + life` and the next. */
  ghost predicate LivesFor(n: nat, m: nat, units: nat, life: nat)
    requires m > 0
  {
    forall k | n <= k <= n + life :: !Expired(Stamp(Clock(n, m), units), Clock(k, m))
  }

  /** The tick at which an item stamped at tick `n` is first past its deadline. */
  function GoneAt(n: nat, m: nat, units: nat): nat
    requires m > 0
  {
    Ticks(Units(n, m) + Deadline(Clock(n, m), units), m)
  }

  /** What a read at tick `k` sees, for as long as the whole scale. */
  lemma SeenAt(n: nat, m: nat, units: nat, k: nat)
    requires m > 0 && units <= EXPIRE_MAX - 1 && Units(n, m) <= Units(k, m) < Units(n, m) + WRAP
    ensures var d, e := Deadline(Clock(n, m), units), Units(k, m) - Units(n, m);
            Expired(Stamp(Clock(n, m), units), Clock(k, m)) <==>
              d <= e <= d + EXPIRE_MAX + 1 || (e == 0 && BornExpired(Clock(n, m), units))
  {
    hide Units, Deadline, BornExpired, Stamp, Expired;
    var e := Units(k, m) - Units(n, m);
    assert (Clock(n, m) + e) % WRAP == Clock(k, m);
    ExpiredExactly(Clock(n, m), units, e);
  }

  /** An item lives for a given time exactly if it was not born expired and is not gone by then. */
  lemma LivesExactly(n: nat, m: nat, units: nat, life: nat)
    requires m > 0 && units <= EXPIRE_MAX - 1
    ensures LivesFor(n, m, units, life) <==> !BornExpired(Clock(n, m), units) && n + life < GoneAt(n, m, units)
  {
    hide Units, Ticks, Clock, Deadline, BornExpired, Stamp, Expired;
    var q, d, gone := Units(n, m), Deadline(Clock(n, m), units), GoneAt(n, m, units);
    Before(n, q + d, m);
    if n + life < gone {
      forall k | n <= k <= n + life
        ensures Expired(Stamp(Clock(n, m), units), Clock(k, m)) <==> Units(k, m) == q && BornExpired(Clock(n, m), units)
      {
        Before(k, q + d, m);
        UnitsGrow(n, k, m);
        SeenAt(n, m, units, k);
      }
    } else {
      Before(gone, q + d, m);
      TicksAdd(q + d, 1, m);
      Before(gone, q + d + 1, m);
      SeenAt(n, m, units, gone);
    }
  }

  /** From then on it is gone, for half the scale. */
  lemma GoneSince(n: nat, m: nat, units: nat, k: nat)
    requires m > 0 && units <= EXPIRE_MAX - 1
    requires GoneAt(n, m, units) <= k < GoneAt(n, m, units) + Ticks(EXPIRE_MAX + 1, m)
    ensures Expired(Stamp(Clock(n, m), units), Clock(k, m))
  {
    hide Units, Ticks, Clock, Deadline, BornExpired, Stamp, Expired;
    var q, d := Units(n, m), Deadline(Clock(n, m), units);
    Before(k, q + d, m);
    TicksAdd(q + d, EXPIRE_MAX + 1, m);
    Before(k, q + d + EXPIRE_MAX + 1, m);
    SeenAt(n, m, units, k);
  }

  lemma LivesUncapped(n: nat, m: nat, units: nat, life: nat)
    requires m > 0 && units <= EXPIRE_MAX - 1 && life <= Ticks(units, m)
    ensures n + life < GoneAt(n, m, units)
    ensures LivesFor(n, m, units, life) <==> !BornExpired(Clock(n, m), units)
  {
    hide Units, Ticks, Clock, Deadline, BornExpired, LivesFor;
    LivesExactly(n, m, units, life);
    var q, d := Units(n, m), Deadline(Clock(n, m), units);
    Split(n, m);
    TicksAdd(q, 1, m);
    TicksAdd(q + 1, units, m);
    TicksGrow(q + 1 + units, q + d, m);
  }

  /** An item of the configured TTL lives at least that long, whenever it is stored, exactly if the TTL takes fewer
      units than the cap; a TTL that reaches the cap has moments at which an item is stored already expired. A tick is
      a second. */
  lemma AlwaysLivesItsTtl(ttl: nat)
    requires ttl > 0
    ensures (forall n: nat :: LivesFor(n, UnitSeconds(ttl), TtlUnits(ttl), ttl)) <==> TtlUnits(ttl) < EXPIRE_MAX - 1
  {
    hide LivesFor, UnitSeconds, CeilDiv, Units, Ticks;
    var m, u := UnitSeconds(ttl), TtlUnits(ttl);
    if u < EXPIRE_MAX - 1 {
      TicksCover(ttl, m);
      forall n: nat ensures LivesFor(n, m, u, ttl) {
        LivesUncapped(n, m, u, ttl);
      }
    } else {
      var n := Ticks(0x2_0001, m);
      Before(n, 0x2_0001, m);
      TicksAdd(0x2_0001, 1, m);
      Before(n, 0x2_0002, m);
      assert Units(n, m) == 0x2_0001;
      BornExpiredHappens();
      LivesExactly(n, m, u, ttl);
    }
  }

  /** An item of the configured TTL is gone less than three units after it. At most one, as promised, exactly if the
      units it got, one more where the stamp is moved off the reserved value, are no longer than the TTL and the part of
      the clock unit already gone when it was stored. */
  lemma GoneSoonAfterTtl(ttl: nat, n: nat)
    requires ttl > 0
    ensures var m, u := UnitSeconds(ttl), TtlUnits(ttl);
            && GoneAt(n, m, u) < n + ttl + 3 * m
            && (GoneAt(n, m, u) <= n + ttl + m <==>
                  Ticks(if LandsOnZero(Clock(n, m), u) then u + 1 else u, m) <= ttl + (n - Ticks(Units(n, m), m)))
  {
    hide Units, Ticks, UnitSeconds, CeilDiv, Clock, LandsOnZero;
    var m, u := UnitSeconds(ttl), TtlUnits(ttl);
    var q, d := Units(n, m), Deadline(Clock(n, m), u);
    TicksCover(ttl, m);
    TicksGrow(u, CeilDiv(ttl, m), m);
    Split(n, m);
    TicksAdd(q, d, m);
    TicksAdd(d - 1, 1, m);
    TicksAdd(u, 1, m);
  }

  /** A TTL of 131073 seconds on units of two: an item stored at tick 0 lives three seconds longer. */
  lemma MoreThanOneUnitHappens()
    ensures var ttl := 131073; UnitSeconds(ttl) == 2 && GoneAt(0, 2, TtlUnits(ttl)) == ttl + 3
  {
  }

  lemma TicksCover(a: nat, b: nat)
    requires b > 0
    ensures a <= Ticks(CeilDiv(a, b), b) < a + b
  {
    CeilDivCovers(a, b);
    assert (a + b - 1) == (a + b - 1) / b * b + (a + b - 1) % b;
  }

  // ---- Restored deadlines ----

  const U32: nat := 0x1_0000_0000

  /** The units a restored item gets for `remaining` time: rounded up, cut to 32 bits, capped at the loading cache's. */
  function RestoredUnits(remaining: nat, unit: nat, ttlUnits: nat): (u: nat)
    requires unit > 0
    ensures u <= ttlUnits
  {
    var units := CeilDiv(remaining, unit) % U32;
    if units <= ttlUnits then units else ttlUnits
  }

  /** The deadline a load gives a restored item; none if the loading cache has no TTL. */
  function OffsetIn(now: nat, remaining: nat, unit: nat, ttlUnits: nat): nat
    requires unit > 0
  {
    if ttlUnits == 0 || remaining == 0 then 0 else Stamp(now, RestoredUnits(remaining, unit, ttlUnits))
  }

  /** The tick of the moment `x` after a load that happens `f` into tick `n`; ticks last `tick`. */
  function TickAt(n: nat, f: nat, x: nat, tick: nat): nat
    requires tick > 0
  {
    n + Units(f + x, tick)
  }

  /** A restored item with `remaining` left is alive to every read before its moment. */
  ghost predicate NotEarly(n: nat, f: nat, m: nat, tick: nat, remaining: nat, off: nat)
    requires m > 0 && tick > 0
  {
    forall x: nat | x < remaining :: !Expired(off, Clock(TickAt(n, f, x, tick), m))
  }

  lemma NotEarlyIsLiving(n: nat, f: nat, m: nat, tick: nat, remaining: nat, u: nat)
    requires m > 0 && tick > 0 && f < tick && remaining > 0
    ensures NotEarly(n, f, m, tick, remaining, Stamp(Clock(n, m), u)) <==>
              LivesFor(n, m, u, Units(f + remaining - 1, tick))
  {
    hide Units, Ticks, Clock, Stamp, Expired;
    var last, off := Units(f + remaining - 1, tick), Stamp(Clock(n, m), u);
    if LivesFor(n, m, u, last) {
      forall x: nat | x < remaining ensures !Expired(off, Clock(TickAt(n, f, x, tick), m)) {
        UnitsGrow(f + x, f + remaining - 1, tick);
      }
    }
    if NotEarly(n, f, m, tick, remaining, off) {
      forall k | n <= k <= n + last ensures !Expired(off, Clock(k, m)) {
        var x := Reached(f, tick, k - n, remaining);
        assert TickAt(n, f, x, tick) == k;
      }
    }
  }

  /** Exactly when a restored item does not expire before the moment it would have: it was not born expired, and its
      units reach past that moment. */
  lemma NotEarlyExactly(n: nat, f: nat, m: nat, tick: nat, remaining: nat, ttlUnits: nat)
    requires m > 0 && tick > 0 && f < tick && remaining > 0 && 0 < ttlUnits <= EXPIRE_MAX - 1
    ensures Ticks(m, tick) > 0
    ensures var u := RestoredUnits(remaining, Ticks(m, tick), ttlUnits);
            NotEarly(n, f, m, tick, remaining, OffsetIn(Clock(n, m), remaining, Ticks(m, tick), ttlUnits)) <==>
              !BornExpired(Clock(n, m), u) && n + Units(f + remaining - 1, tick) < GoneAt(n, m, u)
  {
    hide Units, Ticks, Clock, Stamp, Expired, BornExpired, GoneAt, RestoredUnits, NotEarly, LivesFor;
    assert Ticks(m, tick) > 0 by { TicksPositive(m, tick); }
    var u := RestoredUnits(remaining, Ticks(m, tick), ttlUnits);
    NotEarlyIsLiving(n, f, m, tick, remaining, u);
    LivesExactly(n, m, u, Units(f + remaining - 1, tick));
  }

  lemma TicksPositive(q: nat, m: nat)
    requires q > 0 && m > 0
    ensures Ticks(q, m) > 0
  {
  }

  /** Every tick up to the last one is passed at some moment. */
  lemma Reached(f: nat, tick: nat, k: nat, remaining: nat) returns (x: nat)
    requires tick > 0 && f < tick && remaining > 0 && k <= Units(f + remaining - 1, tick)
    ensures x < remaining && Units(f + x, tick) == k
  {
    hide Units, Ticks;
    TicksAdd(0, 1, tick);
    TicksAdd(k, 1, tick);
    if k == 0 {
      Before(f, 1, tick);
      x := 0;
    } else {
      TicksGrow(1, k, tick);
      Before(f + remaining - 1, k, tick);
      x := Ticks(k, tick) - f;
      Before(f + x, k, tick);
      Before(f + x, k + 1, tick);
    }
  }

  /** When the loading cache's cap does not bite, a restored item is early only if it was born expired, and it is less
      than three units late. */
  lemma RestoredUncapped(n: nat, f: nat, m: nat, tick: nat, remaining: nat, ttlUnits: nat)
    requires m > 0 && tick > 0 && f < tick && remaining > 0 && 0 < ttlUnits <= EXPIRE_MAX - 1 && Ticks(m, tick) > 0
    requires remaining <= Ticks(ttlUnits, Ticks(m, tick))
    ensures var u := RestoredUnits(remaining, Ticks(m, tick), ttlUnits);
            && (NotEarly(n, f, m, tick, remaining, OffsetIn(Clock(n, m), remaining, Ticks(m, tick), ttlUnits)) <==>
                  !BornExpired(Clock(n, m), u))
            && Ticks(GoneAt(n, m, u), tick) < Ticks(n, tick) + f + remaining + 3 * Ticks(m, tick)
  {
    hide *;
    var unit := Ticks(m, tick);
    var u := RestoredUnits(remaining, unit, ttlUnits);
    NotEarlyExactly(n, f, m, tick, remaining, ttlUnits);
    NotCapped(remaining, unit, ttlUnits);
    TicksCover(remaining, unit);
    TicksTwice(u, m, tick);
    assert f + remaining - 1 < Ticks(Ticks(u, m) + 1, tick) by { TicksAdd(Ticks(u, m), 1, tick); }
    Before(f + remaining - 1, Ticks(u, m) + 1, tick);
    LivesUncapped(n, m, u, Units(f + remaining - 1, tick));
    LateBy(n, m, tick, u);
  }

  /** A remainder within the loading cache's TTL is neither capped nor cut: it gets its units, rounded up. */
  lemma NotCapped(remaining: nat, unit: nat, ttlUnits: nat)
    requires unit > 0 && ttlUnits <= EXPIRE_MAX - 1 && remaining <= Ticks(ttlUnits, unit)
    ensures RestoredUnits(remaining, unit, ttlUnits) == CeilDiv(remaining, unit)
  {
    hide CeilDiv;
    CeilDivBound(remaining, unit, ttlUnits);
  }

  /** A restored item is kept for good exactly if the loading cache has no TTL or no time is given; any other has passed
      its deadline at the clock value that is its offset. */
  lemma RestoredForGood(now: nat, remaining: nat, unit: nat, ttlUnits: nat)
    requires unit > 0
    ensures var off := OffsetIn(now, remaining, unit, ttlUnits);
            && (ttlUnits == 0 || remaining == 0 ==> forall clock: nat :: !Expired(off, clock))
            && (ttlUnits > 0 && remaining > 0 ==> Expired(off, off))
  {
  }

  lemma TicksTwice(u: nat, m: nat, tick: nat)
    ensures Ticks(Ticks(u, m), tick) == Ticks(u, Ticks(m, tick))
  {
    assert (u * m) * tick == u * (m * tick);
  }

  lemma LateBy(n: nat, m: nat, tick: nat, units: nat)
    requires m > 0
    ensures Ticks(GoneAt(n, m, units), tick) <= Ticks(n, tick) + Ticks(units, Ticks(m, tick)) + 2 * Ticks(m, tick)
  {
    hide Units, Ticks, Clock;
    var q, d := Units(n, m), Deadline(Clock(n, m), units);
    Split(n, m);
    TicksAdd(q, d, m);
    TicksGrow(d, units + 2, m);
    TicksAdd(units, 2, m);
    TicksAdd(1, 1, m);
    var late := Ticks(units, m) + 2 * m;
    TicksGrow(GoneAt(n, m, units), n + late, tick);
    TicksAdd(n, late, tick);
    TicksAdd(Ticks(units, m), 2 * m, tick);
    TicksAdd(m, m, tick);
    TicksTwice(units, m, tick);
  }

  /** The cap does make items early: of 1000 seconds left, a cache with a TTL of ten one-second units leaves at most
      12. */
  lemma CappedIsEarly(n: nat)
    ensures var second := 1_000_000_000;
            var off := OffsetIn(Clock(n, 1), 1000 * second, Ticks(1, second), 10);
            && !NotEarly(n, 0, 1, second, 1000 * second, off)
            && GoneAt(n, 1, RestoredUnits(1000 * second, Ticks(1, second), 10)) <= n + 12
  {
    NotEarlyExactly(n, 0, 1, 1_000_000_000, 1000 * 1_000_000_000, 10);
  }
}
