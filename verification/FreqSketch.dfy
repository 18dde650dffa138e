/**
 The Count-Min sketch of W-TinyLFU: 4-bit saturating counters, 16 to a 64-bit word, halved as a whole after every sample
 window. A key charges four counters picked by double hashing off its 64-bit hash.
 */
module FreqSketches {

  const COUNTER_MAX: nat := 15
  const MAX_SAMPLE: nat := 0x4000_0000
  const LOW32: bv64 := 0xFFFF_FFFF

  /** One counter: a word of the table and a shift within it. */
  datatype Spot = Spot(word: nat, shift: bv64)

  predicate Aligned(shift: bv64) { shift <= 60 && shift & 3 == 0 }

  function Bits(w: bv64, shift: bv64): bv64
    requires Aligned(shift)
  {
    (w >> shift) & 15
  }

  /** The counter's value. */
  function Nibble(w: bv64, shift: bv64): (c: nat)
    requires Aligned(shift)
    ensures c <= COUNTER_MAX
  {
    Bits(w, shift) as nat
  }

  function Bumped(w: bv64, shift: bv64): bv64
    requires Aligned(shift)
  {
    w + (1 << shift)
  }

  lemma BumpHereBits(w: bv64, shift: bv64)
    requires Aligned(shift) && Bits(w, shift) < 15
    ensures Bits(Bumped(w, shift), shift) == Bits(w, shift) + 1
  {
  }

  lemma BumpElsewhereBits(w: bv64, shift: bv64, other: bv64)
    requires Aligned(shift) && Aligned(other) && shift != other && Bits(w, shift) < 15
    ensures Bits(Bumped(w, shift), other) == Bits(w, other)
  {
  }

  lemma Values(c: bv64)
    requires c <= 15
    ensures (c < 15 <==> c as nat < 15) && (c < 15 ==> (c + 1) as nat == c as nat + 1)
            && (c >> 1) as nat == (c as nat) / 2
  {
  }

  lemma BitsBound(w: bv64, shift: bv64)
    requires Aligned(shift)
    ensures Bits(w, shift) <= 15 && Nibble(w, shift) == Bits(w, shift) as nat
  {
  }

  lemma BumpHere(w: bv64, shift: bv64)
    requires Aligned(shift) && Nibble(w, shift) < COUNTER_MAX
    ensures Nibble(Bumped(w, shift), shift) == Nibble(w, shift) + 1
  {
    hide Bits, Nibble, Bumped, Aligned;
    BitsBound(w, shift);
    BitsBound(Bumped(w, shift), shift);
    Values(Bits(w, shift));
    BumpHereBits(w, shift);
  }

  /** No increment carries into a neighbour. */
  lemma BumpElsewhere(w: bv64, shift: bv64, other: bv64)
    requires Aligned(shift) && Aligned(other) && shift != other && Nibble(w, shift) < COUNTER_MAX
    ensures Nibble(Bumped(w, shift), other) == Nibble(w, other)
  {
    hide Bits, Nibble, Bumped, Aligned;
    BitsBound(w, shift);
    BitsBound(w, other);
    BitsBound(Bumped(w, shift), other);
    Values(Bits(w, shift));
    BumpElsewhereBits(w, shift, other);
  }

  function Halved(w: bv64): bv64 { (w >> 1) & 0x7777_7777_7777_7777 }

  /** Halving a word halves all its counters, each on its own. */
  lemma HalvesEach(w: bv64, shift: bv64)
    requires Aligned(shift)
    ensures Nibble(Halved(w), shift) == Nibble(w, shift) / 2
  {
    hide *;
    BitsBound(w, shift);
    BitsBound(Halved(w), shift);
    Values(Bits(w, shift));
    HalvesBits(w, shift);
  }

  lemma HalvesBits(w: bv64, shift: bv64)
    requires Aligned(shift)
    ensures Bits(Halved(w), shift) == Bits(w, shift) >> 1
  {
  }

  /** The i-th of the four probes: lo + i * hi in 32-bit arithmetic, with an odd step. */
  function Probe(hash: bv64, i: nat): (h: bv64)
    requires i < 4
  {
    var lo, hi := hash & LOW32, (hash >> 32) | 1;
    (if i == 0 then lo else if i == 1 then lo + hi else if i == 2 then lo + 2 * hi else lo + 3 * hi) & LOW32
  }

  function ShiftOf(h: bv64): (shift: bv64)
    ensures Aligned(shift)
  {
    (h & 15) * 4
  }

  function SpotOf(hash: bv64, i: nat, n: nat): (p: Spot)
    requires i < 4 && n > 0
    ensures p.word < n && Aligned(p.shift)
  {
    var h := Probe(hash, i);
    Spot(((h >> 4) as nat) % n, ShiftOf(h))
  }

  /** The odd step keeps the four positions within a word apart, so the four counters are different ones. */
  lemma SpotsDiffer(hash: bv64, i: nat, j: nat, n: nat)
    requires i < j < 4 && n > 0
    ensures SpotOf(hash, i, n).shift != SpotOf(hash, j, n).shift
  {
    ShiftsDiffer(hash & LOW32, (hash >> 32) | 1);
  }

  lemma ShiftsDiffer(lo: bv64, hi: bv64)
    requires hi & 1 == 1
    ensures var a, b, c, d := ShiftOf(lo & LOW32), ShiftOf((lo + hi) & LOW32), ShiftOf((lo + 2 * hi) & LOW32),
                              ShiftOf((lo + 3 * hi) & LOW32);
            a != b && a != c && a != d && b != c && b != d && c != d
  {
  }

  // ---- The table ----

  ghost predicate InTable(table: seq<bv64>, p: Spot) {
    p.word < |table| && Aligned(p.shift)
  }

  function At(table: seq<bv64>, p: Spot): (c: nat)
    requires p.word < |table| && Aligned(p.shift)
    ensures c <= COUNTER_MAX
  {
    Nibble(table[p.word], p.shift)
  }

  function Saturating(c: nat): nat { if c < COUNTER_MAX then c + 1 else c }

  /** One counter charged. */
  function Charge(table: seq<bv64>, p: Spot): (t: seq<bv64>)
    requires p.word < |table| && Aligned(p.shift)
    ensures |t| == |table|
  {
    if At(table, p) < COUNTER_MAX then table[p.word := Bumped(table[p.word], p.shift)] else table
  }

  lemma ChargeExactly(table: seq<bv64>, p: Spot, q: Spot)
    requires InTable(table, p) && InTable(table, q)
    ensures At(Charge(table, p), q) == if q == p then Saturating(At(table, q)) else At(table, q)
  {
    if At(table, p) < COUNTER_MAX && q.word == p.word {
      if q.shift == p.shift {
        BumpHere(table[p.word], p.shift);
      } else {
        BumpElsewhere(table[p.word], p.shift, q.shift);
      }
    }
  }

  /** The first `k` counters of a hash charged. */
  ghost function Charged(table: seq<bv64>, hash: bv64, k: nat): (t: seq<bv64>)
    requires k <= 4 && |table| > 0
    ensures |t| == |table|
  {
    if k == 0 then table else Charge(Charged(table, hash, k - 1), SpotOf(hash, k - 1, |table|))
  }

  ghost predicate Among(q: Spot, hash: bv64, k: nat, n: nat)
    requires k <= 4 && n > 0
  {
    exists i: nat :: i < k && q == SpotOf(hash, i, n)
  }

  /** Charging a hash raises its four counters by one, up to the ceiling, and no other. */
  lemma {:induction false} ChargedExactly(table: seq<bv64>, hash: bv64, k: nat, q: Spot)
    requires k <= 4 && |table| > 0 && InTable(table, q)
    ensures At(Charged(table, hash, k), q)
         == if Among(q, hash, k, |table|) then Saturating(At(table, q)) else At(table, q)
  {
    hide SpotOf, At, Charge, Saturating;
    if k > 0 {
      var p := SpotOf(hash, k - 1, |table|);
      ChargedExactly(table, hash, k - 1, q);
      ChargeExactly(Charged(table, hash, k - 1), p, q);
      AmongOneMore(q, hash, k, |table|);
    } else {
      assert !Among(q, hash, 0, |table|);
    }
  }

  lemma AmongOneMore(q: Spot, hash: bv64, k: nat, n: nat)
    requires 0 < k <= 4 && n > 0
    ensures Among(q, hash, k, n) <==> Among(q, hash, k - 1, n) || q == SpotOf(hash, k - 1, n)
    ensures q == SpotOf(hash, k - 1, n) ==> !Among(q, hash, k - 1, n)
  {
    hide SpotOf;
    forall i: nat | i < k - 1 ensures SpotOf(hash, i, n) != SpotOf(hash, k - 1, n) {
      SpotsDiffer(hash, i, k - 1, n);
    }
  }

  // ---- What the sketch must not under-estimate ----

  datatype Event = Seen(hash: bv64) | Aging

  /** The plain count of one hash: saturating at the ceiling, halved at each aging. */
  ghost function TrueCount(history: seq<Event>, hash: bv64): nat {
    if history == [] then 0
    else
      var before := TrueCount(history[..|history| - 1], hash);
      match history[|history| - 1]
      case Seen(h) => if h == hash then Saturating(before) else before
      case Aging => before / 2
  }

  ghost predicate NeverUnder(table: seq<bv64>, history: seq<Event>)
    requires |table| > 0
  {
    forall hash: bv64, i: nat | i < 4 :: TrueCount(history, hash) <= At(table, SpotOf(hash, i, |table|))
  }

  lemma TrueCountAfter(history: seq<Event>, e: Event, hash: bv64)
    ensures TrueCount(history + [e], hash)
         == match e
            case Seen(h) => if h == hash then Saturating(TrueCount(history, hash)) else TrueCount(history, hash)
            case Aging => TrueCount(history, hash) / 2
  {
    assert (history + [e])[..|history|] == history;
  }

  lemma SaturatingMonotone(a: nat, b: nat)
    requires a <= b <= COUNTER_MAX
    ensures Saturating(a) <= Saturating(b) && a <= Saturating(b) && a / 2 <= b / 2
  {
  }

  lemma IncrementCovers(table: seq<bv64>, history: seq<Event>, hash: bv64)
    requires |table| > 0 && NeverUnder(table, history)
    ensures NeverUnder(Charged(table, hash, 4), history + [Seen(hash)])
  {
    var t := Charged(table, hash, 4);
    forall g: bv64, i: nat | i < 4 ensures TrueCount(history + [Seen(hash)], g) <= At(t, SpotOf(g, i, |t|)) {
      var q := SpotOf(g, i, |table|);
      TrueCountAfter(history, Seen(hash), g);
      ChargedExactly(table, hash, 4, q);
      assert TrueCount(history, g) <= At(table, q);
      SaturatingMonotone(TrueCount(history, g), At(table, q));
      if g == hash {
        assert Among(q, hash, 4, |table|);
      }
    }
  }

  lemma AgingCovers(table: seq<bv64>, halved: seq<bv64>, history: seq<Event>)
    requires |table| > 0 && NeverUnder(table, history)
    requires |halved| == |table| && forall k | 0 <= k < |table| :: halved[k] == Halved(table[k])
    ensures NeverUnder(halved, history + [Aging])
  {
    forall g: bv64, i: nat | i < 4 ensures TrueCount(history + [Aging], g) <= At(halved, SpotOf(g, i, |halved|)) {
      var q := SpotOf(g, i, |table|);
      TrueCountAfter(history, Aging, g);
      HalvesEach(table[q.word], q.shift);
      assert TrueCount(history, g) <= At(table, q);
      SaturatingMonotone(TrueCount(history, g), At(table, q));
    }
  }

  /** Every word of the table aged. */
  ghost function HalvedAll(table: seq<bv64>): (t: seq<bv64>)
    ensures |t| == |table| && forall k | 0 <= k < |t| :: t[k] == Halved(table[k])
  {
    seq(|table|, k requires 0 <= k < |table| => Halved(table[k]))
  }

  /** The counters and how many charges landed since the last aging. */
  datatype Counts = Counts(table: seq<bv64>, additions: nat)

  /** The sketch once it has heard of a key: its counters charged, and everything aged if that filled the window. */
  ghost function Told(k: Counts, sampleSize: nat, hash: bv64): Counts {
    if k.table == [] then k
    else
      var charged := Charged(k.table, hash, 4);
      var count := k.additions + if Lands(k.table, hash, 4) then 1 else 0;
      if count > k.additions && count >= sampleSize then Counts(HalvedAll(charged), count / 2)
      else Counts(charged, count)
  }

  lemma ToldIs(k: Counts, sampleSize: nat, hash: bv64)
    ensures k.table == [] ==> Told(k, sampleSize, hash) == k
    ensures k.table != [] ==>
              var charged := Charged(k.table, hash, 4);
              var count := k.additions + if Lands(k.table, hash, 4) then 1 else 0;
              Told(k, sampleSize, hash)
                == if count > k.additions && count >= sampleSize then Counts(HalvedAll(charged), count / 2)
                   else Counts(charged, count)
  {
  }

  class FreqSketch {
    const table: array<bv64>
    const sampleSize: nat
    var additions: nat
    /** Everything the sketch was told, and every aging. */
    ghost var history: seq<Event>

    /** One word per key, rounded up to a power of two, and a sample window of ten times that; no keys disable it. */
    constructor (keys: nat)
      ensures Valid() && fresh(table) && history == [] && additions == 0
      ensures keys <= table.Length && (table.Length == 0 <==> keys == 0) && (keys > 0 ==> table.Length < 2 * keys)
      ensures sampleSize == if 10 * table.Length < MAX_SAMPLE then 10 * table.Length else MAX_SAMPLE
    {
      var words := if keys == 0 then 0 else 1;
      while words < keys
        invariant keys == 0 ==> words == 0
        invariant keys > 0 ==> 0 < words < 2 * keys
      {
        words := 2 * words;
      }
      table := new bv64[words](_ => 0);
      sampleSize := if 10 * words < MAX_SAMPLE then 10 * words else MAX_SAMPLE;
      additions, history := 0, [];
    }

    ghost predicate Valid()
      reads this`history, table
    {
      table.Length > 0 ==> NeverUnder(table[..], history)
    }

    /** Halves every counter. */
    method Reset()
      requires Valid()
      modifies this`additions, this`history, table
      ensures Valid() && history == old(history) + [Aging]
      ensures table[..] == HalvedAll(old(table[..])) && additions == old(additions) / 2
    {
      hide *;
      ghost var was := table[..];
      ValidIs(was, history);
      for k := 0 to table.Length
        invariant forall j | 0 <= j < k :: table[j] == Halved(was[j])
        invariant forall j | k <= j < table.Length :: table[j] == was[j]
        invariant history == old(history) && additions == old(additions)
      {
        table[k] := Halved(table[k]);
      }
      additions := additions / 2;
      if table.Length > 0 {
        AgingCovers(was, table[..], history);
      }
      history := history + [Aging];
      ValidIs(table[..], history);
    }

    lemma ValidIs(t: seq<bv64>, h: seq<Event>)
      requires t == table[..] && h == history
      ensures Valid() <==> table.Length > 0 ==> |t| > 0 && NeverUnder(t, h)
    {
    }

    method ChargeOne(p: Spot) returns (added: bool)
      requires p.word < table.Length && Aligned(p.shift)
      modifies table
      ensures table[..] == Charge(old(table[..]), p) && (added <==> At(old(table[..]), p) < COUNTER_MAX)
    {
      hide *;
      AtIs(table[..], p);
      ChargeIs(table[..], p);
      added := Nibble(table[p.word], p.shift) < COUNTER_MAX;
      if added {
        table[p.word] := Bumped(table[p.word], p.shift);
      }
    }

    method Counter(p: Spot) returns (c: nat)
      requires p.word < table.Length && Aligned(p.shift)
      ensures c == At(table[..], p) && c <= COUNTER_MAX
    {
      c := Nibble(table[p.word], p.shift);
    }

    /** Charges the key's four counters, and ages the sketch when the sample window is full. */
    method Increment(hash: bv64)
      requires Valid()
      modifies this`additions, this`history, table
      ensures Valid()
      ensures table.Length == 0 ==> history == old(history) && additions == old(additions)
      // The sketch ages exactly when the charge that fills the sample window lands.
      ensures table.Length > 0 ==>
                var count := old(additions) + if Lands(old(table[..]), hash, 4) then 1 else 0;
                if count > old(additions) && count >= sampleSize then
                  && history == old(history) + [Seen(hash), Aging] && additions == count / 2
                  && table[..] == HalvedAll(Charged(old(table[..]), hash, 4))
                else
                  && history == old(history) + [Seen(hash)] && additions == count
                  && table[..] == Charged(old(table[..]), hash, 4)
      ensures Counts(table[..], additions) == Told(Counts(old(table[..]), old(additions)), sampleSize, hash)
    {
      hide *;
      ToldIs(Counts(table[..], additions), sampleSize, hash);
      if table.Length == 0 {
        assert table[..] == [];
        return;
      }
      ghost var was, h := table[..], history;
      ValidIs(was, h);
      ChargedNone(was, hash);
      LandsNone(was, hash);
      var added := false;
      for i := 0 to 4
        invariant table[..] == Charged(was, hash, i) && history == h && |was| == table.Length
        invariant added <==> Lands(was, hash, i)
        invariant additions == old(additions)
      {
        ChargedStep(was, hash, i);
        LandsStep(was, hash, i);
        var here := ChargeOne(SpotOf(hash, i, table.Length));
        added := added || here;
      }
      IncrementCovers(was, h, hash);
      history := history + [Seen(hash)];
      ValidIs(table[..], history);
      if added {
        additions := additions + 1;
        if additions >= sampleSize {
          Reset();
          assert history == h + [Seen(hash), Aging];
        }
      }
    }

    /** The smallest of the key's four counters: never below its true count. */
    method Estimate(hash: bv64) returns (est: nat)
      requires Valid()
      ensures est == Least(table[..], hash)
      ensures table.Length > 0 ==> TrueCount(history, hash) <= est <= COUNTER_MAX
    {
      hide *;
      if table.Length == 0 {
        LeastOfNone(hash);
        assert table[..] == [];
        return 0;
      }
      ghost var t := table[..];
      ValidIs(t, history);
      est := COUNTER_MAX;
      ghost var at: nat := 0;
      for i := 0 to 4
        invariant est <= COUNTER_MAX && at < 4 && at <= i && (i > 0 ==> at < i)
        invariant forall j: nat | j < i :: est <= At(t, SpotOf(hash, j, |t|))
        invariant if i == 0 then est == COUNTER_MAX else est == At(t, SpotOf(hash, at, |t|))
      {
        var c := Counter(SpotOf(hash, i, table.Length));
        if c < est {
          est := c;
          at := i;
        }
      }
      Covered(t, history, hash, at);
      LeastIs(t, hash, est, at);
    }
  }

  /** The smallest of the key's four counters; a disabled sketch estimates zero. */
  ghost function Least(table: seq<bv64>, hash: bv64): nat {
    if table == [] then 0
    else Lower(Lower(At(table, SpotOf(hash, 0, |table|)), At(table, SpotOf(hash, 1, |table|))),
               Lower(At(table, SpotOf(hash, 2, |table|)), At(table, SpotOf(hash, 3, |table|))))
  }

  function Lower(a: nat, b: nat): nat {
    if a <= b then a else b
  }

  lemma LeastOfNone(hash: bv64)
    ensures Least([], hash) == 0
  {
  }

  lemma LeastIs(table: seq<bv64>, hash: bv64, est: nat, at: nat)
    requires |table| > 0 && at < 4 && est == At(table, SpotOf(hash, at, |table|))
    requires forall j: nat | j < 4 :: est <= At(table, SpotOf(hash, j, |table|))
    ensures est == Least(table, hash)
  {
    hide At, SpotOf;
    assert at == 0 || at == 1 || at == 2 || at == 3;
  }

  lemma Covered(table: seq<bv64>, history: seq<Event>, hash: bv64, i: nat)
    requires |table| > 0 && NeverUnder(table, history) && i < 4
    ensures TrueCount(history, hash) <= At(table, SpotOf(hash, i, |table|))
  {
  }

  /** One of the first `k` counters of the hash is below the ceiling. */
  ghost predicate Lands(table: seq<bv64>, hash: bv64, k: nat)
    requires k <= 4 && |table| > 0
  {
    exists i: nat :: i < k && At(table, SpotOf(hash, i, |table|)) < COUNTER_MAX
  }

  lemma LandsNone(table: seq<bv64>, hash: bv64)
    requires |table| > 0
    ensures !Lands(table, hash, 0)
  {
  }

  lemma LandsStep(table: seq<bv64>, hash: bv64, k: nat)
    requires k < 4 && |table| > 0
    ensures Lands(table, hash, k + 1)
      <==> Lands(table, hash, k) || At(Charged(table, hash, k), SpotOf(hash, k, |table|)) < COUNTER_MAX
  {
    hide SpotOf, At, Charged;
    var p := SpotOf(hash, k, |table|);
    ChargedExactly(table, hash, k, p);
    AmongOneMore(p, hash, k + 1, |table|);
  }

  lemma AtIs(table: seq<bv64>, p: Spot)
    requires p.word < |table| && Aligned(p.shift)
    ensures At(table, p) == Nibble(table[p.word], p.shift)
  {
  }

  lemma ChargedNone(table: seq<bv64>, hash: bv64)
    requires |table| > 0
    ensures Charged(table, hash, 0) == table
  {
  }

  lemma ChargedStep(table: seq<bv64>, hash: bv64, i: nat)
    requires i < 4 && |table| > 0
    ensures Charged(table, hash, i + 1) == Charge(Charged(table, hash, i), SpotOf(hash, i, |table|))
  {
  }

  lemma ChargeIs(table: seq<bv64>, p: Spot)
    requires p.word < |table| && Aligned(p.shift)
    ensures Charge(table, p)
         == if Nibble(table[p.word], p.shift) < COUNTER_MAX then table[p.word := Bumped(table[p.word], p.shift)]
            else table
  {
    hide Nibble, Bumped;
  }
}
