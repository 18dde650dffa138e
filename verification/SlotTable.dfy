/**
 The open-addressing slot table of one shard, as a value: the slots, the per-group overflow counters and
 what a probe may conclude from them. `FlatHashMap` and `Shard` run on arrays and are proved against the
 definitions here.
 */
module SlotTable {

  /** The fields of an item's meta word and entry that the shard reads. `Tomb` is dead but still referenced by
      a queue node; `Free` is dead and released, its entry zeroed. */
  datatype Slot<K, V> =
    | Empty
    | Live(key: K, value: V, tag: nat, expireOff: nat)
    | Tomb(key: K, tag: nat)
    | Free
  {
    predicate Keyed() { Live? || Tomb? }
    predicate Dead() { Tomb? || Free? }
  }

  datatype Entry<V> = Entry(value: V, expireOff: nat)

  const GROUP: nat := 8
  const MIN_SLOTS: nat := 64

  /** Table sizes: the initial size doubled any number of times. */
  predicate Sized(n: nat) {
    n == MIN_SLOTS || (n > MIN_SLOTS && n % 2 == 0 && Sized(n / 2))
  }

  lemma {:induction false} SizedIsWholeGroups(n: nat)
    requires Sized(n)
    ensures n % MIN_SLOTS == 0
  {
    if n > MIN_SLOTS {
      SizedIsWholeGroups(n / 2);
      var q := n / 2 / MIN_SLOTS;
      assert n == MIN_SLOTS * (2 * q);
    }
  }

  lemma SizedDoubles(n: nat)
    requires Sized(n)
    ensures Sized(2 * n)
  {
    assert (2 * n) / 2 == n;
  }

  /** The probe start: the high 32 bits of the 64-bit key hash under the table mask. */
  function Home(hash: nat, n: nat): (home: nat)
    requires n > 0
    ensures home < n
  {
    (hash / 0x1_0000_0000) % n
  }

  /** Hash bits 14..27. */
  function TagOf(hash: nat): (tag: nat) {
    (hash / 0x4000) % 0x4000
  }

  /** Position and tag come from different bits of the hash: every pair of them occurs. */
  lemma HomeAndTagApart(home: nat, tag: nat, n: nat) returns (hash: nat)
    requires home < n <= 0x1_0000_0000 && tag < 0x4000
    ensures hash < 0x1_0000_0000_0000_0000 && Home(hash, n) == home && TagOf(hash) == tag
  {
    hash := home * 0x1_0000_0000 + tag * 0x4000;
    HighBits(home, tag * 0x4000);
    TagBits(home, tag);
    SmallMod(home, n);
  }

  lemma HighBits(home: nat, low: nat)
    requires low < 0x1_0000_0000
    ensures (home * 0x1_0000_0000 + low) / 0x1_0000_0000 == home
  {
  }

  lemma TagBits(home: nat, tag: nat)
    requires tag < 0x4000
    ensures TagOf(home * 0x1_0000_0000 + tag * 0x4000) == tag
  {
    LowBits(home * 0x4_0000 + tag, 0);
    LowBits(home * 16, tag);
  }

  lemma LowBits(a: nat, c: nat)
    requires c < 0x4000
    ensures (a * 0x4000 + c) / 0x4000 == a && (a * 0x4000 + c) % 0x4000 == c
  {
  }

  lemma SmallMod(x: nat, n: nat)
    requires x < n
    ensures x % n == x
  {
  }

  /** A probe position, wrapped by the mask. */
  function Wrap(pos: nat, n: nat): (i: nat)
    requires n > 0
    ensures i < n
    ensures pos < n ==> i == pos
    ensures n <= pos < 2 * n ==> i == pos - n
  {
    pos % n
  }

  function Group(i: nat): (g: nat) { i / GROUP }

  /** How many probe steps lead from `home` to slot `i`. */
  function Steps(home: nat, i: nat, n: nat): (d: nat)
    requires home < n && i < n
    ensures d < n && Wrap(home + d, n) == i
  {
    if home <= i then i - home else i + n - home
  }

  predicate Occupied<K, V>(s: seq<Slot<K, V>>, pos: nat)
    requires |s| > 0
  {
    !s[Wrap(pos, |s|)].Empty?
  }

  /** Every slot a probe passes on its way from `home` to slot `i` has been occupied. */
  ghost predicate Reaches<K, V>(s: seq<Slot<K, V>>, home: nat, i: nat)
    requires home < |s| && i < |s|
  {
    forall pos | home <= pos < home + Steps(home, i, |s|) :: Occupied(s, pos)
  }

  ghost function LiveSet<K, V>(s: seq<Slot<K, V>>): set<nat> { set i: nat | i < |s| && s[i].Live? }
  ghost function TombSet<K, V>(s: seq<Slot<K, V>>): set<nat> { set i: nat | i < |s| && s[i].Tomb? }
  ghost function DeadSet<K, V>(s: seq<Slot<K, V>>): set<nat> { set i: nat | i < |s| && s[i].Dead() }
  ghost function KeyedSet<K, V>(s: seq<Slot<K, V>>): set<nat> { set i: nat | i < |s| && s[i].Keyed() }
  ghost function UsedSet<K, V>(s: seq<Slot<K, V>>): set<nat> { set i: nat | i < |s| && !s[i].Empty? }

  /** The live items homed in group `g` but placed outside it. */
  ghost function Displaced<K, V>(s: seq<Slot<K, V>>, hash: K -> nat, g: nat): set<nat>
  {
    set i: nat | i < |s| && s[i].Live? && Group(Home(hash(s[i].key), |s|)) == g && Group(i) != g
  }

  ghost predicate Unique<K, V>(s: seq<Slot<K, V>>) {
    forall i, j | 0 <= i < |s| && 0 <= j < |s| && s[i].Keyed() && s[j].Keyed() && s[i].key == s[j].key :: i == j
  }

  ghost predicate Placed<K, V>(s: seq<Slot<K, V>>, hash: K -> nat, i: nat)
    requires i < |s| && s[i].Keyed()
  {
    && s[i].tag == TagOf(hash(s[i].key))
    && Reaches(s, Home(hash(s[i].key), |s|), i)
  }

  ghost predicate Counted<K, V>(s: seq<Slot<K, V>>, over: seq<nat>, hash: K -> nat) {
    && |over| * GROUP == |s|
    && forall g | 0 <= g < |over| :: over[g] == |Displaced(s, hash, g)|
  }

  /** What holds of a table whenever the shard mutex is free, and between any two of its updates. */
  ghost predicate TableInv<K, V>(s: seq<Slot<K, V>>, over: seq<nat>, hash: K -> nat) {
    && Sized(|s|)
    && Unique(s)
    && (forall i | 0 <= i < |s| && s[i].Keyed() :: Placed(s, hash, i))
    && Counted(s, over, hash)
    && 4 * |UsedSet(s)| <= 3 * |s|
  }

  /** The plain map the table stands for. */
  ghost function Contents<K, V>(s: seq<Slot<K, V>>): map<K, Entry<V>>
    requires Unique(s)
  {
    map i | 0 <= i < |s| && s[i].Live? :: s[i].key := Entry(s[i].value, s[i].expireOff)
  }

  /** A table nobody has written to. */
  lemma FreshTable<K, V>(s: seq<Slot<K, V>>, over: seq<nat>, hash: K -> nat)
    requires Sized(|s|) && (forall i | 0 <= i < |s| :: s[i] == Empty)
    requires |over| * GROUP == |s| && (forall g | 0 <= g < |over| :: over[g] == 0)
    ensures TableInv(s, over, hash) && Contents(s) == map[] && UsedSet(s) == {}
  {
    assert UsedSet(s) == {};
    forall g | 0 <= g < |over| ensures over[g] == |Displaced(s, hash, g)| {
      assert Displaced(s, hash, g) == {};
    }
  }

  // ---- What a probe may conclude ----

  ghost function Walk(home: nat, d: nat, n: nat): set<nat>
    requires n > 0
  {
    set pos: nat | home <= pos < home + d :: Wrap(pos, n)
  }

  lemma {:induction false} WalkIsInjective(home: nat, d: nat, n: nat)
    requires home < n && d <= n
    ensures |Walk(home, d, n)| == d
  {
    if d == 0 {
      assert Walk(home, d, n) == {};
    } else {
      hide Wrap, Walk;
      WalkIsInjective(home, d - 1, n);
      WalkGrows(home, d, n);
    }
  }

  lemma WalkGrows(home: nat, d: nat, n: nat)
    requires home < n && 0 < d <= n
    ensures Walk(home, d, n) == Walk(home, d - 1, n) + {Wrap(home + d - 1, n)}
    ensures Wrap(home + d - 1, n) !in Walk(home, d - 1, n)
  {
    var last := Wrap(home + d - 1, n);
    forall pos | home <= pos < home + d - 1 ensures Wrap(pos, n) != last {
      assert pos < 2 * n;
    }
    forall i | i in Walk(home, d, n) ensures i in Walk(home, d - 1, n) + {last} {
      var pos :| home <= pos < home + d && Wrap(pos, n) == i;
      assert pos < home + d - 1 || pos == home + d - 1;
    }
  }

  /** A stretch of `d` occupied slots needs `d` occupied slots. */
  lemma StretchFits<K, V>(s: seq<Slot<K, V>>, home: nat, d: nat)
    requires home < |s| && d <= |s|
    requires forall pos | home <= pos < home + d :: Occupied(s, pos)
    ensures d <= |UsedSet(s)|
  {
    WalkIsInjective(home, d, |s|);
    assert Walk(home, d, |s|) <= UsedSet(s) by {
      forall i | i in Walk(home, d, |s|) ensures i in UsedSet(s) {
        var pos :| home <= pos < home + d && Wrap(pos, |s|) == i;
        assert Occupied(s, pos);
      }
    }
    SubsetSize(Walk(home, d, |s|), UsedSet(s));
  }

  lemma SubsetSize(a: set<nat>, b: set<nat>)
    requires a <= b
    ensures |a| <= |b|
  {
    assert b == a + (b - a);
  }

  /** A probe stretch never covers the table: at most 3/4 of the slots are used. */
  lemma StretchIsShort<K, V>(s: seq<Slot<K, V>>, home: nat, d: nat)
    requires |s| >= MIN_SLOTS && 4 * |UsedSet(s)| <= 3 * |s|
    requires home < |s| && d <= |s|
    requires forall pos | home <= pos < home + d :: Occupied(s, pos)
    ensures d + 2 * GROUP <= |s|
  {
    StretchFits(s, home, d);
  }

  /** No item wraps round into its own home group, so "outside the group" and "past its edge" are the same. */
  lemma NoWrapIntoOwnGroup<K, V>(s: seq<Slot<K, V>>, over: seq<nat>, hash: K -> nat, i: nat)
    requires TableInv(s, over, hash)
    requires i < |s| && s[i].Keyed()
    requires Group(i) == Group(Home(hash(s[i].key), |s|))
    ensures Home(hash(s[i].key), |s|) <= i
  {
    var home := Home(hash(s[i].key), |s|);
    assert Placed(s, hash, i);
    StretchIsShort(s, home, Steps(home, i, |s|));
  }

  /** A never-occupied slot ends the probe: the key's slot, if any, lies before it. */
  lemma EmptyEndsProbe<K, V>(s: seq<Slot<K, V>>, over: seq<nat>, hash: K -> nat, pos: nat, i: nat)
    requires TableInv(s, over, hash)
    requires i < |s| && s[i].Keyed()
    requires var home := Home(hash(s[i].key), |s|);
             home <= pos < home + |s| && !Occupied(s, pos)
    ensures exists q :: Home(hash(s[i].key), |s|) <= q < pos && Wrap(q, |s|) == i
  {
    assert Placed(s, hash, i);
    var home := Home(hash(s[i].key), |s|);
    var q := home + Steps(home, i, |s|);
    assert Wrap(q, |s|) == i && q < pos;
  }

  /** A zero overflow counter ends the probe at the group edge: no live slot of the key lies at or past it. */
  lemma ZeroCounterEndsProbe<K, V>(s: seq<Slot<K, V>>, over: seq<nat>, hash: K -> nat, i: nat)
    requires TableInv(s, over, hash)
    requires i < |s| && s[i].Live?
    requires Group(Home(hash(s[i].key), |s|)) < |over|
    requires over[Group(Home(hash(s[i].key), |s|))] == 0
    ensures var home := Home(hash(s[i].key), |s|);
            home <= i < GROUP * (Group(home) + 1) && Wrap(i, |s|) == i
  {
    var home := Home(hash(s[i].key), |s|);
    var g := Group(home);
    assert Group(i) != g ==> i in Displaced(s, hash, g);
    NoWrapIntoOwnGroup(s, over, hash, i);
  }

  // ---- The updates ----

  /** NoteDisplaced on the counters. */
  function Noted(over: seq<nat>, home: nat, pos: nat): seq<nat> {
    var g := Group(home);
    if g != Group(pos) && g < |over| then over[g := over[g] + 1] else over
  }

  /** ForgetDisplaced on the counters: the source's 32-bit add of all ones, on a counter that is never 0. */
  function Forgotten(over: seq<nat>, home: nat, pos: nat): seq<nat> {
    var g := Group(home);
    if g != Group(pos) && g < |over| && over[g] > 0 then over[g := over[g] - 1] else over
  }

  lemma ReachesGrows<K, V>(s: seq<Slot<K, V>>, s': seq<Slot<K, V>>, home: nat, i: nat)
    requires |s| == |s'| && home < |s| && i < |s|
    requires forall j | 0 <= j < |s| && !s[j].Empty? :: !s'[j].Empty?
    requires Reaches(s, home, i)
    ensures Reaches(s', home, i)
  {
    forall pos | home <= pos < home + Steps(home, i, |s|) ensures Occupied(s', pos) {
      assert Occupied(s, pos);
    }
  }

  /** One slot changes: every group's displaced set loses it or gains it, and nothing else. */
  lemma DisplacedAfter<K, V>(s: seq<Slot<K, V>>, hash: K -> nat, p: nat, x: Slot<K, V>, g: nat)
    requires p < |s|
    ensures Displaced(s[p := x], hash, g)
         == (Displaced(s, hash, g) - {p})
          + (if x.Live? && Group(Home(hash(x.key), |s|)) == g && Group(p) != g then {p} else {})
  {
  }

  lemma DisplacedSlot<K, V>(s: seq<Slot<K, V>>, hash: K -> nat, p: nat, g: nat)
    requires p < |s|
    ensures p in Displaced(s, hash, g) <==> s[p].Live? && Group(Home(hash(s[p].key), |s|)) == g && Group(p) != g
  {
  }

  /** Slot `p` aside, a change of slot `p` moves nothing in or out of the displaced set. */
  lemma DisplacedBy<K, V>(s: seq<Slot<K, V>>, hash: K -> nat, p: nat, x: Slot<K, V>, g: nat)
    requires p < |s|
    ensures Displaced(s[p := x], hash, g) - {p} == Displaced(s, hash, g) - {p}
    ensures p in Displaced(s[p := x], hash, g) <==> x.Live? && Group(Home(hash(x.key), |s|)) == g && Group(p) != g
  {
    hide Group, Home;
  }

  lemma SetChanged(a: set<nat>, p: nat, b: set<nat>)
    requires a - {p} == b - {p}
    ensures |b| == |a| - (if p in a then 1 else 0) + (if p in b then 1 else 0)
    ensures p in a ==> |a| > 0
  {
    assert p in a ==> a == (a - {p}) + {p};
    assert p in b ==> b == (b - {p}) + {p};
    assert p !in a ==> a == a - {p};
    assert p !in b ==> b == b - {p};
  }

  /** A new occupancy lands in an empty, free or same-key tombstone slot its probe reaches. */
  lemma PublishKeepsTable<K, V>(s: seq<Slot<K, V>>, over: seq<nat>, hash: K -> nat, p: nat, key: K, value: V, off: nat)
    requires TableInv(s, over, hash) && p < |s|
    requires !s[p].Live? && (s[p].Tomb? ==> s[p].key == key)
    requires forall i | 0 <= i < |s| && i != p && s[i].Keyed() :: s[i].key != key
    requires Reaches(s, Home(hash(key), |s|), p)
    requires s[p].Empty? ==> 4 * (|UsedSet(s)| + 1) <= 3 * |s|
    ensures Group(Home(hash(key), |s|)) < |over|
    ensures var s' := s[p := Live(key, value, TagOf(hash(key)), off)];
            && TableInv(s', Noted(over, Home(hash(key), |s|), p), hash)
            && Contents(s') == Contents(s)[key := Entry(value, off)]
  {
    var x := Live(key, value, TagOf(hash(key)), off);
    PlacedAfter(s, hash, p, x);
    NotedCounts(s, over, hash, p, x);
    UsedAfter(s, p, x);
    ContentsAfterLive(s, p, x);
  }

  lemma NotedCounts<K, V>(s: seq<Slot<K, V>>, over: seq<nat>, hash: K -> nat, p: nat, x: Slot<K, V>)
    requires Counted(s, over, hash) && p < |s| && !s[p].Live? && x.Live?
    ensures Counted(s[p := x], Noted(over, Home(hash(x.key), |s|), p), hash)
  {
    var s', home := s[p := x], Home(hash(x.key), |s|);
    var over' := Noted(over, home, p);
    hide Displaced, Group, Home;
    forall g | 0 <= g < |over'| ensures over'[g] == |Displaced(s', hash, g)| {
      DisplacedBy(s, hash, p, x, g);
      DisplacedSlot(s, hash, p, g);
      SetChanged(Displaced(s, hash, g), p, Displaced(s', hash, g));
    }
  }

  /** An overwrite changes only the value and the expiry of a live slot. */
  lemma OverwriteKeepsTable<K, V>(s: seq<Slot<K, V>>, over: seq<nat>, hash: K -> nat, p: nat, value: V, off: nat)
    requires TableInv(s, over, hash) && p < |s| && s[p].Live?
    ensures var s' := s[p := s[p].(value := value, expireOff := off)];
            && TableInv(s', over, hash)
            && Contents(s') == Contents(s)[s[p].key := Entry(value, off)]
  {
    var x := s[p].(value := value, expireOff := off);
    var s' := s[p := x];
    PlacedAfter(s, hash, p, x);
    forall g | 0 <= g < |over| ensures over[g] == |Displaced(s', hash, g)| {
      DisplacedAfter(s, hash, p, x, g);
      assert Displaced(s', hash, g) == Displaced(s, hash, g);
    }
    UsedAfter(s, p, x);
    ContentsAfterLive(s, p, x);
  }

  /** A live slot dies, to a tombstone or straight to a free slot: its counter entry was there to give back. */
  lemma KillKeepsTable<K, V>(s: seq<Slot<K, V>>, over: seq<nat>, hash: K -> nat, p: nat, x: Slot<K, V>)
    requires TableInv(s, over, hash) && p < |s| && s[p].Live?
    requires x == Tomb(s[p].key, s[p].tag) || x == Free
    ensures var home := Home(hash(s[p].key), |s|);
            && Group(home) < |over|
            && (Group(home) != Group(p) ==> over[Group(home)] > 0)
            && TableInv(s[p := x], Forgotten(over, home, p), hash)
            && Contents(s[p := x]) == Contents(s) - {s[p].key}
  {
    PlacedAfter(s, hash, p, x);
    ForgottenCounts(s, over, hash, p, x);
    UsedAfter(s, p, x);
    ContentsAfterDead(s, p, x);
  }

  lemma ForgottenCounts<K, V>(s: seq<Slot<K, V>>, over: seq<nat>, hash: K -> nat, p: nat, x: Slot<K, V>)
    requires Counted(s, over, hash) && p < |s| && s[p].Live? && !x.Live?
    ensures var home := Home(hash(s[p].key), |s|);
            && Group(home) < |over|
            && (Group(home) != Group(p) ==> over[Group(home)] > 0)
            && Counted(s[p := x], Forgotten(over, home, p), hash)
  {
    var s', home := s[p := x], Home(hash(s[p].key), |s|);
    assert Group(home) < |over|;
    hide Displaced, Group, Home;
    DisplacedSlot(s, hash, p, Group(home));
    SetChanged(Displaced(s, hash, Group(home)), p, Displaced(s, hash, Group(home)) - {p});
    var over' := Forgotten(over, home, p);
    forall g | 0 <= g < |over'| ensures over'[g] == |Displaced(s', hash, g)| {
      DisplacedBy(s, hash, p, x, g);
      DisplacedSlot(s, hash, p, g);
      SetChanged(Displaced(s, hash, g), p, Displaced(s', hash, g));
    }
  }

  /** A tombstone whose queue node is gone becomes free. */
  lemma FreeKeepsTable<K, V>(s: seq<Slot<K, V>>, over: seq<nat>, hash: K -> nat, p: nat)
    requires TableInv(s, over, hash) && p < |s| && s[p].Dead()
    ensures TableInv(s[p := Free], over, hash)
    ensures Contents(s[p := Free]) == Contents(s)
  {
    var s' := s[p := Free];
    PlacedAfter(s, hash, p, Free);
    forall g | 0 <= g < |over| ensures over[g] == |Displaced(s', hash, g)| {
      DisplacedAfter(s, hash, p, Free, g);
      assert Displaced(s', hash, g) == Displaced(s, hash, g);
    }
    UsedAfter(s, p, Free);
    ContentsAfterDead(s, p, Free);
  }

  lemma PlacedAfter<K, V>(s: seq<Slot<K, V>>, hash: K -> nat, p: nat, x: Slot<K, V>)
    requires p < |s| && !x.Empty?
    requires forall i | 0 <= i < |s| && s[i].Keyed() :: Placed(s, hash, i)
    requires x.Keyed() ==> x.tag == TagOf(hash(x.key)) && Reaches(s, Home(hash(x.key), |s|), p)
    ensures var s' := s[p := x]; forall i | 0 <= i < |s'| && s'[i].Keyed() :: Placed(s', hash, i)
  {
    var s' := s[p := x];
    forall i | 0 <= i < |s| && s'[i].Keyed() ensures Placed(s', hash, i) {
      assert i != p ==> Placed(s, hash, i);
      ReachesGrows(s, s', Home(hash(s'[i].key), |s|), i);
    }
  }

  lemma UsedAfter<K, V>(s: seq<Slot<K, V>>, p: nat, x: Slot<K, V>)
    requires p < |s| && !x.Empty?
    ensures |UsedSet(s[p := x])| == |UsedSet(s)| + (if s[p].Empty? then 1 else 0)
  {
    assert UsedSet(s[p := x]) == UsedSet(s) + {p};
  }

  lemma ContentsAt<K, V>(s: seq<Slot<K, V>>, i: nat)
    requires Unique(s) && i < |s| && s[i].Live?
    ensures s[i].key in Contents(s) && Contents(s)[s[i].key] == Entry(s[i].value, s[i].expireOff)
  {
  }

  lemma SlotFor<K, V>(s: seq<Slot<K, V>>, key: K) returns (i: nat)
    requires Unique(s) && key in Contents(s)
    ensures i < |s| && s[i].Live? && s[i].key == key
    ensures Contents(s)[key] == Entry(s[i].value, s[i].expireOff)
    ensures forall j | 0 <= j < |s| && s[j].Live? && s[j].key == key :: j == i
  {
    i :| i < |s| && s[i].Live? && s[i].key == key;
    ContentsAt(s, i);
  }

  /** Two tables with the same live slots, except one, agree on every other key. */
  lemma SameElsewhere<K, V>(s: seq<Slot<K, V>>, s': seq<Slot<K, V>>, p: nat, key: K)
    requires Unique(s) && Unique(s') && |s| == |s'| && p < |s|
    requires forall i | 0 <= i < |s| && i != p :: s'[i] == s[i]
    requires key in Contents(s) && !(s[p].Live? && s[p].key == key)
    ensures key in Contents(s') && Contents(s')[key] == Contents(s)[key]
  {
    var i := SlotFor(s, key);
    assert s'[i] == s[i];
    ContentsAt(s', i);
  }

  lemma UniqueAfter<K, V>(s: seq<Slot<K, V>>, p: nat, x: Slot<K, V>)
    requires p < |s| && Unique(s)
    requires x.Keyed() ==> forall i | 0 <= i < |s| && i != p && s[i].Keyed() :: s[i].key != x.key
    ensures Unique(s[p := x])
  {
  }

  lemma ContentsAfterLive<K, V>(s: seq<Slot<K, V>>, p: nat, x: Slot<K, V>)
    requires p < |s| && x.Live? && Unique(s)
    requires forall i | 0 <= i < |s| && i != p && s[i].Keyed() :: s[i].key != x.key
    requires s[p].Live? ==> s[p].key == x.key
    ensures Unique(s[p := x])
    ensures Contents(s[p := x]) == Contents(s)[x.key := Entry(x.value, x.expireOff)]
  {
    hide *;
    var s' := s[p := x];
    UniqueAfter(s, p, x);
    var m, m' := Contents(s), Contents(s');
    ContentsAt(s', p);
    forall k | k in m && k != x.key ensures k in m' && m'[k] == m[k] {
      SameElsewhere(s, s', p, k);
    }
    forall k | k in m' && k != x.key ensures k in m {
      SameElsewhere(s', s, p, k);
    }
    assert m' == m[x.key := Entry(x.value, x.expireOff)];
  }

  lemma ContentsAfterDead<K, V>(s: seq<Slot<K, V>>, p: nat, x: Slot<K, V>)
    requires p < |s| && Unique(s)
    requires x == Free || (s[p].Keyed() && x.Tomb? && x.key == s[p].key)
    requires x.Keyed() ==> forall i | 0 <= i < |s| && i != p && s[i].Keyed() :: s[i].key != x.key
    ensures Unique(s[p := x])
    ensures Contents(s[p := x]) == if s[p].Live? then Contents(s) - {s[p].key} else Contents(s)
  {
    hide *;
    var s' := s[p := x];
    UniqueAfter(s, p, x);
    var m, m' := Contents(s), Contents(s');
    var gone := if s[p].Live? then {s[p].key} else {};
    forall k | k in m && k !in gone ensures k in m' && m'[k] == m[k] {
      SameElsewhere(s, s', p, k);
    }
    forall k | k in m' ensures k in m && k !in gone {
      SameElsewhere(s', s, p, k);
      var i := SlotFor(s', k);
      var j := SlotFor(s, k);
      assert s[i] == s'[i];
    }
    assert m' == m - gone;
  }

  /** No item appeared or moved: what lives now lived in the same slot before, and a slot that still has a key has its
      own. */
  ghost predicate OnlyDrops<K, V>(before: seq<Slot<K, V>>, after: seq<Slot<K, V>>) {
    && |after| == |before|
    && forall i | 0 <= i < |after| && after[i].Keyed() ::
         before[i].Keyed() && before[i].key == after[i].key && (after[i].Live? ==> before[i].Live?)
  }

  lemma DropsNothing<K, V>(s: seq<Slot<K, V>>)
    ensures OnlyDrops(s, s)
  {
  }

  lemma DropsOne<K, V>(before: seq<Slot<K, V>>, after: seq<Slot<K, V>>, i: nat, slot: Slot<K, V>)
    requires OnlyDrops(before, after) && i < |after|
    requires slot.Keyed() ==> after[i].Keyed() && after[i].key == slot.key && (slot.Live? ==> after[i].Live?)
    ensures OnlyDrops(before, after[i := slot])
  {
  }

  lemma DropsFurther<K, V>(a: seq<Slot<K, V>>, b: seq<Slot<K, V>>, c: seq<Slot<K, V>>)
    requires OnlyDrops(a, b) && OnlyDrops(b, c)
    ensures OnlyDrops(a, c)
  {
  }
}
