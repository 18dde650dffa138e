/** What a shard accounts for: weights, counts and stored items, as functions of its slots. */
module ShardLedger {
  import opened SlotTable

  ghost function CostAt<K, V>(slot: Slot<K, V>, cost: (K, V) -> nat): nat {
    if slot.Live? then cost(slot.key, slot.value) else 0
  }

  /** The weight of the live items. */
  ghost function Weight<K, V>(s: seq<Slot<K, V>>, cost: (K, V) -> nat): nat {
    if s == [] then 0 else Weight(s[..|s| - 1], cost) + CostAt(s[|s| - 1], cost)
  }

  ghost function ItemAt<K, V>(slot: Slot<K, V>): multiset<(K, V)> {
    if slot.Live? then multiset{(slot.key, slot.value)} else multiset{}
  }

  /** The live items. */
  ghost function Items<K, V>(s: seq<Slot<K, V>>): multiset<(K, V)> {
    if s == [] then multiset{} else Items(s[..|s| - 1]) + ItemAt(s[|s| - 1])
  }

  lemma {:induction false} WeightAfter<K, V>(s: seq<Slot<K, V>>, cost: (K, V) -> nat, p: nat, x: Slot<K, V>)
    requires p < |s|
    ensures Weight(s[p := x], cost) + CostAt(s[p], cost) == Weight(s, cost) + CostAt(x, cost)
  {
    var s', last := s[p := x], |s| - 1;
    if p == last {
      assert s'[..last] == s[..last];
    } else {
      WeightAfter(s[..last], cost, p, x);
      assert s'[..last] == s[..last][p := x];
    }
  }

  lemma {:induction false} ItemsAfter<K, V>(s: seq<Slot<K, V>>, p: nat, x: Slot<K, V>)
    requires p < |s|
    ensures Items(s[p := x]) + ItemAt(s[p]) == Items(s) + ItemAt(x)
  {
    var s', last := s[p := x], |s| - 1;
    if p == last {
      assert s'[..last] == s[..last];
      Swap(Items(s[..last]), ItemAt(x), ItemAt(s[p]));
    } else {
      ItemsAfter(s[..last], p, x);
      assert s'[..last] == s[..last][p := x];
      Extend(Items(s'[..last]), ItemAt(s[p]), Items(s[..last]), ItemAt(x), ItemAt(s[last]));
    }
  }

  lemma Swap<T>(a: multiset<T>, b: multiset<T>, c: multiset<T>)
    ensures (a + b) + c == (a + c) + b
  {
  }

  lemma Extend<T>(a: multiset<T>, b: multiset<T>, c: multiset<T>, d: multiset<T>, e: multiset<T>)
    requires a + b == c + d
    ensures (a + e) + b == (c + e) + d
  {
    forall x: T ensures ((a + e) + b)[x] == ((c + e) + d)[x] {
      assert (a + b)[x] == (c + d)[x];
    }
  }

  lemma {:induction false} NothingLive<K, V>(s: seq<Slot<K, V>>, cost: (K, V) -> nat)
    requires forall i | 0 <= i < |s| :: !s[i].Live?
    ensures Weight(s, cost) == 0 && Items(s) == multiset{} && LiveSet(s) == {}
    ensures Unique(s) ==> Contents(s) == map[]
  {
    if s != [] {
      NothingLive(s[..|s| - 1], cost);
    }
  }

  // ---- The weight of the map a table stands for ----

  ghost function Pick<K, V>(m: map<K, V>): (key: K)
    requires m != map[]
    ensures key in m
  {
    var key :| key in m;
    key
  }

  /** The summed cost of a map's entries. */
  ghost function Total<K, V>(m: map<K, Entry<V>>, cost: (K, V) -> nat): nat
    decreases |m|
  {
    if m == map[] then 0
    else
      var key := Pick(m);
      Smaller(m, key);
      cost(key, m[key].value) + Total(m - {key}, cost)
  }

  lemma Smaller<K, V>(m: map<K, V>, key: K)
    requires key in m
    ensures |m - {key}| == |m| - 1
  {
    assert (m - {key}).Keys == m.Keys - {key};
  }

  /** Any entry can be summed first. */
  lemma {:induction false} TotalWithout<K, V>(m: map<K, Entry<V>>, cost: (K, V) -> nat, key: K)
    requires key in m
    ensures Total(m, cost) == cost(key, m[key].value) + Total(m - {key}, cost)
    decreases |m|
  {
    var first := Pick(m);
    if first != key {
      Smaller(m, first);
      Smaller(m, key);
      TotalWithout(m - {first}, cost, key);
      TotalWithout(m - {key}, cost, first);
      assert m - {first} - {key} == m - {key} - {first};
    }
  }

  /** The weight of the slots is that of the map they stand for. */
  lemma {:induction false} WeightIsTotal<K, V>(s: seq<Slot<K, V>>, cost: (K, V) -> nat)
    requires Unique(s)
    ensures Weight(s, cost) == Total(Contents(s), cost)
  {
    if s == [] {
      assert Contents(s) == map[];
    } else {
      var rest, last := s[..|s| - 1], s[|s| - 1];
      WeightIsTotal(rest, cost);
      ContentsButLast(s);
      if last.Live? {
        TotalWithout(Contents(s), cost, last.key);
      }
    }
  }

  lemma ContentsButLast<K, V>(s: seq<Slot<K, V>>)
    requires Unique(s) && s != []
    ensures var rest, last := s[..|s| - 1], s[|s| - 1];
            && Unique(rest)
            && (!last.Live? ==> Contents(s) == Contents(rest))
            && (last.Live? ==> last.key in Contents(s) && Contents(s)[last.key].value == last.value)
            && (last.Live? ==> Contents(s) - {last.key} == Contents(rest))
  {
    var n := |s| - 1;
    if s[n].Live? {
      ContentsAt(s, n);
      ContentsAfterDead(s, n, Free);
      ContentsOfInit(s[n := Free]);
      assert s[n := Free][..n] == s[..n];
    } else {
      ContentsOfInit(s);
    }
  }

  lemma ContentsOfInit<K, V>(s: seq<Slot<K, V>>)
    requires Unique(s) && s != [] && !s[|s| - 1].Live?
    ensures Unique(s[..|s| - 1]) && Contents(s) == Contents(s[..|s| - 1])
  {
    var rest := s[..|s| - 1];
    assert forall i | 0 <= i < |rest| :: rest[i] == s[i];
  }

  lemma LiveAfter<K, V>(s: seq<Slot<K, V>>, p: nat, x: Slot<K, V>)
    requires p < |s|
    ensures |LiveSet(s[p := x])| == |LiveSet(s)| - One(s[p].Live?) + One(x.Live?)
  {
    assert LiveSet(s[p := x]) - {p} == LiveSet(s) - {p};
    SetChanged(LiveSet(s), p, LiveSet(s[p := x]));
  }

  lemma TombAfter<K, V>(s: seq<Slot<K, V>>, p: nat, x: Slot<K, V>)
    requires p < |s|
    ensures |TombSet(s[p := x])| == |TombSet(s)| - One(s[p].Tomb?) + One(x.Tomb?)
  {
    assert TombSet(s[p := x]) - {p} == TombSet(s) - {p};
    SetChanged(TombSet(s), p, TombSet(s[p := x]));
  }

  lemma DeadAfter<K, V>(s: seq<Slot<K, V>>, p: nat, x: Slot<K, V>)
    requires p < |s|
    ensures |DeadSet(s[p := x])| == |DeadSet(s)| - One(s[p].Dead()) + One(x.Dead())
  {
    assert DeadSet(s[p := x]) - {p} == DeadSet(s) - {p};
    SetChanged(DeadSet(s), p, DeadSet(s[p := x]));
  }

  lemma KeyedAfter<K, V>(s: seq<Slot<K, V>>, p: nat, x: Slot<K, V>)
    requires p < |s|
    ensures s[p].Keyed() && x.Keyed() ==> KeyedSet(s[p := x]) == KeyedSet(s)
    ensures !s[p].Keyed() && x.Keyed() ==> multiset(KeyedSet(s[p := x])) == multiset(KeyedSet(s)) + multiset{p}
    ensures s[p].Keyed() && !x.Keyed() ==> multiset(KeyedSet(s[p := x])) + multiset{p} == multiset(KeyedSet(s))
  {
    var k, k' := KeyedSet(s), KeyedSet(s[p := x]);
    if s[p].Keyed() && x.Keyed() {
      assert k' == k;
    } else if x.Keyed() {
      assert k' == k + {p} && p !in k;
    } else {
      assert k' == k - {p} && (s[p].Keyed() ==> p in k);
    }
  }

  function One(b: bool): nat { if b then 1 else 0 }

  lemma UsedIsLiveOrDead<K, V>(s: seq<Slot<K, V>>)
    ensures |UsedSet(s)| == |LiveSet(s)| + |DeadSet(s)|
  {
    assert UsedSet(s) == LiveSet(s) + DeadSet(s);
  }
}

/** One shard as a value, the invariant every operation keeps, and its elementary steps. */
module ShardState {
  import opened SlotTable
  import opened ShardLedger
  import opened PolicyContract

  datatype Cause = Invalidation | Replacement | Expiration | Eviction | Overflow

  /** One call of the deletion handler. */
  datatype Deletion<K, V> = Deletion(key: K, value: V, cause: Cause)

  ghost function ReportedItems<K, V>(reported: seq<Deletion<K, V>>): multiset<(K, V)> {
    if reported == [] then multiset{}
    else
      var d := reported[|reported| - 1];
      ReportedItems(reported[..|reported| - 1]) + multiset{(d.key, d.value)}
  }

  lemma ReportedOneMore<K, V>(reported: seq<Deletion<K, V>>, d: Deletion<K, V>)
    ensures ReportedItems(reported + [d]) == ReportedItems(reported) + multiset{(d.key, d.value)}
  {
    assert (reported + [d])[..|reported|] == reported;
  }

  /** `stored` is every item ever stored; `reported` everything ever handed to the deletion handler. */
  datatype State<K, V> = State(
    slots: seq<Slot<K, V>>, over: seq<nat>, nodes: seq<QNode>,
    live: int, dirty: int, deadCount: int, weight: int,
    reported: seq<Deletion<K, V>>, stored: seq<(K, V)>)

  /** The policy's nodes are in bijection with the slots that are live or dead but not free. */
  ghost predicate Linked<K, V>(nodes: seq<QNode>, s: seq<Slot<K, V>>) {
    multiset(Indices(nodes)) == multiset(KeyedSet(s))
  }

  /** The counters and the ledger of stored and reported items agree with the slots. */
  ghost predicate Books<K, V>(st: State<K, V>) {
    && Linked(st.nodes, st.slots)
    && st.live == |LiveSet(st.slots)|
    && st.dirty == |DeadSet(st.slots)|
    && st.deadCount >= |TombSet(st.slots)|
    && multiset(st.stored) == Items(st.slots) + ReportedItems(st.reported)
  }

  /** The invariant between any two updates made under the mutex, apart from the weight. */
  ghost predicate Core<K, V>(st: State<K, V>, hash: K -> nat) {
    TableInv(st.slots, st.over, hash) && Books(st)
  }

  ghost predicate Balanced<K, V>(st: State<K, V>, hash: K -> nat, cost: (K, V) -> nat) {
    Core(st, hash) && st.weight == Weight(st.slots, cost)
  }

  /** What holds whenever the mutex is free. */
  ghost predicate AtRest<K, V>(st: State<K, V>, hash: K -> nat, cost: (K, V) -> nat, cap: nat) {
    && Balanced(st, hash, cost)
    && st.weight <= cap
    && 4 * (st.live + st.dirty) < 3 * |st.slots|
  }

  lemma NodeIsKeyed<K, V>(st: State<K, V>, i: nat)
    requires Books(st) && i in multiset(Indices(st.nodes))
    ensures i < |st.slots| && st.slots[i].Keyed()
  {
    assert i in multiset(KeyedSet(st.slots));
  }

  // ---- The elementary steps ----

  /** Kill: the live slot becomes a tombstone its queue node still references. */
  ghost function Killed<K, V>(st: State<K, V>, hash: K -> nat, cost: (K, V) -> nat, p: nat, cause: Cause): State<K, V>
    requires p < |st.slots| && st.slots[p].Live?
  {
    var slot := st.slots[p];
    st.(slots := st.slots[p := Tomb(slot.key, slot.tag)],
        over := Forgotten(st.over, Home(hash(slot.key), |st.slots|), p),
        live := st.live - 1, dirty := st.dirty + 1, deadCount := st.deadCount + 1,
        weight := st.weight - cost(slot.key, slot.value),
        reported := st.reported + [Deletion(slot.key, slot.value, cause)])
  }

  lemma KilledBooks<K, V>(st: State<K, V>, hash: K -> nat, cost: (K, V) -> nat, p: nat, cause: Cause)
    requires Books(st) && p < |st.slots| && st.slots[p].Live?
    ensures var st' := Killed(st, hash, cost, p, cause);
            Books(st') && Weight(st'.slots, cost) + cost(st.slots[p].key, st.slots[p].value) == Weight(st.slots, cost)
  {
    hide LiveSet, DeadSet, TombSet, KeyedSet, Weight, Items, Indices;
    var slot, st' := st.slots[p], Killed(st, hash, cost, p, cause);
    SlotChange(st, cost, p, Tomb(slot.key, slot.tag), st'.stored, st'.reported, [],
      [Deletion(slot.key, slot.value, cause)]);
  }

  lemma KilledIsBalanced<K, V>(st: State<K, V>, hash: K -> nat, cost: (K, V) -> nat, p: nat, cause: Cause)
    requires Balanced(st, hash, cost) && p < |st.slots| && st.slots[p].Live?
    ensures Balanced(Killed(st, hash, cost, p, cause), hash, cost)
    ensures Contents(Killed(st, hash, cost, p, cause).slots) == Contents(st.slots) - {st.slots[p].key}
  {
    KillKeepsTable(st.slots, st.over, hash, p, Tomb(st.slots[p].key, st.slots[p].tag));
    KilledBooks(st, hash, cost, p, cause);
  }

  lemma Conserved<T>(stored: multiset<T>, items: multiset<T>, reported: multiset<T>, items': multiset<T>,
                     came: multiset<T>, gone: multiset<T>)
    requires stored == items + reported && items' + gone == items + came
    ensures stored + came == items' + (reported + gone)
  {
    forall x: T ensures (stored + came)[x] == (items' + (reported + gone))[x] {
      assert (items' + gone)[x] == (items + came)[x];
    }
  }

  lemma Cancel(a: multiset<nat>, b: multiset<nat>, c: multiset<nat>)
    requires a + c == b + c
    ensures a == b
  {
    forall x: nat ensures a[x] == b[x] {
      assert (a + c)[x] == (b + c)[x];
    }
  }

  /** Every count, sum and set after slot `p` changed to `x`, with what came and what went entered in the ledger. */
  lemma SlotChange<K, V>(st: State<K, V>, cost: (K, V) -> nat, p: nat, x: Slot<K, V>,
                         stored: seq<(K, V)>, reported: seq<Deletion<K, V>>, came: seq<(K, V)>,
                         gone: seq<Deletion<K, V>>)
    requires Books(st) && p < |st.slots|
    requires stored == st.stored + came && reported == st.reported + gone
    requires |gone| <= 1
    requires ReportedItems(gone) + ItemAt(x) == ItemAt(st.slots[p]) + multiset(came)
    ensures var s, s' := st.slots, st.slots[p := x];
            && Weight(s', cost) + CostAt(s[p], cost) == Weight(s, cost) + CostAt(x, cost)
            && multiset(stored) == Items(s') + ReportedItems(reported)
            && |LiveSet(s')| == |LiveSet(s)| - One(s[p].Live?) + One(x.Live?)
            && |TombSet(s')| == |TombSet(s)| - One(s[p].Tomb?) + One(x.Tomb?)
            && |DeadSet(s')| == |DeadSet(s)| - One(s[p].Dead()) + One(x.Dead())
            && (s[p].Keyed() && x.Keyed() ==> KeyedSet(s') == KeyedSet(s))
            && (!s[p].Keyed() && x.Keyed() ==> multiset(KeyedSet(s')) == multiset(KeyedSet(s)) + multiset{p})
            && (s[p].Keyed() && !x.Keyed() ==> multiset(KeyedSet(s')) + multiset{p} == multiset(KeyedSet(s)))
  {
    var s, s' := st.slots, st.slots[p := x];
    WeightAfter(s, cost, p, x);
    LiveAfter(s, p, x);
    TombAfter(s, p, x);
    DeadAfter(s, p, x);
    KeyedAfter(s, p, x);
    assert multiset(stored) == Items(s') + ReportedItems(reported) by {
      LedgerMoves(st, p, x, came, gone);
    }
  }

  lemma LedgerMoves<K, V>(st: State<K, V>, p: nat, x: Slot<K, V>, came: seq<(K, V)>, gone: seq<Deletion<K, V>>)
    requires multiset(st.stored) == Items(st.slots) + ReportedItems(st.reported)
    requires p < |st.slots| && |gone| <= 1
    requires ReportedItems(gone) + ItemAt(x) == ItemAt(st.slots[p]) + multiset(came)
    ensures multiset(st.stored + came) == Items(st.slots[p := x]) + ReportedItems(st.reported + gone)
  {
    var s, s' := st.slots, st.slots[p := x];
    ItemsAfter(s, p, x);
    var i, i', was, now, rep := Items(s), Items(s'), ItemAt(s[p]), ItemAt(x), ReportedItems(st.reported);
    var out := ReportedItems(gone);
    assert ReportedItems(st.reported + gone) == rep + out by { ReportedAppends(st.reported, gone); }
    Exchange(i, i', was, now, multiset(came), out);
    Conserved(multiset(st.stored), i, rep, i', multiset(came), out);
  }

  lemma Exchange<T>(i: multiset<T>, i': multiset<T>, was: multiset<T>, now: multiset<T>, came: multiset<T>,
                    out: multiset<T>)
    requires i' + was == i + now && out + now == was + came
    ensures i' + out == i + came
  {
    forall x: T ensures (i' + out)[x] == (i + came)[x] {
      assert (i' + was)[x] == (i + now)[x] && (out + now)[x] == (was + came)[x];
    }
  }

  lemma ReportedAppends<K, V>(reported: seq<Deletion<K, V>>, gone: seq<Deletion<K, V>>)
    requires |gone| <= 1
    ensures ReportedItems(reported + gone) == ReportedItems(reported) + ReportedItems(gone)
  {
    if gone == [] {
      assert reported + gone == reported;
    } else {
      assert gone == [gone[0]] && gone[..0] == [];
      ReportedOneMore(reported, gone[0]);
    }
  }

  /** The policy gave up the node of slot `p`: kill the item if it still lives, and free the slot. */
  ghost function Reclaimed<K, V>(st: State<K, V>, hash: K -> nat, cost: (K, V) -> nat, p: nat, cause: Cause,
                                 nodes: seq<QNode>): State<K, V>
    requires p < |st.slots| && st.slots[p].Keyed()
  {
    var slot := st.slots[p];
    if slot.Tomb? then st.(slots := st.slots[p := Free], nodes := nodes)
    else
      st.(slots := st.slots[p := Free],
          over := Forgotten(st.over, Home(hash(slot.key), |st.slots|), p),
          nodes := nodes,
          live := st.live - 1, dirty := st.dirty + 1,
          weight := st.weight - cost(slot.key, slot.value),
          reported := st.reported + [Deletion(slot.key, slot.value, cause)])
  }

  lemma ReclaimedBooks<K, V>(st: State<K, V>, hash: K -> nat, cost: (K, V) -> nat, p: nat, cause: Cause,
                             nodes: seq<QNode>)
    requires Books(st) && p < |st.slots| && st.slots[p].Keyed()
    requires EvictsOne(st.nodes, nodes, p)
    ensures var st' := Reclaimed(st, hash, cost, p, cause, nodes);
            Books(st') && Weight(st'.slots, cost) + CostAt(st.slots[p], cost) == Weight(st.slots, cost)
  {
    hide *;
    var slot, st' := st.slots[p], Reclaimed(st, hash, cost, p, cause, nodes);
    KeyedIs(slot);
    BooksIs(st);
    ReclaimedIs(st, hash, cost, p, cause, nodes);
    LostBalances(slot, cause);
    SlotChange(st, cost, p, Free, st'.stored, st'.reported, [], Lost(slot, cause));
    Cancel(multiset(Indices(nodes)), multiset(KeyedSet(st'.slots)), multiset{p});
    BooksIs(st');
  }

  /** What freeing a slot reports: its item, if it still lived. */
  ghost function Lost<K, V>(slot: Slot<K, V>, cause: Cause): seq<Deletion<K, V>> {
    if slot.Live? then [Deletion(slot.key, slot.value, cause)] else []
  }

  lemma LostBalances<K, V>(slot: Slot<K, V>, cause: Cause)
    ensures |Lost(slot, cause)| <= 1
    ensures ReportedItems(Lost(slot, cause)) + ItemAt<K, V>(Free) == ItemAt(slot) + multiset([])
  {
    if slot.Live? {
      assert Lost(slot, cause)[..0] == [];
    }
  }

  lemma KeyedIs<K, V>(slot: Slot<K, V>)
    ensures slot.Keyed() <==> slot.Live? || slot.Tomb?
    ensures slot.Dead() <==> slot.Tomb? || slot.Free?
    ensures One(true) == 1 && One(false) == 0 && !Slot<K, V>.Free.Keyed() && Slot<K, V>.Free.Dead()
  {
  }

  lemma BooksIs<K, V>(st: State<K, V>)
    ensures Books(st) <==>
              && multiset(Indices(st.nodes)) == multiset(KeyedSet(st.slots))
              && st.live == |LiveSet(st.slots)| && st.dirty == |DeadSet(st.slots)|
              && st.deadCount >= |TombSet(st.slots)|
              && multiset(st.stored) == Items(st.slots) + ReportedItems(st.reported)
  {
  }

  lemma ReclaimedIs<K, V>(st: State<K, V>, hash: K -> nat, cost: (K, V) -> nat, p: nat, cause: Cause, nodes: seq<QNode>)
    requires p < |st.slots| && st.slots[p].Keyed() && EvictsOne(st.nodes, nodes, p)
    ensures var slot, st' := st.slots[p], Reclaimed(st, hash, cost, p, cause, nodes);
            && st'.slots == st.slots[p := Free] && st'.nodes == nodes && st'.deadCount == st.deadCount
            && st'.live == (if slot.Live? then st.live - 1 else st.live)
            && st'.dirty == (if slot.Live? then st.dirty + 1 else st.dirty)
            && st'.stored == st.stored + [] && st'.reported == st.reported + Lost(slot, cause)
            && st'.over == (if slot.Live? then Forgotten(st.over, Home(hash(slot.key), |st.slots|), p) else st.over)
            && st'.weight == st.weight - CostAt(slot, cost)
    ensures CostAt(Free, cost) == 0 && multiset(Indices(st.nodes)) == multiset(Indices(nodes)) + multiset{p}
  {
  }

  lemma ReclaimedIsBalanced<K, V>(st: State<K, V>, hash: K -> nat, cost: (K, V) -> nat, p: nat, cause: Cause,
                                  nodes: seq<QNode>)
    requires Balanced(st, hash, cost) && p < |st.slots| && st.slots[p].Keyed()
    requires EvictsOne(st.nodes, nodes, p)
    ensures var st' := Reclaimed(st, hash, cost, p, cause, nodes);
            && Balanced(st', hash, cost)
            && Contents(st'.slots) == if st.slots[p].Live? then Contents(st.slots) - {st.slots[p].key}
               else Contents(st.slots)
  {
    hide *;
    BalancedIs(st, hash, cost);
    KeyedIs(st.slots[p]);
    ReclaimedIs(st, hash, cost, p, cause, nodes);
    if st.slots[p].Tomb? {
      FreeKeepsTable(st.slots, st.over, hash, p);
    } else {
      KeyedIs<K, V>(Free);
      KillKeepsTable(st.slots, st.over, hash, p, Free);
    }
    ReclaimedBooks(st, hash, cost, p, cause, nodes);
    BalancedIs(Reclaimed(st, hash, cost, p, cause, nodes), hash, cost);
  }

  lemma BalancedIs<K, V>(st: State<K, V>, hash: K -> nat, cost: (K, V) -> nat)
    ensures Balanced(st, hash, cost) <==>
            TableInv(st.slots, st.over, hash) && Books(st) && st.weight == Weight(st.slots, cost)
    ensures TableInv(st.slots, st.over, hash) ==> Unique(st.slots)
  {
  }

  /** A new occupancy in slot `p`: empty or free with a new queue node, or the key's own tombstone, whose node stays. */
  ghost function Published<K, V>(st: State<K, V>, hash: K -> nat, p: nat, key: K, value: V, off: nat,
                                 nodes: seq<QNode>): State<K, V>
    requires p < |st.slots| && !st.slots[p].Live?
  {
    st.(slots := st.slots[p := Live(key, value, TagOf(hash(key)), off)],
        over := Noted(st.over, Home(hash(key), |st.slots|), p),
        nodes := nodes,
        live := st.live + 1,
        dirty := if st.slots[p].Empty? then st.dirty else st.dirty - 1,
        deadCount := if st.slots[p].Tomb? && st.deadCount > 0 then st.deadCount - 1 else st.deadCount,
        stored := st.stored + [(key, value)])
  }

  /** The policy learned of slot `p` exactly if no node referenced it yet. */
  ghost predicate Enqueues<K, V>(st: State<K, V>, p: nat, nodes: seq<QNode>)
    requires p < |st.slots|
  {
    multiset(Indices(nodes)) == multiset(Indices(st.nodes)) + (if st.slots[p].Tomb? then multiset{} else multiset{p})
  }

  lemma PublishedBooks<K, V>(st: State<K, V>, hash: K -> nat, cost: (K, V) -> nat, p: nat, key: K, value: V, off: nat,
                             nodes: seq<QNode>)
    requires Books(st) && p < |st.slots| && !st.slots[p].Live? && Enqueues(st, p, nodes)
    ensures var st' := Published(st, hash, p, key, value, off, nodes);
            Books(st') && Weight(st'.slots, cost) == Weight(st.slots, cost) + cost(key, value)
  {
    hide LiveSet, DeadSet, KeyedSet, Weight, Items, Indices;
    var st' := Published(st, hash, p, key, value, off, nodes);
    SlotChange(st, cost, p, Live(key, value, TagOf(hash(key)), off), st'.stored, st'.reported, [(key, value)], []);
    assert st.slots[p].Tomb? ==> p in TombSet(st.slots);
  }

  lemma RoomForOne<K, V>(st: State<K, V>, hash: K -> nat)
    requires Core(st, hash) && 4 * (st.live + st.dirty) < 3 * |st.slots|
    ensures 4 * (|UsedSet(st.slots)| + 1) <= 3 * |st.slots|
  {
    hide Sized, Unique, Placed, Counted, LiveSet, DeadSet, UsedSet, TombSet, Linked, Items, ReportedItems;
    SizedIsWholeGroups(|st.slots|);
    UsedIsLiveOrDead(st.slots);
  }

  lemma PublishedKeepsCore<K, V>(st: State<K, V>, hash: K -> nat, cost: (K, V) -> nat, p: nat, key: K, value: V,
                                 off: nat, nodes: seq<QNode>)
    requires Core(st, hash) && p < |st.slots| && !st.slots[p].Live? && Enqueues(st, p, nodes)
    requires st.slots[p].Tomb? ==> st.slots[p].key == key
    requires forall i | 0 <= i < |st.slots| && i != p && st.slots[i].Keyed() :: st.slots[i].key != key
    requires Reaches(st.slots, Home(hash(key), |st.slots|), p)
    requires 4 * (st.live + st.dirty) < 3 * |st.slots|
    ensures var st' := Published(st, hash, p, key, value, off, nodes);
            && Core(st', hash)
            && Contents(st'.slots) == Contents(st.slots)[key := Entry(value, off)]
            && Weight(st'.slots, cost) == Weight(st.slots, cost) + cost(key, value)
  {
    var st' := Published(st, hash, p, key, value, off, nodes);
    assert TableInv(st'.slots, st'.over, hash) && Contents(st'.slots)
           == Contents(st.slots)[key := Entry(value, off)] by {
      RoomForOne(st, hash);
      PublishKeepsTable(st.slots, st.over, hash, p, key, value, off);
    }
    PublishedBooks(st, hash, cost, p, key, value, off, nodes);
  }

  /** An overwrite in place: the old value is reported replaced. */
  ghost function Overwritten<K, V>(st: State<K, V>, p: nat, value: V, off: nat): State<K, V>
    requires p < |st.slots| && st.slots[p].Live?
  {
    var slot := st.slots[p];
    st.(slots := st.slots[p := slot.(value := value, expireOff := off)],
        reported := st.reported + [Deletion(slot.key, slot.value, Replacement)],
        stored := st.stored + [(slot.key, value)])
  }

  lemma OverwrittenBooks<K, V>(st: State<K, V>, cost: (K, V) -> nat, p: nat, value: V, off: nat)
    requires Books(st) && p < |st.slots| && st.slots[p].Live?
    ensures var st', slot := Overwritten(st, p, value, off), st.slots[p];
            && Books(st')
            && Weight(st'.slots, cost) + cost(slot.key, slot.value) == Weight(st.slots, cost) + cost(slot.key, value)
  {
    hide LiveSet, DeadSet, TombSet, KeyedSet, Weight, Items, Indices;
    var slot, st' := st.slots[p], Overwritten(st, p, value, off);
    SlotChange(st, cost, p, slot.(value := value, expireOff := off), st'.stored, st'.reported,
               [(slot.key, value)], [Deletion(slot.key, slot.value, Replacement)]);
  }

  lemma OverwrittenKeepsCore<K, V>(st: State<K, V>, hash: K -> nat, cost: (K, V) -> nat, p: nat, value: V, off: nat)
    requires Core(st, hash) && p < |st.slots| && st.slots[p].Live?
    ensures var st', slot := Overwritten(st, p, value, off), st.slots[p];
            && Core(st', hash)
            && Contents(st'.slots) == Contents(st.slots)[slot.key := Entry(value, off)]
            && Weight(st'.slots, cost) + cost(slot.key, slot.value) == Weight(st.slots, cost) + cost(slot.key, value)
  {
    OverwriteKeepsTable(st.slots, st.over, hash, p, value, off);
    OverwrittenBooks(st, cost, p, value, off);
  }
}
