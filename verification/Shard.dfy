/** How a shard's removals are reported, and what a write makes of the map it stands for. */
module ShardEffects {
  import opened SlotTable
  import opened ShardLedger
  import opened ShardState
  import opened PolicyContract
  import ExpiryScale

  /** What a write of a fitting value makes of the map: a write without a deadline keeps the old one. */
  ghost function Stored<K, V>(m: map<K, Entry<V>>, key: K, value: V, off: nat): map<K, Entry<V>> {
    m[key := Entry(value, if off == 0 && key in m then m[key].expireOff else off)]
  }

  ghost function KeysOf<K, V>(tail: seq<Deletion<K, V>>): set<K> {
    set d | d in tail :: d.key
  }

  /** `tail` lists entries of `m`, each once, each with its value and the cause its deadline implies. */
  ghost predicate Departures<K, V>(m: map<K, Entry<V>>, tail: seq<Deletion<K, V>>, nowOff: nat) {
    && (forall i | 0 <= i < |tail| ::
          && tail[i].key in m && tail[i].value == m[tail[i].key].value
          && tail[i].cause == if ExpiryScale.Expired(m[tail[i].key].expireOff, nowOff) then Expiration else Eviction)
    && (forall i, j | 0 <= i < j < |tail| :: tail[i].key != tail[j].key)
  }

  lemma NoDepartures<K, V>(m: map<K, Entry<V>>, nowOff: nat)
    ensures Departures(m, [], nowOff)
    ensures m - KeysOf<K, V>([]) == m
  {
    var none: seq<Deletion<K, V>> := [];
    assert KeysOf(none) == {};
  }

  lemma OneMoreDeparture<K, V>(m: map<K, Entry<V>>, tail: seq<Deletion<K, V>>, d: Deletion<K, V>, nowOff: nat)
    requires Departures(m, tail, nowOff) && d.key in m && d.key !in KeysOf(tail)
    requires d.value == m[d.key].value
    requires d.cause == if ExpiryScale.Expired(m[d.key].expireOff, nowOff) then Expiration else Eviction
    ensures Departures(m, tail + [d], nowOff)
    ensures m - KeysOf(tail + [d]) == m - KeysOf(tail) - {d.key}
  {
    assert KeysOf(tail + [d]) == KeysOf(tail) + {d.key} by {
      assert (tail + [d])[|tail|] == d;
      forall k | k in KeysOf(tail) ensures k in KeysOf(tail + [d]) {
        var i :| 0 <= i < |tail| && tail[i].key == k;
        assert (tail + [d])[i] == tail[i];
      }
    }
    forall i | 0 <= i < |tail| ensures tail[i].key != d.key {
      assert tail[i].key in KeysOf(tail);
    }
  }

  /** Each departure was needed: what was left before it still weighed more than the capacity. */
  ghost predicate Needed<K, V>(m: map<K, Entry<V>>, tail: seq<Deletion<K, V>>, cost: (K, V) -> nat, cap: nat) {
    forall i | 0 <= i < |tail| :: Total(m - KeysOf(tail[..i]), cost) > cap
  }

  lemma NeededOneMore<K, V>(m: map<K, Entry<V>>, tail: seq<Deletion<K, V>>, d: Deletion<K, V>, cost: (K, V) -> nat,
                            cap: nat)
    requires Needed(m, tail, cost, cap) && Total(m - KeysOf(tail), cost) > cap
    ensures Needed(m, tail + [d], cost, cap)
  {
    hide KeysOf, Total;
    assert tail[..|tail|] == tail;
    assert forall i | 0 <= i <= |tail| :: (tail + [d])[..i] == tail[..i];
  }

  lemma NoneNeeded<K, V>(m: map<K, Entry<V>>, cost: (K, V) -> nat, cap: nat)
    ensures Needed(m, [], cost, cap)
  {
  }

  /** At every moment of an eviction the weight is that of what is left. */
  lemma EvictedWeight<K, V>(st0: State<K, V>, st: State<K, V>, tail: seq<Deletion<K, V>>, hash: K -> nat,
                            cost: (K, V) -> nat, nowOff: nat)
    requires Unique(st0.slots) && Unique(st.slots) && Evicted(st0, st, tail, nowOff) && Balanced(st, hash, cost)
    ensures st.weight == Total(Contents(st0.slots) - KeysOf(tail), cost)
  {
    hide TableInv, Books, Departures, KeysOf, Weight, Contents, Total;
    WeightIsTotal(st.slots, cost);
  }

  /** So the weight of a shard is that of its map. */
  lemma AtRestWeight<K, V>(st: State<K, V>, hash: K -> nat, cost: (K, V) -> nat, cap: nat)
    requires AtRest(st, hash, cost, cap)
    ensures Unique(st.slots) && st.weight == Total(Contents(st.slots), cost) <= cap
  {
    hide Books, Weight, Contents, Total;
    WeightIsTotal(st.slots, cost);
  }

  ghost function CauseOf<K, V>(slot: Slot<K, V>, nowOff: nat): Cause {
    if slot.Live? && ExpiryScale.Expired(slot.expireOff, nowOff) then Expiration else Eviction
  }

  /** From `st0` to `st`, exactly the entries in `tail` left the map, and the handler heard of each. */
  ghost predicate Evicted<K, V>(st0: State<K, V>, st: State<K, V>, tail: seq<Deletion<K, V>>, nowOff: nat)
    requires Unique(st0.slots) && Unique(st.slots)
  {
    && st.reported == st0.reported + tail
    && Departures(Contents(st0.slots), tail, nowOff)
    && Contents(st.slots) == Contents(st0.slots) - KeysOf(tail)
  }

  lemma NothingEvicted<K, V>(st: State<K, V>, nowOff: nat)
    requires Unique(st.slots)
    ensures Evicted(st, st, [], nowOff)
  {
    NoDepartures(Contents(st.slots), nowOff);
    var none: seq<Deletion<K, V>> := [];
    assert st.reported + none == st.reported;
  }

  lemma OneMoreEvicted<K, V>(st0: State<K, V>, st: State<K, V>, hash: K -> nat, cost: (K, V) -> nat, p: nat,
                             nodes: seq<QNode>,
                             tail: seq<Deletion<K, V>>, nowOff: nat)
    requires Unique(st0.slots) && Unique(st.slots) && Evicted(st0, st, tail, nowOff)
    requires Balanced(st, hash, cost) && p < |st.slots| && st.slots[p].Keyed() && EvictsOne(st.nodes, nodes, p)
    ensures var cause := CauseOf(st.slots[p], nowOff);
            var st' := Reclaimed(st, hash, cost, p, cause, nodes);
            Unique(st'.slots) &&
            Evicted(st0, st',
                    if st.slots[p].Live? then tail + [Deletion(st.slots[p].key, st.slots[p].value, cause)] else tail,
                    nowOff)
  {
    hide Books, Weight, KeysOf, Departures;
    var slot := st.slots[p];
    ReclaimedIsBalanced(st, hash, cost, p, CauseOf(slot, nowOff), nodes);
    CoreIsUnique(Reclaimed(st, hash, cost, p, CauseOf(slot, nowOff), nodes), hash);
    if slot.Live? {
      ContentsAt(st.slots, p);
      var d := Deletion(slot.key, slot.value, CauseOf(slot, nowOff));
      OneMoreDeparture(Contents(st0.slots), tail, d, nowOff);
      assert st0.reported + (tail + [d]) == st0.reported + tail + [d];
    }
  }

  /** A sweep empties its queue nodes first and frees their slots one by one. */
  ghost function Awaiting(nodes: seq<QNode>, released: seq<nat>): seq<QNode> {
    nodes + seq(|released|, i requires 0 <= i < |released| => QNode(released[i], 0))
  }

  lemma AwaitingIsAll(nodes: seq<QNode>, released: seq<nat>)
    ensures multiset(Indices(Awaiting(nodes, released))) == multiset(Indices(nodes)) + multiset(released)
  {
    var rest := seq(|released|, i requires 0 <= i < |released| => QNode(released[i], 0));
    IndicesConcat(nodes, rest);
    assert Indices(rest) == released;
  }

  lemma AwaitingOneLess(nodes: seq<QNode>, released: seq<nat>)
    requires released != []
    ensures EvictsOne(Awaiting(nodes, released), Awaiting(nodes, released[1..]), released[0])
  {
    AwaitingIsAll(nodes, released);
    AwaitingIsAll(nodes, released[1..]);
    assert released == [released[0]] + released[1..];
    var rest := Awaiting(nodes, released[1..])[|nodes|..];
    assert Awaiting(nodes, released) == nodes + [QNode(released[0], 0)] + rest;
    assert Awaiting(nodes, released[1..]) == nodes + rest;
  }

  lemma NoNodesNoWeight<K, V>(st: State<K, V>, hash: K -> nat, cost: (K, V) -> nat)
    requires Balanced(st, hash, cost) && st.nodes == []
    ensures st.weight == 0
  {
    assert multiset(KeyedSet(st.slots)) == multiset{};
    forall i | 0 <= i < |st.slots| ensures !st.slots[i].Live? {
      assert i !in multiset(KeyedSet(st.slots));
    }
    NothingLive(st.slots, cost);
  }

  lemma CoreIsUnique<K, V>(st: State<K, V>, hash: K -> nat)
    requires Core(st, hash)
    ensures Unique(st.slots)
  {
  }

  lemma BalancedIsLinked<K, V>(st: State<K, V>, hash: K -> nat, cost: (K, V) -> nat)
    requires Balanced(st, hash, cost)
    ensures Linked(st.nodes, st.slots)
  {
  }

  lemma AtRestIsLinked<K, V>(st: State<K, V>, hash: K -> nat, cost: (K, V) -> nat, cap: nat)
    requires AtRest(st, hash, cost, cap)
    ensures Linked(st.nodes, st.slots)
  {
  }

  lemma CoreGroups<K, V>(st: State<K, V>, hash: K -> nat, home: nat)
    requires Core(st, hash) && home < |st.slots|
    ensures Group(home) < |st.over|
  {
  }

  lemma AtRestTable<K, V>(st: State<K, V>, hash: K -> nat, cost: (K, V) -> nat, cap: nat)
    requires AtRest(st, hash, cost, cap)
    ensures TableInv(st.slots, st.over, hash) && Unique(st.slots)
  {
  }

  /** A tombstone of the key is reached by its probe, and no other slot holds the key. */
  lemma DormantIsReached<K, V>(st: State<K, V>, hash: K -> nat, p: nat)
    requires Core(st, hash) && p < |st.slots| && st.slots[p].Tomb?
    ensures Reaches(st.slots, Home(hash(st.slots[p].key), |st.slots|), p)
    ensures forall i | 0 <= i < |st.slots| && i != p && st.slots[i].Keyed() :: st.slots[i].key != st.slots[p].key
  {
    assert Placed(st.slots, hash, p);
  }

  lemma NotInContents<K, V>(s: seq<Slot<K, V>>, p: nat, key: K)
    requires Unique(s) && p < |s| && !s[p].Live?
    requires forall i | 0 <= i < |s| && i != p && s[i].Keyed() :: s[i].key != key
    ensures key !in Contents(s)
  {
    if key in Contents(s) {
      var i := SlotFor(s, key);
      assert false;
    }
  }

  /** A read that pushes the deadline out. */
  ghost function Refreshed<K, V>(st: State<K, V>, p: nat, off: nat): State<K, V>
    requires p < |st.slots| && st.slots[p].Live?
  {
    st.(slots := st.slots[p := st.slots[p].(expireOff := off)])
  }

  lemma RefreshedBooks<K, V>(st: State<K, V>, cost: (K, V) -> nat, p: nat, off: nat)
    requires Books(st) && p < |st.slots| && st.slots[p].Live?
    ensures Books(Refreshed(st, p, off)) && Weight(Refreshed(st, p, off).slots, cost) == Weight(st.slots, cost)
  {
    assert st.stored + [] == st.stored && st.reported + [] == st.reported;
    SlotChange(st, cost, p, st.slots[p].(expireOff := off), st.stored, st.reported, [], []);
  }

  lemma RefreshedIsAtRest<K, V>(st: State<K, V>, hash: K -> nat, cost: (K, V) -> nat, cap: nat, p: nat, off: nat)
    requires AtRest(st, hash, cost, cap) && p < |st.slots| && st.slots[p].Live?
    ensures var st' := Refreshed(st, p, off);
            && AtRest(st', hash, cost, cap) && Unique(st'.slots)
            && Contents(st'.slots) == Contents(st.slots)[st.slots[p].key := Entry(st.slots[p].value, off)]
  {
    OverwriteKeepsTable(st.slots, st.over, hash, p, st.slots[p].value, off);
    assert st.slots[p].(value := st.slots[p].value, expireOff := off) == st.slots[p].(expireOff := off);
    RefreshedBooks(st, cost, p, off);
  }

  lemma Requeued<K, V>(st: State<K, V>, hash: K -> nat, cost: (K, V) -> nat, nodes: seq<QNode>)
    requires Balanced(st, hash, cost) && multiset(Indices(nodes)) == multiset(Indices(st.nodes))
    ensures Balanced(st.(nodes := nodes), hash, cost)
  {
  }

  lemma Reweighed<K, V>(st: State<K, V>, hash: K -> nat, weight: int)
    requires Core(st, hash)
    ensures Core(st.(weight := weight), hash)
  {
  }

  lemma Recounted<K, V>(st: State<K, V>, hash: K -> nat, cost: (K, V) -> nat)
    requires Balanced(st, hash, cost) && TombSet(st.slots) == {}
    ensures Balanced(st.(deadCount := 0), hash, cost)
  {
  }

  lemma NothingKeyed<K, V>(s: seq<Slot<K, V>>, cost: (K, V) -> nat)
    requires forall i | 0 <= i < |s| :: s[i].Empty?
    ensures KeyedSet(s) == {} && TombSet(s) == {} && DeadSet(s) == {} && LiveSet(s) == {}
    ensures Weight(s, cost) == 0 && Items(s) == multiset{}
  {
    NothingLive(s, cost);
  }

  /** The slots of a state are dead exactly where `dead` says. */
  ghost predicate DeadAt<K, V>(st: State<K, V>, dead: set<nat>) {
    forall i | 0 <= i < |st.slots| :: i in dead <==> st.slots[i].Dead()
  }

  /** The next released slot is freed: nothing but its node leaves. */
  lemma SweptOne<K, V>(st: State<K, V>, hash: K -> nat, cost: (K, V) -> nat, kept: seq<QNode>, released: seq<nat>,
                       dead: set<nat>)
    requires Balanced(st, hash, cost) && Unique(st.slots) && DeadAt(st, dead)
    requires released != [] && released[0] in dead && st.nodes == Awaiting(kept, released)
    ensures released[0] < |st.slots| && st.slots[released[0]].Tomb?
    ensures var st' := st.(slots := st.slots[released[0] := Free], nodes := Awaiting(kept, released[1..]));
            && Balanced(st', hash, cost) && Unique(st'.slots) && DeadAt(st', dead)
            && Contents(st'.slots) == Contents(st.slots)
  {
    hide TableInv, Weight, Contents, Unique, Awaiting;
    AwaitingOneLess(kept, released);
    NodeIsKeyed(st, released[0]);
    ReclaimedIsBalanced(st, hash, cost, released[0], Eviction, Awaiting(kept, released[1..]));
    CoreIsUnique(Reclaimed(st, hash, cost, released[0], Eviction, Awaiting(kept, released[1..])), hash);
  }

  lemma SweptHasNoTombs<K, V>(st: State<K, V>, hash: K -> nat, dead: set<nat>)
    requires Core(st, hash) && DeadAt(st, dead)
    requires forall i | i in Indices(st.nodes) :: i !in dead
    ensures TombSet(st.slots) == {}
  {
    forall i: nat | i < |st.slots| && st.slots[i].Tomb? ensures i in Indices(st.nodes) {
      assert i in multiset(KeyedSet(st.slots));
      assert i in multiset(Indices(st.nodes));
    }
  }
}

/** A rebuild, item by item: what is still in the old table and what has reached the new one. */
module ShardRebuild {
  import opened SlotTable
  import opened ShardLedger
  import opened ShardState
  import opened PolicyContract

  /** `rest` is the old table `s` with the moved items taken out, `fs` the new table they went to. */
  ghost predicate Moving<K, V>(s: seq<Slot<K, V>>, rest: seq<Slot<K, V>>, fs: seq<Slot<K, V>>, cost: (K, V) -> nat) {
    && |rest| == |s| && (forall i | 0 <= i < |s| :: rest[i] == s[i] || rest[i] == Free)
    && Unique(s) && Unique(rest) && Unique(fs)
    && (forall i | 0 <= i < |fs| :: fs[i].Empty? || fs[i].Live?)
    && Contents(rest).Keys !! Contents(fs).Keys
    && Contents(s) == Contents(rest) + Contents(fs)
    && Weight(s, cost) == Weight(rest, cost) + Weight(fs, cost)
    && Items(s) == Items(rest) + Items(fs)
    && |LiveSet(s)| == |LiveSet(rest)| + |LiveSet(fs)|
  }

  lemma MovingStarts<K, V>(s: seq<Slot<K, V>>, fs: seq<Slot<K, V>>, cost: (K, V) -> nat)
    requires Unique(s) && (forall i | 0 <= i < |fs| :: fs[i] == Empty)
    ensures Moving(s, s, fs, cost) && KeyedSet(fs) == {}
  {
    NothingLive(fs, cost);
  }

  /** A dead item is left behind. */
  lemma DeadStaysBehind<K, V>(s: seq<Slot<K, V>>, rest: seq<Slot<K, V>>, fs: seq<Slot<K, V>>, cost: (K, V) -> nat,
                              v: nat)
    requires Moving(s, rest, fs, cost) && v < |s| && rest[v].Tomb?
    ensures Moving(s, rest[v := Free], fs, cost)
  {
    hide Weight, Items, Contents;
    ContentsAfterDead(rest, v, Free);
    WeightAfter(rest, cost, v, Free);
    ItemsAfter(rest, v, Free);
    assert Items(rest[v := Free]) + multiset{} == Items(rest[v := Free]);
    assert Items(rest) + multiset{} == Items(rest);
    LiveAfter(rest, v, Free);
  }

  /** A live item moves. */
  lemma LiveMoves<K, V>(s: seq<Slot<K, V>>, rest: seq<Slot<K, V>>, fs: seq<Slot<K, V>>, cost: (K, V) -> nat, v: nat,
                        idx: nat)
    requires Moving(s, rest, fs, cost) && v < |s| && rest[v].Live? && idx < |fs| && fs[idx].Empty?
    requires forall i | 0 <= i < |fs| && fs[i].Keyed() :: fs[i].key != rest[v].key
    ensures Moving(s, rest[v := Free], fs[idx := rest[v]], cost)
  {
    hide Weight, Items, Contents;
    var x := rest[v];
    var rest', fs' := rest[v := Free], fs[idx := x];
    ContentsAt(rest, v);
    ContentsAfterDead(rest, v, Free);
    ContentsAfterLive(fs, idx, x);
    WeightAfter(rest, cost, v, Free);
    WeightAfter(fs, cost, idx, x);
    LiveAfter(rest, v, Free);
    LiveAfter(fs, idx, x);
    assert Items(s) == Items(rest') + Items(fs') by {
      ItemsAfter(rest, v, Free);
      ItemsAfter(fs, idx, x);
      Carry(Items(rest), Items(fs), Items(rest'), Items(fs'), ItemAt(x));
    }
    var m, f := Contents(rest), Contents(fs);
    assert m + f == (m - {x.key}) + f[x.key := Entry(x.value, x.expireOff)];
  }

  lemma Carry<T>(a: multiset<T>, b: multiset<T>, a': multiset<T>, b': multiset<T>, x: multiset<T>)
    requires a' + x == a && b' == b + x
    ensures a + b == a' + b'
  {
  }

  lemma NotYetMoved<K, V>(s: seq<Slot<K, V>>, rest: seq<Slot<K, V>>, fs: seq<Slot<K, V>>, cost: (K, V) -> nat, v: nat)
    requires Moving(s, rest, fs, cost) && v < |s| && rest[v].Live?
    ensures forall i | 0 <= i < |fs| && fs[i].Keyed() :: fs[i].key != rest[v].key
    ensures |UsedSet(fs)| < |LiveSet(s)|
  {
    ContentsAt(rest, v);
    forall i | 0 <= i < |fs| && fs[i].Keyed() ensures fs[i].key != rest[v].key {
      ContentsAt(fs, i);
    }
    assert UsedSet(fs) == LiveSet(fs);
    assert v in LiveSet(rest);
  }

  lemma StillThere<K, V>(s: seq<Slot<K, V>>, rest: seq<Slot<K, V>>, fs: seq<Slot<K, V>>, cost: (K, V) -> nat, v: nat)
    requires Moving(s, rest, fs, cost) && v < |rest| && rest[v].Keyed()
    ensures v < |s| && rest[v] == s[v]
  {
  }

  lemma LiveSlotTagged<K, V>(s: seq<Slot<K, V>>, over: seq<nat>, hash: K -> nat, v: nat)
    requires TableInv(s, over, hash) && v < |s| && s[v].Live?
    ensures s[v].tag == TagOf(hash(s[v].key))
  {
    assert Placed(s, hash, v);
  }

  lemma MovingEnds<K, V>(s: seq<Slot<K, V>>, rest: seq<Slot<K, V>>, fs: seq<Slot<K, V>>, cost: (K, V) -> nat)
    requires Moving(s, rest, fs, cost) && KeyedSet(rest) == {}
    ensures Contents(fs) == Contents(s) && Weight(fs, cost) == Weight(s, cost) && Items(fs) == Items(s)
    ensures |LiveSet(fs)| == |LiveSet(s)| && DeadSet(fs) == {} && TombSet(fs) == {}
  {
    forall i | 0 <= i < |rest| ensures !rest[i].Live? {
      assert i !in KeyedSet(rest);
    }
    NothingLive(rest, cost);
    assert map[] + Contents(fs) == Contents(fs);
  }

  /** Every live item of `s` is in the slot of `s'` that `remap` says, as it was. */
  ghost predicate Carries<K, V>(s: seq<Slot<K, V>>, s': seq<Slot<K, V>>, remap: map<nat, nat>) {
    && (forall v: nat | v < |s| && s[v].Live? :: v in remap)
    && (forall v | v in remap :: v < |s| && s[v].Live? && remap[v] < |s'| && s'[remap[v]] == s[v])
  }

  ghost predicate CarriesSome<K, V>(s: seq<Slot<K, V>>, s': seq<Slot<K, V>>, remap: map<nat, nat>, seen: seq<nat>) {
    && (forall v | v in seen && v < |s| && s[v].Live? :: v in remap)
    && (forall v | v in remap :: v < |s| && s[v].Live? && remap[v] < |s'| && s'[remap[v]] == s[v])
  }

  /** Every node of a live item follows that very item to its new slot, with its cost, and no other node stays. */
  ghost predicate NodesFollow<K, V>(s: seq<Slot<K, V>>, nodes: seq<QNode>, s': seq<Slot<K, V>>, nodes': seq<QNode>) {
    exists remap: map<nat, nat> :: Carries(s, s', remap) && multiset(nodes') == multiset(Moved(nodes, remap))
  }

  lemma CarriesNothing<K, V>(s: seq<Slot<K, V>>, s': seq<Slot<K, V>>)
    ensures CarriesSome(s, s', map[], [])
  {
  }

  lemma CarriesOneMore<K, V>(s: seq<Slot<K, V>>, s': seq<Slot<K, V>>, remap: map<nat, nat>, seen: seq<nat>, v: nat,
                             idx: nat)
    requires CarriesSome(s, s', remap, seen) && v < |s| && s[v].Live? && idx < |s'| && s'[idx].Empty?
    ensures CarriesSome(s, s'[idx := s[v]], remap[v := idx], seen + [v])
  {
  }

  lemma LeavesOneMore<K, V>(s: seq<Slot<K, V>>, s': seq<Slot<K, V>>, remap: map<nat, nat>, seen: seq<nat>, v: nat)
    requires CarriesSome(s, s', remap, seen) && v < |s| && !s[v].Live?
    ensures CarriesSome(s, s', remap, seen + [v])
  {
  }

  lemma CarriesAll<K, V>(s: seq<Slot<K, V>>, s': seq<Slot<K, V>>, remap: map<nat, nat>, visit: seq<nat>)
    requires CarriesSome(s, s', remap, visit) && multiset(visit) == multiset(KeyedSet(s))
    ensures Carries(s, s', remap)
  {
    forall v: nat | v < |s| && s[v].Live? ensures v in visit {
      assert v in KeyedSet(s);
      assert v in multiset(visit);
    }
  }

  lemma FollowsBy<K, V>(s: seq<Slot<K, V>>, nodes: seq<QNode>, visit: seq<nat>, s': seq<Slot<K, V>>, nodes': seq<QNode>,
                        remap: map<nat, nat>)
    requires Carries(s, s', remap) && Relinks(nodes, visit, nodes', remap)
    ensures NodesFollow(s, nodes, s', nodes')
  {
  }

  lemma RebuildSizes<K, V>(st: State<K, V>, hash: K -> nat, newSize: nat)
    requires Core(st, hash)
    requires newSize == if st.live * 2 >= |st.slots| then |st.slots| * 2 else |st.slots|
    ensures Sized(newSize) && 4 * st.live < 3 * newSize && st.live == |LiveSet(st.slots)|
    ensures TableInv(st.slots, st.over, hash) && Unique(st.slots)
    ensures multiset(Indices(st.nodes)) == multiset(KeyedSet(st.slots))
  {
    UsedIsLiveOrDead(st.slots);
    SizedDoubles(|st.slots|);
  }

  lemma Rebuilt<K, V>(st: State<K, V>, st': State<K, V>, hash: K -> nat)
    requires Core(st, hash) && TableInv(st'.slots, st'.over, hash)
    requires multiset(Indices(st'.nodes)) == multiset(KeyedSet(st'.slots))
    requires st'.live == |LiveSet(st'.slots)| && DeadSet(st'.slots) == {} && TombSet(st'.slots) == {}
    requires st'.dirty == 0 && st'.deadCount == 0
    requires Items(st'.slots) == Items(st.slots) && st'.reported == st.reported && st'.stored == st.stored
    ensures Core(st', hash) && Unique(st'.slots)
  {
  }

  lemma RemapNothing(visit: seq<nat>, remap: map<nat, nat>)
    requires visit == []
    ensures Remapped(visit, remap) == []
  {
  }

  lemma NoKeysNoLive<K, V>(s: seq<Slot<K, V>>)
    requires KeyedSet(s) == {}
    ensures LiveSet(s) == {}
  {
    assert LiveSet(s) <= KeyedSet(s);
  }

  lemma EmptySet(a: set<nat>)
    requires multiset(a) == multiset{}
    ensures a == {}
  {
    forall x | x in a ensures x in multiset(a) {}
  }

  lemma {:induction false} RemapExtends(visit: seq<nat>, remap: map<nat, nat>, v: nat, idx: nat)
    requires v !in visit
    ensures Remapped(visit, remap[v := idx]) == Remapped(visit, remap)
  {
    if visit != [] {
      RemapExtends(visit[..|visit| - 1], remap, v, idx);
      assert visit[|visit| - 1] in visit;
    }
  }

  lemma RemapOneMore(visit: seq<nat>, k: nat, remap: map<nat, nat>, idx: nat)
    requires k < |visit| && visit[k] !in visit[..k]
    ensures Remapped(visit[..k + 1], remap[visit[k] := idx]) == Remapped(visit[..k], remap) + [idx]
    ensures visit[k] !in remap ==> Remapped(visit[..k + 1], remap) == Remapped(visit[..k], remap)
  {
    assert visit[..k + 1][..k] == visit[..k];
    RemapExtends(visit[..k], remap, visit[k], idx);
  }

  /** Visiting a set, each member once: the next one was not seen before and is still to come. */
  lemma NextVisit<K, V>(visit: seq<nat>, k: nat, s: seq<Slot<K, V>>, rest: seq<Slot<K, V>>)
    requires multiset(visit) == multiset(KeyedSet(s)) && k < |visit|
    requires multiset(visit[k..]) == multiset(KeyedSet(rest))
    ensures visit[k] !in visit[..k]
    ensures visit[k] < |rest| && rest[visit[k]].Keyed()
    ensures multiset(visit[k + 1..]) == multiset(KeyedSet(rest[visit[k] := Free]))
  {
    var v := visit[k];
    assert visit == visit[..k] + visit[k..];
    assert visit[k..] == [v] + visit[k + 1..];
    assert multiset(visit)[v] <= 1;
    assert v in multiset(visit[k..]);
    assert v in multiset(KeyedSet(rest));
    KeyedAfter(rest, v, Free);
    var seen := visit[..k];
    assert v in seen <==> v in multiset(seen);
    Cancel(multiset(visit[k + 1..]), multiset(KeyedSet(rest[v := Free])), multiset{v});
  }
}

/**
 One shard of the first level. Every method runs under the shard mutex, so the class is sequential; the clock is a
 parameter, and `reported` collects the calls of the deletion handler.
 */
module Shards {
  import opened Options
  import opened SlotTable
  import opened ShardLedger
  import opened ShardState
  import opened ShardEffects
  import opened ShardRebuild
  import opened PolicyContract
  import opened FlatHashMaps
  import opened NodeCosts
  import ExpiryScale

  const SWEEP_MIN_DEAD := 128

  class Shard<K(==), V> {
    const hash: K -> nat
    const cost: (K, V) -> nat
    const cap: nat
    const policy: Policy
    var storage: FlatHashMap<K, V>
    var weight: int
    var live: int
    var dirty: int
    var deadCount: int
    var reported: seq<Deletion<K, V>>
    ghost var stored: seq<(K, V)>

    /** An empty shard over a table of `n` slots: the initial 64, or a preallocated size. */
    constructor (hash: K -> nat, cost: (K, V) -> nat, cap: nat, n: nat)
      requires Sized(n)
      ensures Valid() && Map() == map[] && reported == [] && stored == []
      ensures this.hash == hash && this.cost == cost && this.cap == cap
      ensures fresh(policy) && fresh(storage) && fresh(storage.slots) && fresh(storage.overflows)
    {
      this.hash, this.cost, this.cap := hash, cost, cap;
      policy := new Policy();
      storage := new FlatHashMap(n);
      weight, live, dirty, deadCount := 0, 0, 0, 0;
      reported, stored := [], [];
      new;
      FreshTable(storage.slots[..], storage.overflows[..], hash);
      NothingKeyed(storage.slots[..], cost);
      NothingPriced(storage.slots[..], stored, cost);
    }

    ghost function View(): State<K, V>
      reads this, storage.slots, storage.overflows, policy
    {
      State(storage.slots[..], storage.overflows[..], policy.nodes, live, dirty, deadCount, weight, reported, stored)
    }

    ghost predicate Separate()
      reads this
    {
      storage.slots as object != storage.overflows
    }

    ghost predicate Valid()
      reads this, storage.slots, storage.overflows, policy
      ensures Valid() ==> Unique(storage.slots[..])
    {
      Separate() && AtRest(View(), hash, cost, cap) && NodesPriced()
    }

    /** Every queue node carries the cost of a value stored under its slot's key. */
    ghost predicate NodesPriced()
      reads this, storage.slots, policy
    {
      Priced(policy.nodes, storage.slots[..], stored, cost)
    }

    /** The plain map this shard stands for. */
    ghost function Map(): map<K, Entry<V>>
      reads this, storage.slots, storage.overflows, policy
      requires Unique(storage.slots[..])
    {
      Contents(storage.slots[..])
    }

    method Sweep()
      requires Separate() && Balanced(View(), hash, cost)
      modifies this`deadCount, storage.slots, policy
      ensures Balanced(View(), hash, cost)
      ensures Map() == old(Map())
      ensures TombSet(storage.slots[..]) == {} && deadCount == 0
      ensures OnlyDrops(old(storage.slots[..]), storage.slots[..])
      ensures multiset(policy.nodes) <= multiset(old(policy.nodes))
    {
      hide TableInv, Core, Weight, Contents, OnlyDrops, Sweeps, Kept, Dropped, Unique;
      ghost var st0 := View();
      var dead := set i: nat | i < storage.slots.Length && storage.slots[i].Dead();
      var released := policy.Sweep(dead);
      ghost var kept := policy.nodes;
      SweepsMeans(st0.nodes, kept, released, dead);
      ghost var st := st0.(nodes := Awaiting(kept, released));
      AwaitingIsAll(kept, released);
      Requeued(st0, hash, cost, st.nodes);
      CoreIsUnique(st0, hash);
      var k := 0;
      assert released[0..] == released;
      DropsNothing(st0.slots);
      while k < |released|
        invariant 0 <= k <= |released|
        invariant policy.nodes == kept && storage.slots[..] == st.slots
        invariant st == st0.(slots := st.slots, nodes := Awaiting(kept, released[k..])) && |st.slots| == |st0.slots|
        invariant Balanced(st, hash, cost) && Unique(st.slots)
        invariant Contents(st.slots) == Contents(st0.slots) && OnlyDrops(st0.slots, st.slots)
        invariant DeadAt(st, dead)
      {
        var r := released[k];
        SweptOne(st, hash, cost, kept, released[k..], dead);
        assert released[k..][1..] == released[k + 1..];
        DropsOne(st0.slots, st.slots, r, Free);
        storage.slots[r] := Free;
        st := st.(slots := st.slots[r := Free], nodes := Awaiting(kept, released[k + 1..]));
        k := k + 1;
      }
      assert Awaiting(kept, released[k..]) == kept;
      SweptHasNoTombs(st, hash, dead);
      Recounted(st, hash, cost);
      deadCount := 0;
    }

    /** The tombstone is accounted; once tombstones outnumber live nodes they are reclaimed in bulk. */
    method NoteDead()
      requires Separate() && Balanced(View().(deadCount := deadCount + 1), hash, cost)
      modifies this`deadCount, storage.slots, policy
      ensures Balanced(View(), hash, cost)
      ensures Map() == old(Map()) && OnlyDrops(old(storage.slots[..]), storage.slots[..])
      ensures multiset(policy.nodes) <= multiset(old(policy.nodes))
      ensures if old(deadCount) + 1 >= SWEEP_MIN_DEAD && (old(deadCount) + 1) * 2 >= |old(policy.nodes)|
              then deadCount == 0 && TombSet(storage.slots[..]) == {}
              else
                && deadCount == old(deadCount) + 1 && policy.nodes == old(policy.nodes)
                && storage.slots[..] == old(storage.slots[..])
    {
      hide OnlyDrops;
      DropsNothing(storage.slots[..]);
      deadCount := deadCount + 1;
      if deadCount >= SWEEP_MIN_DEAD && deadCount * 2 >= |policy.nodes| {
        Sweep();
      }
    }

    /** Kills the item in its slot; the slot stays a tombstone until its queue node is reclaimed. */
    method KillAt(idx: nat, cause: Cause)
      requires Valid() && idx < storage.slots.Length && storage.slots[idx].Live?
      modifies this`deadCount, this`weight, this`live, this`dirty, this`reported, storage.slots, storage.overflows,
               policy
      ensures Valid()
      ensures var slot := old(storage.slots[idx]);
              && Map() == old(Map()) - {slot.key}
              && weight == old(weight) - cost(slot.key, slot.value)
              && reported == old(reported) + [Deletion(slot.key, slot.value, cause)]
      ensures OnlyDrops(old(storage.slots[..]), storage.slots[..])
    {
      hide TableInv, Books, Weight, OnlyDrops, Priced, Linked, Contents, Unique;
      ghost var st := View();
      DropsNothing(st.slots);
      KilledIsBalanced(st, hash, cost, idx, cause);
      var slot := storage.slots[idx];
      weight := weight - cost(slot.key, slot.value);
      reported := reported + [Deletion(slot.key, slot.value, cause)];
      DropsOne(st.slots, st.slots, idx, Tomb(slot.key, slot.tag));
      storage.slots[idx] := Tomb(slot.key, slot.tag);
      var home := Home(hash(slot.key), storage.slots.Length);
      KillKeepsTable(st.slots, st.over, hash, idx, Tomb(slot.key, slot.tag));
      storage.ForgetDisplaced(home, idx);
      live := live - 1;
      dirty := dirty + 1;
      assert View().(deadCount := deadCount + 1) == Killed(st, hash, cost, idx, cause);
      ghost var killed := storage.slots[..];
      NoteDead();
      DropsFurther(st.slots, killed, storage.slots[..]);
      BalancedIsLinked(View(), hash, cost);
      PricedKept(st.nodes, st.slots, stored, policy.nodes, storage.slots[..], stored, cost);
    }

    /** The policy gave up `victim`: kill it if it still lives, account for it, and hand its slot back. */
    method Reclaim(victim: nat, nowOff: nat, ghost st: State<K, V>)
      requires Separate() && View() == st.(nodes := policy.nodes)
      requires Balanced(st, hash, cost) && EvictsOne(st.nodes, policy.nodes, victim)
      requires victim < |st.slots| && st.slots[victim].Keyed()
      modifies this`weight, this`live, this`dirty, this`reported, storage.slots, storage.overflows
      ensures View() == Reclaimed(st, hash, cost, victim, CauseOf(st.slots[victim], nowOff), policy.nodes)
    {
      hide TableInv, Books, Weight, Contents;
      var slot := storage.slots[victim];
      if slot.Live? {
        KillKeepsTable(st.slots, st.over, hash, victim, Free);
        weight := weight - cost(slot.key, slot.value);
        storage.ForgetDisplaced(Home(hash(slot.key), storage.slots.Length), victim);
        live := live - 1;
        dirty := dirty + 1;
        var cause := Eviction;
        if ExpiryScale.Expired(slot.expireOff, nowOff) {
          cause := Expiration;
        }
        reported := reported + [Deletion(slot.key, slot.value, cause)];
      }
      storage.slots[victim] := Free;
    }

    /** Evicts until the weight fits. The policy picks the victims; each one that still lived is reported. */
    method EvictShard(nowOff: nat) returns (ghost tail: seq<Deletion<K, V>>)
      requires Separate() && Balanced(View(), hash, cost) && 4 * (live + dirty) < 3 * storage.slots.Length
      requires NodesPriced()
      modifies this`weight, this`live, this`dirty, this`reported, storage.slots, storage.overflows, policy
      ensures Valid()
      ensures reported == old(reported) + tail && Departures(old(Map()), tail, nowOff)
      ensures Map() == old(Map()) - KeysOf(tail)
      ensures old(weight) <= cap ==> tail == []
      ensures Needed(old(Map()), tail, cost, cap)
    {
      hide TableInv, Books, Weight, Contents, KeysOf, Departures, Needed, Priced, OnlyDrops;
      ghost var st0 := View();
      tail := [];
      CoreIsUnique(st0, hash);
      NothingEvicted(st0, nowOff);
      NoneNeeded(Contents(st0.slots), cost, cap);
      while weight > cap
        invariant Balanced(View(), hash, cost) && Unique(storage.slots[..]) && Unique(st0.slots)
        invariant 4 * (live + dirty) < 3 * storage.slots.Length && NodesPriced()
        invariant Evicted(st0, View(), tail, nowOff) && Needed(Contents(st0.slots), tail, cost, cap)
        invariant old(weight) <= cap ==> weight == old(weight) && tail == []
        decreases |policy.nodes|
      {
        ghost var st := View();
        var victim, ok := policy.Evict(nowOff);
        if !ok {
          NoNodesNoWeight(st, hash, cost);
          return;
        }
        assert victim in multiset(Indices(st.nodes));
        NodeIsKeyed(st, victim);
        ghost var cause := CauseOf(st.slots[victim], nowOff);
        Reclaim(victim, nowOff, st);
        ReclaimedIsBalanced(st, hash, cost, victim, cause, policy.nodes);
        OneMoreEvicted(st0, st, hash, cost, victim, policy.nodes, tail, nowOff);
        CoreIsUnique(View(), hash);
        BalancedIsLinked(View(), hash, cost);
        DropsNothing(st.slots);
        DropsOne(st.slots, st.slots, victim, Free);
        PricedKept(st.nodes, st.slots, stored, policy.nodes, storage.slots[..], stored, cost);
        if st.slots[victim].Live? {
          EvictedWeight(st0, st, tail, hash, cost, nowOff);
          NeededOneMore(Contents(st0.slots), tail, Deletion(st.slots[victim].key, st.slots[victim].value, cause), cost,
                        cap);
          tail := tail + [Deletion(st.slots[victim].key, st.slots[victim].value, cause)];
        }
      }
    }

    /** The remap pass: every live item moves to the new table, in the order the policy visits its nodes. */
    method MoveItems(visit: seq<nat>, next: FlatHashMap<K, V>, ghost s: seq<Slot<K, V>>)
      returns (remap: map<nat, nat>, moved: nat)
      requires storage.slots[..] == s && TableInv(s, storage.overflows[..], hash)
      requires multiset(visit) == multiset(KeyedSet(s))
      requires Moving(s, s, next.slots[..], cost) && KeyedSet(next.slots[..]) == {}
      requires TableInv(next.slots[..], next.overflows[..], hash)
      requires 4 * |LiveSet(s)| <= 3 * next.slots.Length
      requires next.slots != storage.slots && next.overflows != storage.overflows
      requires next.slots as object != storage.overflows && next.overflows as object != storage.slots
      modifies next.slots, next.overflows
      ensures TableInv(next.slots[..], next.overflows[..], hash)
      ensures Contents(next.slots[..]) == Contents(s) && Weight(next.slots[..], cost) == Weight(s, cost)
      ensures Items(next.slots[..]) == Items(s)
      ensures moved == |LiveSet(s)| == |LiveSet(next.slots[..])|
      ensures DeadSet(next.slots[..]) == {} && TombSet(next.slots[..]) == {}
      ensures multiset(Remapped(visit, remap)) == multiset(KeyedSet(next.slots[..]))
      ensures Carries(s, next.slots[..], remap)
    {
      hide TableInv, Moving, Contents, Weight, Items, LiveSet, KeyedSet, UsedSet, DeadSet, TombSet, Remapped;
      hide Carries, CarriesSome;
      ghost var over := storage.overflows[..];
      ghost var rest := s;
      remap, moved := map[], 0;
      var k := 0;
      assert visit[0..] == visit;
      assert Remapped(visit[..0], remap) == [] by { RemapNothing(visit[..0], remap); }
      assert |LiveSet(next.slots[..])| == 0 by { NoKeysNoLive(next.slots[..]); }
      CarriesNothing(s, next.slots[..]);
      assert visit[..0] == [];
      while k < |visit|
        invariant 0 <= k <= |visit|
        invariant storage.slots[..] == s && storage.overflows[..] == over
        invariant multiset(visit[k..]) == multiset(KeyedSet(rest))
        invariant TableInv(next.slots[..], next.overflows[..], hash)
        invariant Moving(s, rest, next.slots[..], cost)
        invariant moved == |LiveSet(next.slots[..])|
        invariant forall v | v in remap :: v in visit[..k]
        invariant CarriesSome(s, next.slots[..], remap, visit[..k])
        invariant multiset(Remapped(visit[..k], remap)) == multiset(KeyedSet(next.slots[..]))
      {
        var v := visit[k];
        NextVisit(visit, k, s, rest);
        StillThere(s, rest, next.slots[..], cost, v);
        assert visit[..k + 1] == visit[..k] + [v];
        var slot := storage.slots[v];
        ghost var before := next.slots[..];
        if slot.Live? {
          NotYetMoved(s, rest, before, cost, v);
          LiveSlotTagged(s, over, hash, v);
          var idx := next.InsertFresh(hash, slot);
          LiveMoves(s, rest, before, cost, v, idx);
          KeyedAfter(before, idx, slot);
          LiveAfter(before, idx, slot);
          RemapOneMore(visit, k, remap, idx);
          CarriesOneMore(s, before, remap, visit[..k], v, idx);
          remap := remap[v := idx];
          moved := moved + 1;
        } else {
          DeadStaysBehind(s, rest, before, cost, v);
          RemapOneMore(visit, k, remap, 0);
          LeavesOneMore(s, before, remap, visit[..k], v);
        }
        rest := rest[v := Free];
        k := k + 1;
      }
      assert visit[..k] == visit && visit[k..] == [];
      EmptySet(KeyedSet(rest));
      MovingEnds(s, rest, next.slots[..], cost);
      CarriesAll(s, next.slots[..], remap, visit);
    }

    /** Replaces the table once 3/4 of it is used: doubled when the live items need the space, same-size otherwise. The
        tombstones stay behind, and the policy's nodes follow the items. */
    method MaybeRebuild()
      requires Separate() && Core(View(), hash)
      modifies this`storage, this`live, this`dirty, this`deadCount, policy
      ensures Separate() && Core(View(), hash) && Map() == old(Map())
      ensures Weight(storage.slots[..], cost) == old(Weight(storage.slots[..], cost))
      ensures 4 * (live + dirty) < 3 * storage.slots.Length
      ensures storage == old(storage) || (fresh(storage) && fresh(storage.slots) && fresh(storage.overflows))
      ensures if storage == old(storage) then policy.nodes == old(policy.nodes)
              else NodesFollow(old(storage.slots[..]), old(policy.nodes), storage.slots[..], policy.nodes)
      ensures storage == old(storage) <==> 4 * (old(live) + old(dirty)) < 3 * old(storage.slots.Length)
      ensures storage != old(storage) ==>
                storage.slots.Length
                  == if 2 * old(live) >= old(storage.slots.Length) then 2 * old(storage.slots.Length)
                     else old(storage.slots.Length)
    {
      hide Core, Contents, Weight, Items, UsedSet, DeadSet, LiveSet, TombSet, KeyedSet, Remapped, Moving, TableInv,
           Unique;
      hide Relinks, Carries, Moved;
      if (live + dirty) * 4 < storage.slots.Length * 3 {
        return;
      }
      ghost var st := View();
      ghost var s := storage.slots[..];
      var newSize := storage.slots.Length;
      if live * 2 >= newSize {
        newSize := newSize * 2;
      }
      RebuildSizes(st, hash, newSize);
      var next := new FlatHashMap<K, V>(newSize);
      FreshTable(next.slots[..], next.overflows[..], hash);
      MovingStarts(s, next.slots[..], cost);
      var visit := policy.Visit();
      var remap, moved := MoveItems(visit, next, s);
      policy.Relink(visit, remap);
      RelinksMeans(st.nodes, visit, policy.nodes, remap);
      FollowsBy(s, st.nodes, visit, next.slots[..], policy.nodes, remap);
      live, dirty, deadCount := moved, 0, 0;
      storage := next;
      Rebuilt(st, View(), hash);
    }

    /** Removes the key; a missing key is a no-op. */
    method DeleteKey(key: K, cause: Cause)
      requires Valid()
      modifies this`deadCount, this`weight, this`live, this`dirty, this`reported, storage.slots, storage.overflows,
               policy
      ensures Valid()
      ensures Map() == old(Map()) - {key}
      ensures reported == old(reported)
                        + (if key in old(Map()) then [Deletion(key, old(Map())[key].value, cause)] else [])
    {
      hide Core, Weight, Contents;
      ghost var s := storage.slots[..];
      AtRestTable(View(), hash, cost, cap);
      var idx, ok := storage.FindSlot(hash, key);
      if ok {
        ContentsAt(s, idx);
        KillAt(idx, cause);
      }
    }

    /** A memory read. An expired item is dropped on the way; a hit may push the deadline out. */
    method Get(key: K, nowOff: nat, refresh: Option<nat>) returns (r: Option<V>)
      requires Valid()
      modifies this`deadCount, this`weight, this`live, this`dirty, this`reported, storage.slots, storage.overflows,
               policy
      ensures Valid()
      ensures key !in old(Map()) ==> r == None && Map() == old(Map()) && reported == old(reported)
      ensures key in old(Map()) ==>
                var e := old(Map())[key];
                if ExpiryScale.Expired(e.expireOff, nowOff) then
                  r == None && Map() == old(Map()) - {key}
                    && reported == old(reported) + [Deletion(key, e.value, Expiration)]
                else
                  && r == Some(e.value) && reported == old(reported)
                  && Map() == if refresh.Some? then old(Map())[key := e.(expireOff := refresh.value)] else old(Map())
      ensures OnlyDrops(old(storage.slots[..]), storage.slots[..])
    {
      hide Core, Weight, Contents, OnlyDrops, Priced;
      ghost var st := View();
      DropsNothing(st.slots);
      AtRestTable(st, hash, cost, cap);
      var idx, ok := storage.FindSlot(hash, key);
      if !ok {
        return None;
      }
      ContentsAt(st.slots, idx);
      var slot := storage.slots[idx];
      if ExpiryScale.Expired(slot.expireOff, nowOff) {
        KillAt(idx, Expiration);
        return None;
      }
      if refresh.Some? {
        RefreshedIsAtRest(st, hash, cost, cap, idx, refresh.value);
        DropsOne(st.slots, st.slots, idx, slot.(expireOff := refresh.value));
        storage.slots[idx] := slot.(expireOff := refresh.value);
        assert View() == Refreshed(st, idx, refresh.value);
        AtRestIsLinked(View(), hash, cost, cap);
        PricedKept(st.nodes, st.slots, stored, policy.nodes, storage.slots[..], stored, cost);
      }
      return Some(slot.value);
    }

    /** A new occupancy: an empty or freed slot gets a queue node, the key's own tombstone still has its node. */
    method Publish(idx: nat, key: K, value: V, off: nat, ghost st: State<K, V>)
      requires Separate() && View() == st && Core(st, hash) && 4 * (live + dirty) < 3 * storage.slots.Length
      requires idx < storage.slots.Length && !storage.slots[idx].Live?
      requires storage.slots[idx].Tomb? ==> storage.slots[idx].key == key
      requires forall i | 0 <= i < |st.slots| && i != idx && st.slots[i].Keyed() :: st.slots[i].key != key
      requires Reaches(st.slots, Home(hash(key), |st.slots|), idx) && NodesPriced()
      modifies this`live, this`dirty, this`deadCount, this`stored, storage.slots, storage.overflows, policy
      ensures View() == Published(st, hash, idx, key, value, off, policy.nodes)
      ensures Core(View(), hash) && Contents(st.slots)[key := Entry(value, off)] == Map()
      ensures Weight(storage.slots[..], cost) == Weight(st.slots, cost) + cost(key, value)
      ensures multiset(policy.nodes)
           == multiset(st.nodes) + if st.slots[idx].Tomb? then multiset{} else multiset{QNode(idx, cost(key, value))}
      ensures NodesPriced()
    {
      hide Core, Weight, Contents, Reaches, Priced;
      CoreIsUnique(st, hash);
      CoreGroups(st, hash, Home(hash(key), |st.slots|));
      var was := storage.slots[idx];
      storage.slots[idx] := Live(key, value, TagOf(hash(key)), off);
      var home := Home(hash(key), storage.slots.Length);
      storage.NoteDisplaced(home, idx);
      live := live + 1;
      stored := stored + [(key, value)];
      if was.Tomb? {
        dirty := dirty - 1;
        if deadCount > 0 {
          deadCount := deadCount - 1;
        }
      } else {
        if was.Free? {
          dirty := dirty - 1;
        }
        policy.Add(QNode(idx, cost(key, value)));
      }
      if was.Tomb? {
        PricedReused(st.nodes, st.slots, st.stored, policy.nodes, idx, storage.slots[idx], cost, (key, value));
      } else {
        PricedAdded(st.nodes, st.slots, st.stored, policy.nodes, idx, storage.slots[idx], cost);
      }
      assert Enqueues(st, idx, policy.nodes);
      PublishedKeepsCore(st, hash, cost, idx, key, value, off, policy.nodes);
    }

    /** The table half of a write: over the live item, into its tombstone, or into the first reusable slot. `delta` is
        what the write adds to the weight, which the caller has not yet booked. */
    method Place(key: K, value: V, expireOff: nat) returns (delta: int)
      requires Valid()
      modifies this`storage, this`live, this`dirty, this`deadCount, this`reported, this`stored
      modifies storage.slots, storage.overflows, policy
      ensures Separate() && Core(View(), hash) && 4 * (live + dirty) < 3 * storage.slots.Length
      ensures storage == old(storage) || (fresh(storage) && fresh(storage.slots) && fresh(storage.overflows))
      ensures Map() == Stored(old(Map()), key, value, expireOff) && stored == old(stored) + [(key, value)]
      ensures reported == old(reported)
                        + (if key in old(Map()) then [Deletion(key, old(Map())[key].value, Replacement)] else [])
      ensures delta == cost(key, value) - (if key in old(Map()) then cost(key, old(Map())[key].value) else 0)
      ensures Weight(storage.slots[..], cost) == old(Weight(storage.slots[..], cost)) + delta
      ensures NodesPriced()
    {
      hide Core, Weight, Contents, Reaches, Priced, NodesFollow;
      ghost var st := View();
      AtRestTable(st, hash, cost, cap);
      var place := storage.Locate(hash, key);
      var idx := place.idx;
      delta := cost(key, value);
      match place {
        case Present(_) =>
          ContentsAt(st.slots, idx);
          var slot := storage.slots[idx];
          delta := delta - cost(key, slot.value);
          reported := reported + [Deletion(key, slot.value, Replacement)];
          stored := stored + [(key, value)];
          var off := if expireOff != 0 then expireOff else slot.expireOff;
          storage.slots[idx] := slot.(value := value, expireOff := off);
          PricedReused(st.nodes, st.slots, st.stored, policy.nodes, idx, storage.slots[idx], cost, (key, value));
          OverwrittenKeepsCore(st, hash, cost, idx, value, off);
          assert View() == Overwritten(st, idx, value, off);
        case Dormant(_) =>
          DormantIsReached(st, hash, idx);
          NotInContents(st.slots, idx, key);
          Publish(idx, key, value, expireOff, st);
        case Vacant(_) =>
          NotInContents(st.slots, idx, key);
          Publish(idx, key, value, expireOff, st);
          ghost var s, nodes := storage.slots[..], policy.nodes;
          ghost var was := storage;
          MaybeRebuild();
          if storage != was {
            PricedFollows(nodes, s, policy.nodes, storage.slots[..], stored, cost);
          }
      }
    }

    /** Stores a fitting value and evicts whatever no longer fits; a value heavier than the shard drops the key. */
    method Set(key: K, value: V, expireOff: nat, nowOff: nat) returns (ghost tail: seq<Deletion<K, V>>)
      requires Valid()
      modifies this, storage.slots, storage.overflows, policy
      ensures Valid()
      ensures storage == old(storage) || (fresh(storage) && fresh(storage.slots) && fresh(storage.overflows))
      ensures cost(key, value) > cap ==>
                && tail == [] && stored == old(stored) && Map() == old(Map()) - {key}
                && reported == old(reported) + (if key in old(Map())
                   then [Deletion(key, old(Map())[key].value, Overflow)] else [])
      ensures cost(key, value) <= cap ==>
                var m := old(Map());
                var target := Stored(m, key, value, expireOff);
                && stored == old(stored) + [(key, value)]
                && reported == old(reported) + (if key in m then [Deletion(key, m[key].value, Replacement)] else [])
                   + tail
                && Departures(target, tail, nowOff) && Map() == target - KeysOf(tail)
                && (old(weight) + cost(key, value) - (if key in m then cost(key, m[key].value) else 0) <= cap ==>
                   tail == [])
                && Needed(target, tail, cost, cap)
    {
      hide Core, Weight, Contents, Departures, KeysOf, Unique, Stored, Needed, Priced;
      tail := [];
      var w := cost(key, value);
      if w > cap {
        DeleteKey(key, Overflow);
        return;
      }
      var delta := Place(key, value, expireOff);
      CoreIsUnique(View(), hash);
      NoDepartures(Map(), nowOff);
      NoneNeeded(Map(), cost, cap);
      Reweighed(View(), hash, weight + delta);
      weight := weight + delta;
      if weight > cap {
        tail := EvictShard(nowOff);
      }
    }
  }
}
